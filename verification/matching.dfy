/**
 * One cell's resolution: the query goes to the external matcher, whose
 * error, if any, is classified into a message.
 */
module Matching {
  import opened Base
  import opened Grid
  import opened Merge

  /**
   * An error returned by the matcher: the matcher's invalid-characteristic
   * error naming the unsupported kind, any other failure, or an error that
   * wraps a cause with extra context.
   */
  datatype Error =
    | InvalidCharacteristic(name: string)
    | OtherFailure(text: string)
    | Wrapped(context: string, cause: Error)

  /** What the matcher returns: a list of names (possibly nil) and an error (possibly nil). */
  datatype MatchReturn = MatchReturn(pokemons: Option<seq<string>>, err: Option<Error>)

  /** The external matcher, seen only through what it returns for a query. */
  type Matcher = Query -> MatchReturn

  /** `errors.Unwrap`: the wrapped cause, or nil when the error wraps nothing. */
  function Unwrap(e: Error): (r: Option<Error>)
    ensures r.Some? <==> |Chain(e)| > 1
    ensures r.Some? ==> Chain(r.value) == Chain(e)[1..]
  {
    if e.Wrapped? then Some(e.cause) else None
  }

  /** `e` followed by its causes, outermost first. */
  function Chain(e: Error): (c: seq<Error>)
    ensures |c| >= 1 && c[0] == e
  {
    match e
    case Wrapped(_, cause) => [e] + Chain(cause)
    case _ => [e]
  }

  /** The name carried by the first invalid-characteristic error on the chain of `e`. */
  function FindInvalid(e: Error): (r: Option<string>)
    ensures r.Some? ==> InvalidCharacteristic(r.value) in Chain(e)
  {
    match e
    case InvalidCharacteristic(name) => Some(name)
    case OtherFailure(_) => None
    case Wrapped(_, cause) => FindInvalid(cause)
  }

  /**
   * `errors.As` with an invalid-characteristic target: a nil error matches
   * nothing; otherwise the first invalid-characteristic error on the chain.
   */
  function AsInvalid(e: Option<Error>): (r: Option<string>)
    ensures e.None? ==> r.None?
    ensures r.Some? ==> InvalidCharacteristic(r.value) in Chain(e.value)
  {
    if e.Some? then FindInvalid(e.value) else None
  }

  /** `errors.As` finds a name exactly when the chain holds an invalid-characteristic error with that name. */
  lemma {:induction false} AsInvalidFindsChain(e: Error, name: string)
    ensures AsInvalid(Some(e)) == Some(name) <==> InvalidCharacteristic(name) in Chain(e)
  {
    match e
    case Wrapped(_, cause) =>
      AsInvalidFindsChain(cause, name);
    case _ =>
  }

  /** The message for an unsupported kind. */
  function NotImplementedMessage(name: string): string
  {
    "Characteristic " + name + " was not yet implemented"
  }

  /** The message for every other matcher failure. */
  const UnknownMessage: string := "Unknown error when querying pokemons"

  /** The two kinds of message never coincide, and an unsupported-kind message names its kind. */
  lemma MessagesDistinguish(name: string, name': string)
    ensures NotImplementedMessage(name) != UnknownMessage
    ensures NotImplementedMessage(name) == NotImplementedMessage(name') ==> name == name'
  {
    assert NotImplementedMessage(name)[0] == 'C';
    assert UnknownMessage[0] == 'U';
    var prefix := "Characteristic ";
    if NotImplementedMessage(name) == NotImplementedMessage(name') {
      var m := NotImplementedMessage(name);
      assert |name| == |name'|;
      assert name == m[|prefix|..|prefix| + |name|];
      assert name' == m[|prefix|..|prefix| + |name'|];
    }
  }

  /**
   * Classifies the matcher's error. Nil stays nil. An error whose unwrapped
   * cause is, or wraps, an invalid-characteristic error becomes a message
   * naming the kind; every other error becomes the generic message. An
   * invalid-characteristic error returned bare, with nothing wrapping it,
   * unwraps to nil and so gets the generic message.
   */
  function FormatMatchError(err: Option<Error>): (r: Option<string>)
    ensures r.None? <==> err.None?
    ensures err.Some? && !err.value.Wrapped? ==> r == Some(UnknownMessage)
  {
    match err
    case None => None
    case Some(e) =>
      match AsInvalid(Unwrap(e))
      case Some(name) => Some(NotImplementedMessage(name))
      case None => Some(UnknownMessage)
  }

  /**
   * The classification against the error chain: the message names `name`
   * exactly when an invalid-characteristic error with that name lies strictly
   * below the outermost error.
   */
  lemma ClassifiesByChain(e: Error, name: string)
    ensures FormatMatchError(Some(e)) == Some(NotImplementedMessage(name))
            <==> InvalidCharacteristic(name) in Chain(e)[1..]
    ensures FormatMatchError(Some(e)) == Some(UnknownMessage)
            <==> forall n :: InvalidCharacteristic(n) !in Chain(e)[1..]
  {
    MessagesDistinguish(name, name);
    if e.Wrapped? {
      var cause := e.cause;
      assert Chain(e)[1..] == Chain(cause);
      AsInvalidFindsChain(cause, name);
      if AsInvalid(Some(cause)).Some? {
        var n := AsInvalid(Some(cause)).value;
        AsInvalidFindsChain(cause, n);
        MessagesDistinguish(n, name);
      } else {
        forall n ensures InvalidCharacteristic(n) !in Chain(e)[1..] {
          AsInvalidFindsChain(cause, n);
        }
      }
    } else {
      assert Chain(e)[1..] == [];
    }
  }

  /**
   * `solveForTwo`: merges the two squares, asks the matcher, and passes its
   * list on unchanged together with the classified error.
   */
  function SolveForTwo(a: Square, b: Square, matcher: Matcher): (r: (Option<seq<string>>, Option<string>))
    ensures r.0 == matcher(CharacteristicsToValues(a, b)).pokemons
    ensures r.1 == FormatMatchError(matcher(CharacteristicsToValues(a, b)).err)
    ensures r.1.Some? <==> matcher(CharacteristicsToValues(a, b)).err.Some?
  {
    var answer := matcher(CharacteristicsToValues(a, b));
    (answer.pokemons, FormatMatchError(answer.err))
  }
}
