/**
 * The merge rule: one row square and one column square become the query the
 * matcher is asked, a map from the matcher's kind names to the values an
 * entity must hold.
 */
module Merge {
  import opened Grid

  /** A matcher query: kind name to the values required under that kind. */
  type Query = map<string, seq<string>>

  /**
   * The query for the cell at squares `a` and `b`. Equal raw kinds ask for
   * both values under the one kind; different raw kinds ask for one value
   * under each translated kind. When the two translations coincide, the Go
   * language specification (Composite literals, Order of evaluation) does not
   * say which of two equal non-constant keys in a map literal wins; the gc
   * compiler stores the entries in source order, so `b`'s entry is kept, and
   * this model follows gc.
   */
  function CharacteristicsToValues(a: Square, b: Square): (r: Query)
    ensures r.Keys == {Translate(a.kind), Translate(b.kind)}
    ensures forall k :: k in r ==> 1 <= |r[k]| <= 2
    ensures forall k, v :: k in r && v in r[k] ==> v == a.obj || v == b.obj
  {
    if a.kind == b.kind then
      map[Translate(a.kind) := [a.obj, b.obj]]
    else
      map[Translate(a.kind) := [a.obj], Translate(b.kind) := [b.obj]]
  }

  /** Same raw kind: one entry, holding both values in order, duplicates kept. */
  lemma SameKind(a: Square, b: Square)
    requires a.kind == b.kind
    ensures |CharacteristicsToValues(a, b)| == 1
    ensures CharacteristicsToValues(a, b)[Translate(a.kind)] == [a.obj, b.obj]
  {
    var r := CharacteristicsToValues(a, b);
    assert r.Keys == {Translate(a.kind)};
  }

  /**
   * Different raw kinds: `b`'s value is always asked alone under its kind;
   * `a`'s value survives, alone, exactly when the two kinds translate apart.
   */
  lemma DifferentKinds(a: Square, b: Square)
    requires a.kind != b.kind
    ensures CharacteristicsToValues(a, b)[Translate(b.kind)] == [b.obj]
    ensures Translate(a.kind) != Translate(b.kind) ==>
              |CharacteristicsToValues(a, b)| == 2 &&
              CharacteristicsToValues(a, b)[Translate(a.kind)] == [a.obj]
    ensures Translate(a.kind) == Translate(b.kind) ==>
              CharacteristicsToValues(a, b) == map[Translate(b.kind) := [b.obj]]
  {
    var r := CharacteristicsToValues(a, b);
    if Translate(a.kind) != Translate(b.kind) {
      assert |r.Keys| == |{Translate(a.kind)}| + |{Translate(b.kind)}|;
    }
  }

  /** The number of entries is two exactly when the two kinds translate to different names. */
  lemma EntryCount(a: Square, b: Square)
    ensures |CharacteristicsToValues(a, b)| == (if Translate(a.kind) == Translate(b.kind) then 1 else 2)
  {
    if a.kind == b.kind {
      SameKind(a, b);
    } else {
      DifferentKinds(a, b);
    }
  }

  /** Two different known kinds always give a two-entry query with one value each. */
  lemma KnownDifferentKinds(a: Square, b: Square)
    requires Known(a.kind) && Known(b.kind) && a.kind != b.kind
    ensures |CharacteristicsToValues(a, b)| == 2
    ensures CharacteristicsToValues(a, b)[Translate(a.kind)] == [a.obj]
    ensures CharacteristicsToValues(a, b)[Translate(b.kind)] == [b.obj]
  {
    TranslateInjective(a.kind, b.kind);
    DifferentKinds(a, b);
  }

  /** Two different unknown kinds both translate to "": only `b`'s value is asked. */
  lemma UnknownKindsCollide(a: Square, b: Square)
    requires !Known(a.kind) && !Known(b.kind) && a.kind != b.kind
    ensures CharacteristicsToValues(a, b) == map["" := [b.obj]]
  {
    DifferentKinds(a, b);
  }
}
