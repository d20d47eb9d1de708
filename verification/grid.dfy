/**
 * The puzzle grid as decoded from the daily puzzle: six category squares
 * (three row squares X1..X3, three column squares Y1..Y3), the table that
 * translates the puzzle's kind names into the matcher's kind names, and the
 * textual key under which a (row, column) cell is stored.
 */
module Grid {
  import opened Base

  /** One row or column header: the puzzle's raw kind name, its value and the excluded forms. */
  datatype Square = Square(kind: string, obj: string, excludedForms: seq<string>)

  /** The decoded daily puzzle: row squares x1..x3, column squares y1..y3 and the date. */
  datatype Puzzle = Puzzle(x1: Square, x2: Square, x3: Square,
                           y1: Square, y2: Square, y3: Square,
                           date: string)

  /** The row squares, in source order. */
  function Row(p: Puzzle): (r: seq<Square>)
  {
    [p.x1, p.x2, p.x3]
  }

  /** The column squares, in source order. */
  function Column(p: Puzzle): (r: seq<Square>)
  {
    [p.y1, p.y2, p.y3]
  }

  /**
   * The fixed translation table from the puzzle's kind names to the
   * matcher's kind names: twenty entries, and no entry for any other kind.
   */
  function KindName(kind: string): (r: Option<string>)
    ensures r.Some? ==> r.value != ""
  {
    match kind
    case "POKEMON_TYPE" => Some("type")
    case "GENERATION" => Some("generation")
    case "POKEMON_MOVE" => Some("move")
    case "POKEMON_ABILITY" => Some("ability")
    case "BABY" => Some("baby")
    case "MYTHICAL" => Some("mythical")
    case "LEGENDARY" => Some("legendary")
    case "LEGENDARY_TRIO" => Some("legendary_trio")
    case "ULTRA_BEAST" => Some("ultra-beast")
    case "MEGA" => Some("mega")
    case "DUAL_TYPE" => Some("dual-type")
    case "MONOTYPE" => Some("monotype")
    case "GMAX" => Some("gmax")
    case "EVOLVED_BY" => Some("evolved-by")
    case "EVOLUTION_POSITION" => Some("evolution-position")
    case "EVOLUTION_BRANCHED" => Some("evolution-branched")
    case "HISUI" => Some("hisui")
    case "FIRST_PARTNER" => Some("first-partner")
    case "FOSSIL" => Some("fossil")
    case "PARADOX" => Some("paradox")
    case _ => None
  }

  /** A kind the translation table lists. */
  predicate Known(kind: string)
  {
    KindName(kind).Some?
  }

  /**
   * A Go map lookup in the table: the translated name of a known kind, and
   * the empty string (the zero value) for every other kind. The empty name
   * therefore marks exactly the kinds the table does not list.
   */
  function Translate(kind: string): (r: string)
    ensures r == "" <==> !Known(kind)
    ensures Known(kind) ==> r == KindName(kind).value
  {
    match KindName(kind)
    case Some(name) => name
    case None => ""
  }

  /** The table read backwards: the puzzle kind a matcher kind name comes from. */
  function KindOf(name: string): Option<string>
  {
    match name
    case "type" => Some("POKEMON_TYPE")
    case "generation" => Some("GENERATION")
    case "move" => Some("POKEMON_MOVE")
    case "ability" => Some("POKEMON_ABILITY")
    case "baby" => Some("BABY")
    case "mythical" => Some("MYTHICAL")
    case "legendary" => Some("LEGENDARY")
    case "legendary_trio" => Some("LEGENDARY_TRIO")
    case "ultra-beast" => Some("ULTRA_BEAST")
    case "mega" => Some("MEGA")
    case "dual-type" => Some("DUAL_TYPE")
    case "monotype" => Some("MONOTYPE")
    case "gmax" => Some("GMAX")
    case "evolved-by" => Some("EVOLVED_BY")
    case "evolution-position" => Some("EVOLUTION_POSITION")
    case "evolution-branched" => Some("EVOLUTION_BRANCHED")
    case "hisui" => Some("HISUI")
    case "first-partner" => Some("FIRST_PARTNER")
    case "fossil" => Some("FOSSIL")
    case "paradox" => Some("PARADOX")
    case _ => None
  }

  /** Every known kind is recovered from its translated name: the table is one-to-one. */
  lemma TranslateRoundTrip(kind: string)
    requires Known(kind)
    ensures KindOf(Translate(kind)) == Some(kind)
  {
  }

  /** Two different known kinds never translate to the same name. */
  lemma TranslateInjective(k1: string, k2: string)
    requires Known(k1) && Known(k2) && k1 != k2
    ensures Translate(k1) != Translate(k2)
  {
    TranslateRoundTrip(k1);
    TranslateRoundTrip(k2);
  }

  /** `Type(Obj)`: how a square prints. */
  function SquareText(s: Square): string
  {
    s.kind + "(" + s.obj + ")"
  }

  /** A square prints as its kind, an opening parenthesis, its value and a closing parenthesis. */
  lemma SquareTextShape(s: Square)
    ensures |SquareText(s)| == |s.kind| + |s.obj| + 2
    ensures SquareText(s)[..|s.kind|] == s.kind && SquareText(s)[|s.kind|] == '('
    ensures SquareText(s)[|s.kind| + 1..|SquareText(s)| - 1] == s.obj && SquareText(s)[|SquareText(s)| - 1] == ')'
  {
  }

  /**
   * The key of the cell at row square `x` and column square `y`: the row
   * square's text, a comma, then the column square's text. The raw kind name
   * is used, not the translated one.
   */
  function Key(x: Square, y: Square): (r: string)
    ensures |r| == |SquareText(x)| + 1 + |SquareText(y)| && r[|SquareText(x)|] == ','
  {
    SquareText(x) + "," + SquareText(y)
  }

  /** The key begins with the row square's text and ends with the column square's text, split by a comma. */
  lemma KeyShape(x: Square, y: Square)
    ensures Key(x, y)[..|SquareText(x)|] == SquareText(x)
    ensures Key(x, y)[|SquareText(x)| + 1..] == SquareText(y)
  {
  }

  /**
   * A square whose kind holds no '(' and whose value holds no ')': for such
   * squares the text of a key can be split back into its parts.
   */
  predicate Delimited(s: Square)
  {
    '(' !in s.kind && ')' !in s.obj
  }

  /** The position of the first occurrence of `c` in `s`. */
  function FirstIndex(s: string, c: char): (i: nat)
    requires c in s
    ensures i < |s| && s[i] == c && c !in s[..i]
  {
    if s[0] == c then 0 else 1 + FirstIndex(s[1..], c)
  }

  lemma {:induction false} FirstIndexAfter(a: string, b: string, c: char)
    requires c !in a
    ensures FirstIndex(a + [c] + b, c) == |a|
  {
    if a != [] {
      assert (a + [c] + b)[1..] == a[1..] + [c] + b;
      FirstIndexAfter(a[1..], b, c);
    }
  }

  /** Splitting at the first occurrence of a character that the prefixes do not hold. */
  lemma SplitAtFirst(a: string, b: string, a': string, b': string, c: char)
    requires c !in a && c !in a'
    requires a + [c] + b == a' + [c] + b'
    ensures a == a' && b == b'
  {
    var s := a + [c] + b;
    FirstIndexAfter(a, b, c);
    FirstIndexAfter(a', b', c);
    assert a == s[..|a|] == a';
    assert b == s[|a| + 1..] == b';
  }

  /** The key, nested to the right so that it can be split from the left. */
  function Nested(x: Square, y: Square): string
  {
    x.kind + ['('] + (x.obj + [')'] + ([','] + (y.kind + ['('] + (y.obj + [')']))))
  }

  lemma KeyNested(x: Square, y: Square)
    ensures Key(x, y) == Nested(x, y)
  {
  }

  /**
   * For delimited squares the key determines both squares' kinds and values:
   * distinct cells get distinct keys.
   */
  lemma KeyInjective(x: Square, y: Square, x': Square, y': Square)
    requires Delimited(x) && Delimited(y) && Delimited(x') && Delimited(y')
    requires Key(x, y) == Key(x', y')
    ensures x.kind == x'.kind && x.obj == x'.obj
    ensures y.kind == y'.kind && y.obj == y'.obj
  {
    KeyNested(x, y);
    KeyNested(x', y');
    var t1 := x.obj + [')'] + ([','] + (y.kind + ['('] + (y.obj + [')'])));
    var t1' := x'.obj + [')'] + ([','] + (y'.kind + ['('] + (y'.obj + [')'])));
    SplitAtFirst(x.kind, t1, x'.kind, t1', '(');
    var t2 := [','] + (y.kind + ['('] + (y.obj + [')']));
    var t2' := [','] + (y'.kind + ['('] + (y'.obj + [')']));
    SplitAtFirst(x.obj, t2, x'.obj, t2', ')');
    assert t2[1..] == y.kind + ['('] + (y.obj + [')']);
    assert t2'[1..] == y'.kind + ['('] + (y'.obj + [')']);
    SplitAtFirst(y.kind, y.obj + [')'], y'.kind, y'.obj + [')'], '(');
    assert y.obj == (y.obj + [')'])[..|y.obj|];
    assert y'.obj == (y'.obj + [')'])[..|y'.obj|];
  }

  /** Swapping the row and the column square changes the key, unless the two squares print alike. */
  lemma KeyNotCommutative(x: Square, y: Square)
    requires Delimited(x) && Delimited(y)
    requires x.kind != y.kind || x.obj != y.obj
    ensures Key(x, y) != Key(y, x)
  {
    if Key(x, y) == Key(y, x) {
      KeyInjective(x, y, y, x);
    }
  }

  /**
   * Keys are built from text only: two different column squares whose parts
   * contain parentheses can give the same key with the same row square.
   */
  lemma KeyCollidesOnText()
    ensures Square("C(x", "y", []) != Square("C", "x(y", [])
    ensures Key(Square("A", "b", []), Square("C(x", "y", []))
         == Key(Square("A", "b", []), Square("C", "x(y", []))
  {
    assert Key(Square("A", "b", []), Square("C(x", "y", [])) == "A(b),C(x(y)";
    assert Key(Square("A", "b", []), Square("C", "x(y", [])) == "A(b),C(x(y)";
  }

  /** A value holding `),` shifts the comma: two different pairs, one key. */
  lemma KeyCollidesOnValue()
    ensures Square("A", "b),C(d", []) != Square("A", "b", [])
    ensures Key(Square("A", "b),C(d", []), Square("E", "f", []))
         == Key(Square("A", "b", []), Square("C", "d),E(f", []))
  {
    assert Key(Square("A", "b),C(d", []), Square("E", "f", [])) == "A(b),C(d),E(f)";
    assert Key(Square("A", "b", []), Square("C", "d),E(f", [])) == "A(b),C(d),E(f)";
  }
}
