/**
 * `solveGrid`: the cells of the Cartesian product of the row squares and the
 * column squares, rows outer and columns inner, each resolved once and stored
 * under its textual key in the solution map.
 */
module Aggregate {
  import opened Base
  import opened Grid
  import opened Merge
  import opened Matching

  /** The solution map: cell key to the matcher's list, or nil for a failed cell. */
  type Solution = map<string, Option<seq<string>>>

  /** A cell, as the pair of its row square and its column square. */
  type Cell = (Square, Square)

  /** Resolution of one cell, as `solveForTwo` does it: a list (possibly nil) and a classified error (possibly nil). */
  type CellSolver = (Square, Square) -> (Option<seq<string>>, Option<string>)

  /** `solveForTwo` over the given matcher. */
  function SolveWith(matcher: Matcher): CellSolver
  {
    (a: Square, b: Square) => SolveForTwo(a, b, matcher)
  }

  /** The cells of row square `x`, one per column square, in column order. */
  function Pairs(x: Square, columns: seq<Square>): (r: seq<Cell>)
    ensures |r| == |columns|
    ensures forall j | 0 <= j < |r| :: r[j] == (x, columns[j])
  {
    if columns == [] then []
    else Pairs(x, columns[..|columns| - 1]) + [(x, columns[|columns| - 1])]
  }

  /** The Cartesian product of the row and column squares: rows outer, columns inner. */
  function Product(rows: seq<Square>, columns: seq<Square>): seq<Cell>
  {
    if rows == [] then []
    else Product(rows[..|rows| - 1], columns) + Pairs(rows[|rows| - 1], columns)
  }

  lemma PairsSnoc(x: Square, columns: seq<Square>, j: nat)
    requires j < |columns|
    ensures Pairs(x, columns[..j + 1]) == Pairs(x, columns[..j]) + [(x, columns[j])]
  {
    assert columns[..j + 1][..j] == columns[..j];
  }

  lemma ProductSnoc(rows: seq<Square>, columns: seq<Square>, i: nat)
    requires i < |rows|
    ensures Product(rows[..i + 1], columns) == Product(rows[..i], columns) + Pairs(rows[i], columns)
  {
    assert rows[..i + 1][..i] == rows[..i];
  }

  /** The nine cells of the puzzle, in the order `solveGrid` visits them. */
  function Cells(p: Puzzle): seq<Cell>
  {
    Product(Row(p), Column(p))
  }

  /** Three row squares: their column runs one after the other. */
  lemma ProductOfThree(a: Square, b: Square, c: Square, columns: seq<Square>)
    ensures Product([a, b, c], columns) == Pairs(a, columns) + Pairs(b, columns) + Pairs(c, columns)
  {
    assert [a][..0] == [];
    assert Product([a], columns) == Pairs(a, columns);
    assert [a, b][..1] == [a];
    assert Product([a, b], columns) == Pairs(a, columns) + Pairs(b, columns);
    assert [a, b, c][..2] == [a, b];
  }

  /** Rows outer, columns inner: the cell at position 3i+j pairs row square i with column square j. */
  lemma CellsInOrder(p: Puzzle)
    ensures |Cells(p)| == 9
    ensures forall i, j | 0 <= i < 3 && 0 <= j < 3 :: Cells(p)[3 * i + j] == (Row(p)[i], Column(p)[j])
  {
    var rows, columns := Row(p), Column(p);
    var p1, p2, p3 := Pairs(p.x1, columns), Pairs(p.x2, columns), Pairs(p.x3, columns);
    ProductOfThree(p.x1, p.x2, p.x3, columns);
    assert Cells(p) == p1 + p2 + p3;
    forall i, j | 0 <= i < 3 && 0 <= j < 3 ensures Cells(p)[3 * i + j] == (rows[i], columns[j]) {
      var q := if i == 0 then p1 else if i == 1 then p2 else p3;
      assert q[j] == (rows[i], columns[j]);
      assert Cells(p)[3 * i + j] == q[j];
    }
  }

  function CellKey(c: Cell): string
  {
    Key(c.0, c.1)
  }

  /**
   * What the map receives for a cell: nil when the resolution reported an
   * error, and otherwise the list verbatim, with no sorting, dedup or truncation.
   */
  function Stored(solve: CellSolver, c: Cell): (r: Option<seq<string>>)
    ensures solve(c.0, c.1).1.Some? ==> r.None?
    ensures solve(c.0, c.1).1.None? ==> r == solve(c.0, c.1).0
  {
    var (pokemons, err) := solve(c.0, c.1);
    if err.Some? then None else pokemons
  }

  /** Through the matcher: a cell is nil exactly when the match failed, and its list is the matcher's own otherwise. */
  lemma StoredThroughMatcher(x: Square, y: Square, matcher: Matcher)
    ensures Stored(SolveWith(matcher), (x, y)).None? <==>
              matcher(CharacteristicsToValues(x, y)).err.Some? || matcher(CharacteristicsToValues(x, y)).pokemons.None?
    ensures matcher(CharacteristicsToValues(x, y)).err.None? ==>
              Stored(SolveWith(matcher), (x, y)) == matcher(CharacteristicsToValues(x, y)).pokemons
  {
  }

  /** The map after storing the cells' outcomes one after the other; a later store under a key replaces an earlier one. */
  function Store(cells: seq<Cell>, solve: CellSolver): Solution
  {
    if cells == [] then map[]
    else
      var last := cells[|cells| - 1];
      Store(cells[..|cells| - 1], solve)[CellKey(last) := Stored(solve, last)]
  }

  /** Storing one more cell: the map gains or replaces that cell's entry. */
  lemma StoreSnoc(cells: seq<Cell>, c: Cell, solve: CellSolver)
    ensures Store(cells + [c], solve) == Store(cells, solve)[CellKey(c) := Stored(solve, c)]
  {
    assert (cells + [c])[..|cells|] == cells;
  }

  /**
   * One step of the inner loop: the next cell of row square `row[i]` is
   * visited, and the map gains that cell's outcome under its key.
   */
  lemma VisitStep(row: seq<Square>, column: seq<Square>, i: nat, j: nat, visited: seq<Cell>,
                  solutions: Solution, solve: CellSolver, pokemons: Option<seq<string>>)
    requires i < |row| && j < |column|
    requires visited == Product(row[..i], column) + Pairs(row[i], column[..j])
    requires solutions == Store(visited, solve)
    requires pokemons == if solve(row[i], column[j]).1.Some? then None else solve(row[i], column[j]).0
    ensures visited + [(row[i], column[j])] == Product(row[..i], column) + Pairs(row[i], column[..j + 1])
    ensures solutions[Key(row[i], column[j]) := pokemons] == Store(visited + [(row[i], column[j])], solve)
  {
    PairsSnoc(row[i], column, j);
    StoreSnoc(visited, (row[i], column[j]), solve);
  }

  /** The map's keys are exactly the visited cells' keys. */
  lemma {:induction false} StoreDomain(cells: seq<Cell>, solve: CellSolver)
    ensures Store(cells, solve).Keys == KeySet(cells, CellKey)
  {
    if cells != [] {
      StoreDomain(cells[..|cells| - 1], solve);
    }
  }

  /** Every visited cell's key is in the map, and the map holds no other key. */
  lemma StoreKeys(cells: seq<Cell>, solve: CellSolver)
    ensures forall i | 0 <= i < |cells| :: CellKey(cells[i]) in Store(cells, solve)
    ensures forall k | k in Store(cells, solve) :: exists i :: 0 <= i < |cells| && CellKey(cells[i]) == k
  {
    StoreDomain(cells, solve);
    forall i | 0 <= i < |cells| ensures CellKey(cells[i]) in Store(cells, solve) {
      KeySetMembers(cells, CellKey, CellKey(cells[i]));
    }
    forall k | k in Store(cells, solve) ensures exists i :: 0 <= i < |cells| && CellKey(cells[i]) == k {
      KeySetMembers(cells, CellKey, k);
    }
  }

  /**
   * The value under a cell's key is that cell's own outcome when no later
   * cell shares the key: the last store under a key wins.
   */
  lemma {:induction false} StoreLastWins(cells: seq<Cell>, solve: CellSolver, i: nat)
    requires i < |cells|
    requires forall j | i < j < |cells| :: CellKey(cells[j]) != CellKey(cells[i])
    ensures CellKey(cells[i]) in Store(cells, solve)
    ensures Store(cells, solve)[CellKey(cells[i])] == Stored(solve, cells[i])
  {
    var init := cells[..|cells| - 1];
    if i < |cells| - 1 {
      assert init[i] == cells[i];
      forall j | i < j < |init| ensures CellKey(init[j]) != CellKey(init[i]) {
        assert init[j] == cells[j];
      }
      StoreLastWins(init, solve, i);
    }
  }

  /** The map has one entry per cell exactly when the cells' keys are pairwise distinct. */
  lemma StoreSize(cells: seq<Cell>, solve: CellSolver)
    ensures |Store(cells, solve)| <= |cells|
    ensures |Store(cells, solve)| == |cells| <==> DistinctKeys(cells, CellKey)
  {
    StoreDomain(cells, solve);
    KeySetSize(cells, CellKey);
    assert |Store(cells, solve)| == |Store(cells, solve).Keys|;
  }

  /**
   * `solveGrid`: visits the cells, rows outer and columns inner, resolves
   * each once with `solve` (the ghost `visited` records the order), stores
   * nil for a cell whose resolution reported an error and the list otherwise,
   * under the cell's key.
   */
  method SolveGrid(p: Puzzle, solve: CellSolver) returns (solutions: Solution, ghost visited: seq<Cell>)
    ensures visited == Cells(p)
    ensures solutions == Store(Cells(p), solve)
  {
    var row := Row(p);
    var column := Column(p);
    solutions := map[];
    visited := [];
    for i := 0 to |row|
      invariant visited == Product(row[..i], column)
      invariant solutions == Store(visited, solve)
    {
      for j := 0 to |column|
        invariant visited == Product(row[..i], column) + Pairs(row[i], column[..j])
        invariant solutions == Store(visited, solve)
      {
        var xsquare, ysquare := row[i], column[j];
        var answer := solve(xsquare, ysquare);
        var pokemons, err := answer.0, answer.1;
        if err.Some? {
          pokemons := None;
        }
        VisitStep(row, column, i, j, visited, solutions, solve, pokemons);
        var key := Key(xsquare, ysquare);
        solutions := solutions[key := pokemons];
        visited := visited + [(xsquare, ysquare)];
      }
      ProductSnoc(row, column, i);
      assert column[..|column|] == column;
    }
    assert row[..|row|] == row;
  }

  /** Each of the nine cells' keys is in the map, and the map holds no other key. */
  lemma GridKeys(p: Puzzle, solve: CellSolver)
    ensures forall i, j | 0 <= i < 3 && 0 <= j < 3 :: Key(Row(p)[i], Column(p)[j]) in Store(Cells(p), solve)
    ensures forall k | k in Store(Cells(p), solve) :: exists c :: c in Cells(p) && CellKey(c) == k
  {
    var cells := Cells(p);
    CellsInOrder(p);
    StoreKeys(cells, solve);
    forall i, j | 0 <= i < 3 && 0 <= j < 3 ensures Key(Row(p)[i], Column(p)[j]) in Store(cells, solve) {
      assert cells[3 * i + j] == (Row(p)[i], Column(p)[j]);
    }
    forall k | k in Store(cells, solve) ensures exists c :: c in cells && CellKey(c) == k {
      var n :| 0 <= n < |cells| && CellKey(cells[n]) == k;
      assert cells[n] in cells;
    }
  }

  /** The map has nine entries exactly when the nine keys are pairwise distinct, and never more. */
  lemma GridSize(p: Puzzle, solve: CellSolver)
    ensures |Store(Cells(p), solve)| <= 9
    ensures |Store(Cells(p), solve)| == 9 <==> DistinctKeys(Cells(p), CellKey)
  {
    CellsInOrder(p);
    StoreSize(Cells(p), solve);
  }

  /**
   * Per-cell isolation: when no later cell shares its key, a cell's entry is
   * its own outcome, whatever the other cells' resolutions returned.
   */
  lemma GridCell(p: Puzzle, solve: CellSolver, i: nat, j: nat)
    requires i < 3 && j < 3
    requires forall n | 3 * i + j < n < |Cells(p)| :: CellKey(Cells(p)[n]) != Key(Row(p)[i], Column(p)[j])
    ensures Key(Row(p)[i], Column(p)[j]) in Store(Cells(p), solve)
    ensures Store(Cells(p), solve)[Key(Row(p)[i], Column(p)[j])] == Stored(solve, (Row(p)[i], Column(p)[j]))
  {
    CellsInOrder(p);
    assert Cells(p)[3 * i + j] == (Row(p)[i], Column(p)[j]);
    StoreLastWins(Cells(p), solve, 3 * i + j);
  }

  /** The cell at position `n` of the nine, with its row and column recovered by division. */
  lemma CellAt(p: Puzzle, n: nat)
    requires n < 9
    ensures n == 3 * (n / 3) + n % 3 && n / 3 < 3 && n % 3 < 3
    ensures |Cells(p)| == 9 && Cells(p)[n] == (Row(p)[n / 3], Column(p)[n % 3])
  {
    CellsInOrder(p);
  }

  /** The squares of a puzzle are delimited and print differently among the rows and among the columns. */
  predicate WellSeparated(p: Puzzle)
  {
    && (forall s | s in Row(p) + Column(p) :: Delimited(s))
    && (forall i, j | 0 <= i < j < 3 :: SquareText(Row(p)[i]) != SquareText(Row(p)[j]))
    && (forall i, j | 0 <= i < j < 3 :: SquareText(Column(p)[i]) != SquareText(Column(p)[j]))
  }

  /** In such a puzzle two different positions of the grid have different keys. */
  lemma PositionsKeysDiffer(p: Puzzle, i: nat, j: nat, i': nat, j': nat)
    requires WellSeparated(p)
    requires i < 3 && j < 3 && i' < 3 && j' < 3 && (i != i' || j != j')
    ensures Key(Row(p)[i], Column(p)[j]) != Key(Row(p)[i'], Column(p)[j'])
  {
    assert Row(p)[i] in Row(p) + Column(p) && Row(p)[i'] in Row(p) + Column(p);
    assert Column(p)[j] in Row(p) + Column(p) && Column(p)[j'] in Row(p) + Column(p);
    if Key(Row(p)[i], Column(p)[j]) == Key(Row(p)[i'], Column(p)[j']) {
      KeyInjective(Row(p)[i], Column(p)[j], Row(p)[i'], Column(p)[j']);
    }
  }

  /**
   * With delimited squares whose texts differ pairwise among the rows and
   * among the columns, the nine keys differ and the map has nine entries.
   */
  lemma GridNineEntries(p: Puzzle, solve: CellSolver)
    requires WellSeparated(p)
    ensures |Store(Cells(p), solve)| == 9
  {
    var cells := Cells(p);
    CellsInOrder(p);
    forall a, b | 0 <= a < b < |cells| ensures CellKey(cells[a]) != CellKey(cells[b]) {
      CellAt(p, a);
      CellAt(p, b);
      PositionsKeysDiffer(p, a / 3, a % 3, b / 3, b % 3);
    }
    GridSize(p, solve);
  }

  /**
   * Two row squares, or two column squares, that print alike make keys
   * collide: the map has fewer than nine entries.
   */
  lemma DuplicateSquaresCollide(p: Puzzle, solve: CellSolver, a: nat, b: nat)
    requires a < b < 3
    requires SquareText(Row(p)[a]) == SquareText(Row(p)[b]) || SquareText(Column(p)[a]) == SquareText(Column(p)[b])
    ensures |Store(Cells(p), solve)| < 9
  {
    var cells := Cells(p);
    CellsInOrder(p);
    if SquareText(Row(p)[a]) == SquareText(Row(p)[b]) {
      assert cells[3 * a + 0] == (Row(p)[a], Column(p)[0]);
      assert cells[3 * b + 0] == (Row(p)[b], Column(p)[0]);
      assert CellKey(cells[3 * a]) == CellKey(cells[3 * b]);
    } else {
      assert cells[3 * 0 + a] == (Row(p)[0], Column(p)[a]);
      assert cells[3 * 0 + b] == (Row(p)[0], Column(p)[b]);
      assert CellKey(cells[a]) == CellKey(cells[b]);
    }
    GridSize(p, solve);
  }

  /**
   * A puzzle whose six squares are all the same square stores one entry
   * only. A puzzle left at its zero value (every field empty) is one such,
   * with the single key "(),()".
   */
  lemma UniformPuzzleCollapses(sq: Square, date: string, solve: CellSolver)
    ensures Store(Cells(Puzzle(sq, sq, sq, sq, sq, sq, date)), solve).Keys == {Key(sq, sq)}
  {
    var p := Puzzle(sq, sq, sq, sq, sq, sq, date);
    var cells := Cells(p);
    var q := Pairs(sq, [sq, sq, sq]);
    ProductOfThree(sq, sq, sq, [sq, sq, sq]);
    assert cells == q + q + q;
    forall n | 0 <= n < |cells| ensures CellKey(cells[n]) == Key(sq, sq) {
      assert cells[n] in q;
    }
    StoreDomain(cells, solve);
    OneKey(cells, Key(sq, sq));
  }

  /** Non-empty cells that all share one key collect that key alone. */
  lemma {:induction false} OneKey(cells: seq<Cell>, k: string)
    requires cells != []
    requires forall n | 0 <= n < |cells| :: CellKey(cells[n]) == k
    ensures KeySet(cells, CellKey) == {k}
  {
    var init := cells[..|cells| - 1];
    if init != [] {
      forall n | 0 <= n < |init| ensures CellKey(init[n]) == k {
        assert init[n] == cells[n];
      }
      OneKey(init, k);
    }
  }
}
