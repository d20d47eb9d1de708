/**
 * `Solve` after the puzzle is decoded: the grid is solved, then shown in one
 * of two modes chosen by the display count. Output is modelled as the data
 * printed: the lines of list mode and the cells of table mode.
 */
module Present {
  import opened Base
  import opened Grid
  import opened Matching
  import opened Aggregate

  /** One line of list mode: a key and the candidates shown, or the no-match marker. */
  datatype Line = Shown(key: string, names: seq<string>) | NoMatch(key: string)

  /** One body row of table mode: the column square's text and one entry per row square. */
  datatype BodyRow = BodyRow(heading: string, cells: seq<string>)

  /** Table mode: the row squares' texts as header, then one body row per column square. */
  datatype Table = Table(header: seq<string>, body: seq<BodyRow>)

  /** What `Solve` shows. */
  datatype Display = ListView(lines: seq<Line>) | TableView(table: Table)

  /** A display count that selects neither mode. */
  datatype SolveError = InvalidDisplayCount(numToDisplay: int)

  /** `pokemons[:min(len(pokemons), n)]`: the first candidates, never more than available nor more than `n`. */
  function Take(names: seq<string>, n: nat): (r: seq<string>)
    ensures |r| <= |names| && |r| <= n
    ensures |r| == |names| || |r| == n
    ensures forall i | 0 <= i < |r| :: r[i] == names[i]
  {
    names[..Min(|names|, n)]
  }

  /** The list-mode line for the entry `key` holding `cell`. */
  function LineFor(key: string, cell: Option<seq<string>>, n: nat): (r: Line)
    ensures r.key == key
    ensures r.NoMatch? <==> cell.None?
    ensures cell.Some? ==> r.names == Take(cell.value, n)
  {
    match cell
    case None => NoMatch(key)
    case Some(names) => Shown(key, Take(names, n))
  }

  /** The entry a line shows. */
  function LineKey(line: Line): string
  {
    line.key
  }

  /** Every line shows an entry of `solution` as `LineFor` says. */
  ghost predicate LinesFaithful(lines: seq<Line>, solution: Solution, n: nat)
  {
    forall i | 0 <= i < |lines| :: lines[i].key in solution && lines[i] == LineFor(lines[i].key, solution[lines[i].key], n)
  }

  lemma LinesFaithfulSnoc(lines: seq<Line>, solution: Solution, n: nat, k: string)
    requires LinesFaithful(lines, solution, n) && k in solution
    ensures LinesFaithful(lines + [LineFor(k, solution[k], n)], solution, n)
  {
  }

  /** Moving one key from the keys still to show to the keys shown. */
  lemma MoveKey(shown: set<string>, remaining: set<string>, all: set<string>, k: string)
    requires shown !! remaining && shown + remaining == all && k in remaining
    ensures shown + {k} !! remaining - {k} && (shown + {k}) + (remaining - {k}) == all
    ensures |shown + {k}| == |shown| + 1 && |remaining - {k}| < |remaining|
  {
  }

  /** `lines` shows every entry of `solution`, one line each, in any order. */
  ghost predicate ListsSolution(lines: seq<Line>, solution: Solution, n: nat)
  {
    && KeySet(lines, LineKey) == solution.Keys
    && |lines| == |solution.Keys|
    && LinesFaithful(lines, solution, n)
  }

  /** List mode shows each entry exactly once: every key on some line, and no key on two lines. */
  lemma ListedOnce(lines: seq<Line>, solution: Solution, n: nat)
    requires ListsSolution(lines, solution, n)
    ensures forall k | k in solution :: exists i :: 0 <= i < |lines| && lines[i].key == k
    ensures forall i, j | 0 <= i < j < |lines| :: lines[i].key != lines[j].key
  {
    KeySetSize(lines, LineKey);
    forall k | k in solution ensures exists i :: 0 <= i < |lines| && lines[i].key == k {
      KeySetMembers(lines, LineKey, k);
    }
  }

  /**
   * `printManySolutions`: one line per entry of the map, taken in an
   * unspecified order; a nil entry shows the no-match marker, any other the
   * first `min(len, n)` candidates.
   */
  method ManySolutions(solution: Solution, n: nat) returns (lines: seq<Line>)
    ensures ListsSolution(lines, solution, n)
  {
    var remaining := solution.Keys;
    ghost var shown: set<string> := {};
    lines := [];
    while remaining != {}
      invariant shown !! remaining && shown + remaining == solution.Keys
      invariant KeySet(lines, LineKey) == shown && |lines| == |shown|
      invariant LinesFaithful(lines, solution, n)
      decreases |remaining|
    {
      var combination :| combination in remaining;
      var pokemons := solution[combination];
      var line;
      if pokemons.None? {
        line := NoMatch(combination);
      } else {
        var toDisplay := Min(|pokemons.value|, n);
        line := Shown(combination, pokemons.value[..toDisplay]);
      }
      assert line == LineFor(combination, solution[combination], n);
      LinesFaithfulSnoc(lines, solution, n, combination);
      KeySetSnoc(lines, line, LineKey);
      MoveKey(shown, remaining, solution.Keys, combination);
      lines := lines + [line];
      shown := shown + {combination};
      remaining := remaining - {combination};
    }
  }

  /** The table entry for a cell: its first candidate, or "-" when the cell is missing, nil or empty. */
  function First(cell: Option<seq<string>>): (r: string)
    ensures cell.Some? && |cell.value| > 0 ==> r == cell.value[0]
    ensures cell.None? || cell.value == [] ==> r == "-"
  {
    if cell.Some? && |cell.value| > 0 then cell.value[0] else "-"
  }

  /** The table entry shown for `key`: a missing key reads as nil. */
  function EntryFor(solution: Solution, key: string): (r: string)
    ensures key !in solution ==> r == "-"
    ensures key in solution ==> r == First(solution[key])
  {
    First(if key in solution then solution[key] else None)
  }

  /** A missing entry, a nil entry and an empty list are shown alike. */
  lemma AbsentNilEmptyAlike(solution: Solution, key: string)
    ensures EntryFor(solution - {key}, key) == "-"
    ensures EntryFor(solution[key := None], key) == "-"
    ensures EntryFor(solution[key := Some([])], key) == "-"
  {
  }

  /**
   * `t` is the table for `p`: the three row squares' texts as header, and one
   * body row per column square holding its text and, for each row square,
   * the entry of the cell (row square, column square).
   */
  ghost predicate TabulatesSolution(t: Table, solution: Solution, p: Puzzle)
  {
    && |t.header| == 3
    && (forall i | 0 <= i < 3 :: t.header[i] == SquareText(Row(p)[i]))
    && |t.body| == 3
    && (forall j | 0 <= j < 3 :: t.body[j].heading == SquareText(Column(p)[j]) && |t.body[j].cells| == 3)
    && (forall i, j | 0 <= i < 3 && 0 <= j < 3 ::
          t.body[j].cells[i] == EntryFor(solution, Key(Row(p)[i], Column(p)[j])))
  }

  /**
   * `printOneSolution`: the header lists the row squares, then each column
   * square opens a body row holding, per row square, the first candidate of
   * that cell or "-".
   */
  method OneSolution(solution: Solution, p: Puzzle) returns (t: Table)
    ensures TabulatesSolution(t, solution, p)
  {
    var row := Row(p);
    var column := Column(p);
    var header: seq<string> := [];
    for i := 0 to |row|
      invariant |header| == i
      invariant forall k | 0 <= k < i :: header[k] == SquareText(row[k])
    {
      header := header + [SquareText(row[i])];
    }
    var body: seq<BodyRow> := [];
    for j := 0 to |column|
      invariant |body| == j
      invariant forall l | 0 <= l < j :: body[l].heading == SquareText(column[l]) && |body[l].cells| == |row|
      invariant forall k, l | 0 <= k < |row| && 0 <= l < j ::
                  body[l].cells[k] == EntryFor(solution, Key(row[k], column[l]))
    {
      var ysquare := column[j];
      var cells: seq<string> := [];
      for i := 0 to |row|
        invariant |cells| == i
        invariant forall k | 0 <= k < i :: cells[k] == EntryFor(solution, Key(row[k], ysquare))
      {
        var combinationKey := Key(row[i], ysquare);
        var pokemons := if combinationKey in solution then solution[combinationKey] else None;
        var pokemon := "-";
        if pokemons.Some? && |pokemons.value| > 0 {
          pokemon := pokemons.value[0];
        }
        cells := cells + [pokemon];
      }
      body := body + [BodyRow(SquareText(ysquare), cells)];
    }
    t := Table(header, body);
  }

  /**
   * The table entry of a cell of a solved grid is the first candidate the
   * cell's own resolution returned, or "-", when no later cell reuses its key.
   */
  lemma TableShowsCell(p: Puzzle, solve: CellSolver, t: Table, i: nat, j: nat)
    requires i < 3 && j < 3
    requires forall n | 3 * i + j < n < |Cells(p)| :: CellKey(Cells(p)[n]) != Key(Row(p)[i], Column(p)[j])
    requires TabulatesSolution(t, Store(Cells(p), solve), p)
    ensures t.body[j].cells[i] == First(Stored(solve, (Row(p)[i], Column(p)[j])))
  {
    GridCell(p, solve, i, j);
  }

  /**
   * `Solve` once the puzzle is decoded: the grid is always solved first,
   * every cell resolved with the matcher (`visited`), and only then is the
   * display count checked: above one selects list mode, one selects table
   * mode, and anything else is an error with nothing shown.
   */
  method Solve(p: Puzzle, matcher: Matcher, numToDisplay: int)
    returns (out: Result<Display, SolveError>, ghost visited: seq<Cell>)
    ensures visited == Cells(p)
    ensures numToDisplay > 1 ==>
              out.Success? && out.value.ListView? &&
              ListsSolution(out.value.lines, Store(Cells(p), SolveWith(matcher)), numToDisplay)
    ensures numToDisplay == 1 ==>
              out.Success? && out.value.TableView? &&
              TabulatesSolution(out.value.table, Store(Cells(p), SolveWith(matcher)), p)
    ensures numToDisplay <= 0 ==> out == Failure(InvalidDisplayCount(numToDisplay))
  {
    var solution;
    solution, visited := SolveGrid(p, SolveWith(matcher));
    if numToDisplay > 1 {
      var lines := ManySolutions(solution, numToDisplay);
      out := Success(ListView(lines));
    } else if numToDisplay == 1 {
      var table := OneSolution(solution, p);
      out := Success(TableView(table));
    } else {
      out := Failure(InvalidDisplayCount(numToDisplay));
    }
  }
}
