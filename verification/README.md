# dailydoku solver, modelled in Dafny

The dailydoku solver fetches the day's PokeDoku puzzle. The puzzle is a 3×3 grid: three row squares X1..X3 and three column squares Y1..Y3, each a category such as `POKEMON_TYPE(fire)`. The solver works in three steps:

- It resolves each of the nine cells with an external matcher. The matcher is asked for the Pokémon that satisfy both the cell's row square and its column square.
- It stores each result in a map under the key `Type(Obj),Type(Obj)`.
- It shows the map in one of two ways. With a display count above one it prints one line per entry of the map, which has fewer than nine entries when keys collide. With a count of one it prints a table.

The model covers `solver/solve.go`, in six modules:

- **Base**: `Option` and `Result`, plus `Min`.
  - It also holds the key set of a sequence, `KeySet`, and `DistinctKeys`. Aggregate and Present both use them.
  - Proved about them: appending an element adds its key (`KeySetSnoc`), membership (`KeySetMembers`), and size at most the length, with equality exactly when the keys are distinct (`KeySetSize`).
- **Grid**: the puzzle's squares, `getRow`/`getColumn` and the kind-name translation table.
  - It also holds the cell key (`String` and `formatCharacteristicSquares`).
  - Proved: the table is one-to-one.
  - Proved: the key can be parsed back into its parts when kinds hold no `(` and values no `)`.
  - Shown by example: when a kind holds `(` or a value holds `)`, two different pairs of squares can share a key (`Grid.KeyCollidesOnText`, `Grid.KeyCollidesOnValue`).
- **Merge**: `formatCharacteristicsToValues`, the query built from a cell's two squares.
- **Matching**: the matcher's error chain, `formatMatchError` and `solveForTwo`.
  - The matcher is a function parameter `Query -> MatchReturn`. Its answer is what the model knows of it.
- **Aggregate**: `solveGrid`.
  - It is an imperative method with the source's nested loops.
  - It is proved equal to a left fold (`Store`) over the nine cells in visiting order (rows outer, columns inner).
  - Lemmas about that fold cover its key set, its size (nine exactly when the nine keys differ), last-write-wins, and per-cell isolation.
- **Present**: the mode dispatch of `Solve`, `printManySolutions` and `printOneSolution`.
  - Both printers are methods that return the data they would print.
  - For list mode that is one line per map entry, in an unspecified order.
  - For table mode it is a header, then a body row per column square.

Go's nil slice is `None`. A non-nil list, empty or not, is `Some(list)`.

Some of the code's behaviour is easy to miss. The model follows the code in each case:

- The kind `LEGENDARY_TRIO` translates to `legendary_trio`, with an underscore. Every other multi-word name uses a hyphen.
- The map has nine entries only when the nine keys differ (`Aggregate.GridSize`). Two row squares, or two column squares, that print alike make keys collide (`Aggregate.DuplicateSquaresCollide`); a row square and a column square that print alike do not. A kind holding `(` or a value holding `)` can also make two different cells share a key (examples: `Grid.KeyCollidesOnText`, `Grid.KeyCollidesOnValue`). A later cell then overwrites an earlier one.
- Two kinds missing from the table both translate to `""`. The merged query's map literal then has two equal keys. The Go language specification (Composite literals, Order of evaluation) leaves open which entry wins. The gc compiler stores the entries in source order, so the second square's value wins, and the model follows gc (`Merge.UnknownKindsCollide`).
- An invalid-characteristic error is named only when it sits below the outermost error. `formatMatchError` unwraps once before searching, so a bare invalid-characteristic error gets the generic message (`Matching.ClassifiesByChain`).
- A cell whose match failed is not dropped. It stays in the map with a nil list. List mode then shows the no-match line and table mode shows `-`.

## Model

| member | source | states |
|---|---|---|
| Grid.Row | solver/solve.go:62-64 | the row squares X1, X2, X3 in that order; the order in which cells are visited is stated by `Aggregate.CellsInOrder` |
| Grid.Column | solver/solve.go:66-68 | the column squares Y1, Y2, Y3 in that order; the order in which cells are visited is stated by `Aggregate.CellsInOrder` |
| Grid.KindName | solver/solve.go:19-40 | the twenty entries of the table, every one a non-empty name |
| Grid.Translate | solver/solve.go:19-40 | the lookup of a kind in the table: the listed name for a listed kind, and the map's zero value "" exactly for the kinds the table does not list |
| Grid.TranslateRoundTrip | solver/solve.go:19-40 | every listed kind is recovered from its matcher name by the table read backwards |
| Grid.TranslateInjective | solver/solve.go:19-40 | two different listed kinds never share a matcher name |
| Grid.SquareText | solver/solve.go:48-50 | how a square prints; its layout is stated by `Grid.SquareTextShape` |
| Grid.SquareTextShape | solver/solve.go:48-50 | a square prints as its kind, `(`, its value and `)`, two characters longer than kind and value together |
| Grid.Key | solver/solve.go:70-72 | a cell key is as long as the two squares' texts plus one, with the comma right after the row square's text |
| Grid.KeyShape | solver/solve.go:70-72 | a cell key begins with the row square's `Type(Obj)` text and ends with the column square's text |
| Grid.KeyInjective | solver/solve.go:70-72 | when no kind holds `(` and no value holds `)`, equal keys have equal row kinds, row values, column kinds and column values |
| Grid.KeyNotCommutative | solver/solve.go:70-72 | under the same condition, swapping two squares that differ in kind or value changes the key |
| Grid.KeyCollidesOnText | solver/solve.go:48-50 | without that condition, two different pairs of squares can print the same key: an example where a kind holds `(` |
| Grid.KeyCollidesOnValue | solver/solve.go:48-50 | the same, by an example where a value holds `),` |
| Merge.CharacteristicsToValues | solver/solve.go:93-103 | the query's keys are the two translated kind names; each entry holds one or two values, each the value of one of the squares |
| Merge.SameKind | solver/solve.go:94-98 | equal raw kinds give one entry holding both values in order, duplicates kept |
| Merge.DifferentKinds | solver/solve.go:99-102 | different raw kinds put the second square's value alone under its name; the first's survives alone exactly when the names differ, and is otherwise overwritten |
| Merge.EntryCount | solver/solve.go:93-103 | the query has two entries exactly when the two kinds translate to different names, otherwise one |
| Merge.KnownDifferentKinds | solver/solve.go:99-102 | two different listed kinds give two entries holding one value each |
| Merge.UnknownKindsCollide | solver/solve.go:99-102 | two different unlisted kinds give the single entry "" holding the second square's value only |
| Matching.Unwrap | solver/solve.go:115 | `errors.Unwrap` gives a cause exactly when the error wraps one, and the cause's chain is the error's chain without its outermost error |
| Matching.FindInvalid | solver/solve.go:115 | the name found is always that of an invalid-characteristic error on the chain |
| Matching.AsInvalid | solver/solve.go:115 | a nil error matches nothing, and a name found is that of an invalid-characteristic error on the chain; `Matching.AsInvalidFindsChain` states the converse |
| Matching.AsInvalidFindsChain | solver/solve.go:113-115 | the search for an invalid-characteristic error finds a name exactly when an error with that name is on the chain |
| Matching.MessagesDistinguish | solver/solve.go:116-118 | the not-implemented message never equals the generic one and determines the kind it names |
| Matching.FormatMatchError | solver/solve.go:112-121 | the result is nil exactly when the error is nil; an error that wraps nothing always gets the generic message |
| Matching.ClassifiesByChain | solver/solve.go:112-121 | the message names a kind exactly when an invalid-characteristic error with that name lies below the outermost error, and is the generic one exactly when none does |
| Matching.SolveForTwo | solver/solve.go:105-110 | the list is the matcher's own answer for the merged query, passed on unchanged; the error is the matcher's error as `formatMatchError` classifies it, so one is reported exactly when the matcher reported one |
| Aggregate.CellsInOrder | solver/solve.go:74-80 | the grid has nine cells; cell 3i+j pairs row square i with column square j, so rows are outer and columns inner |
| Aggregate.Stored | solver/solve.go:81-85 | a cell whose resolution reported an error stores nil; any other cell stores its list unchanged |
| Aggregate.StoredThroughMatcher | solver/solve.go:81-85 | a cell holds nil exactly when the matcher failed or answered nil, and holds the matcher's list unchanged when it did not fail |
| Aggregate.Store | solver/solve.go:79-89 | the map after storing the cells one after the other; its properties are stated by `Aggregate.StoreDomain`, `Aggregate.StoreLastWins` and `Aggregate.StoreSize` |
| Aggregate.StoreDomain | solver/solve.go:86-87 | the map's keys are exactly the keys of the cells stored |
| Aggregate.StoreKeys | solver/solve.go:79-89 | every visited cell's key is in the map, and every key of the map is some visited cell's key |
| Aggregate.StoreLastWins | solver/solve.go:86-87 | when no later cell shares its key, a cell's entry is that cell's own outcome |
| Aggregate.StoreSize | solver/solve.go:77-89 | the map never has more entries than cells visited, and has as many exactly when no two cells share a key |
| Aggregate.SolveGrid | solver/solve.go:74-91 | the loops visit exactly the nine cells, rows outer and columns inner, and the map built equals storing each cell's outcome under its key in that order |
| Aggregate.GridKeys | solver/solve.go:74-91 | each of the nine cells' keys is in the solved map, and the map holds no other key |
| Aggregate.GridSize | solver/solve.go:74-91 | the solved map has at most nine entries, and exactly nine when the nine keys differ |
| Aggregate.GridCell | solver/solve.go:79-88 | a cell whose key no later cell reuses holds its own outcome, whatever the other cells' matches returned |
| Aggregate.CellAt | solver/solve.go:79-80 | of the nine cells, cell n pairs row square n / 3 with column square n % 3 |
| Aggregate.PositionsKeysDiffer | solver/solve.go:70-80 | when the squares are delimited and print differently among the rows and among the columns, two different positions of the grid have different keys |
| Aggregate.GridNineEntries | solver/solve.go:74-91 | squares free of `(` in kinds and `)` in values, pairwise different in print among the rows and among the columns, give nine entries |
| Aggregate.DuplicateSquaresCollide | solver/solve.go:74-91 | any two row squares, or any two column squares, that print alike leave fewer than nine entries |
| Aggregate.UniformPuzzleCollapses | solver/solve.go:136-139 | a puzzle of six equal squares stores the single key `Key(sq, sq)`; the zero puzzle, left when the response is not valid JSON, is one such |
| Present.Take | solver/solve.go:158-159 | the candidates shown are a prefix of the list, as long as the list or as the display count, whichever is shorter |
| Present.LineFor | solver/solve.go:154-160 | a line carries its entry's key; it is the no-match line exactly when the entry is nil, and otherwise shows `Present.Take` of the list |
| Present.ListedOnce | solver/solve.go:152-161 | in list mode every map entry is on some line and no entry is on two lines |
| Present.ManySolutions | solver/solve.go:152-161 | one line per map entry, in any order: nil shows the no-match line, any other list its first min(length, count) names |
| Present.First | solver/solve.go:188-191 | the first name of a non-empty list, and "-" for nil or an empty list |
| Present.EntryFor | solver/solve.go:185-191 | a key missing from the map reads as nil and shows "-"; a present key shows the first name of its entry, or "-" |
| Present.AbsentNilEmptyAlike | solver/solve.go:186-191 | in table mode a missing key, a nil list and an empty list all show "-" |
| Present.OneSolution | solver/solve.go:167-197 | the header holds the row squares' texts; body row j holds column square j's text, and then for each row square i the first name stored under key (row i, column j), or "-" |
| Present.TableShowsCell | solver/solve.go:182-195 | after solving, a table entry is the first name of the cell's own match, or "-", when no later cell reuses its key |
| Present.Solve | solver/solve.go:139-147 | the grid is always solved first; a count above one shows the list of the solved map, a count of one its table, and any other count is an error carrying the count and shows nothing |

## Left out

- Fetching the puzzle over HTTP and reading the response body (solver/solve.go:124-134). These are network I/O; the model starts from the decoded puzzle.
- JSON decoding (solver/solve.go:136-137). Its error is ignored in the source. A response that is not valid JSON leaves the zero puzzle. A field of the wrong type is reported as an error that is ignored, but the other fields are still decoded. A field that is absent leaves that square empty, without any error. The model takes whatever puzzle results. `Aggregate.UniformPuzzleCollapses` covers the zero puzzle.
- The external matcher's internals. Its rules, its use of sets and the order of the names it returns are not part of this model. It is a fixed function parameter, so one query always gets one answer.
- `errors.As` and `errors.Unwrap` are modelled for single-cause wrapping only. Errors that join several causes, and types with their own `As` method, are not modelled.
- Logging (`slog`). It has no effect on the results.
- Text formatting: `fmt`'s `%v` rendering of lists, the tabwriter's column padding, the leading space of the table header, and the newlines. The model returns the data printed, not the characters.
- The wording of the invalid-count error (solver/solve.go:146). The error carries the count instead of the formatted text.
- `ExcludedForms` is carried in each square but used nowhere in the solver, as in the source.
- main.go, the command-line entry point, is not part of this model.
- Go strings are byte strings; the model's strings are sequences of characters. Key equality and every property above agree for valid UTF-8, which is what decoded JSON holds. The lengths in `Grid.SquareTextShape` and `Grid.Key` count characters where Go's `len` would count bytes.
- Present.ManySolutions: does not fix the order of the lines. Go's map iteration order is unspecified, so the method takes the keys in an arbitrary order and its contract holds for every order.
