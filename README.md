# Sudoku solver, modelled in Dafny

This project models the core of a small Sudoku web service. The service has two parts.

- The `SudokuSolver` class (`controllers/sudoku-solver.js`) has four jobs:
  - it checks that a puzzle string is 81 characters of `1-9` and `.`;
  - it answers whether a value can go in a cell given the rest of its row, its column and its 3x3 region;
  - it solves a puzzle by depth-first backtracking on a working copy of the string;
  - `solve` ties validation and the search together.
- The two route handlers (`routes/api.js`):
  - `POST /api/check` validates its three request fields in a fixed order, then reports which constraint kinds a placement violates.
  - `POST /api/solve` hands the puzzle to `solve`.

Files:

- `sudoku_solver.dfy` (module `SudokuSolver`):
  - A grid is the puzzle string, row-major: cell (row, col) sits at `row * 9 + col`, and `.` marks an empty cell.
  - The three placement checks are methods with the source's loops. Each is proved equal to a quantified predicate (`RowFree`, `ColFree`, `RegionFree`).
  - Together the three predicates are proved equivalent to a reference definition by cell index: no *peer* holds the value. A peer is another cell in the same row, column or region (`NoPeerHolds`).
  - The search is the recursive method `Backtrack` over an `array<char>`, with `FindEmpty` and `IsValidPlacement` beside it.
  - `Backtrack` is proved against the ghost function `Search`, which fixes the exact answer the depth-first search returns. On failure the array is proved unchanged.
  - `Search` is proved sound and complete: it succeeds iff the grid has a completion.
- `api.dfy` (module `Api`):
  - Request fields are `Option<string>`. A field is missing when it is absent or empty, as in the JavaScript test `!field`.
  - The JSON responses are datatypes.
- `samples.dfy` (module `Samples`): the inputs and expected answers of the repository's unit and functional tests, stated as lemmas.

## Model

| member | source | states |
|---|---|---|
| SudokuSolver.Validate | boilerplate-project-sudoku-solver-main/controllers/sudoku-solver.js:3-18 | Valid iff the string has 81 characters, each in `1-9` or `.`. An empty string gives "Required field missing". Any other length gives the length error. 81 characters with a bad one give "Invalid characters in puzzle". |
| SudokuSolver.AllCellChars | boilerplate-project-sudoku-solver-main/controllers/sudoku-solver.js:12-13 | The regex test `^[1-9.]+$` (on a non-empty string) holds iff every character is in the class. |
| SudokuSolver.CheckRowPlacement | boilerplate-project-sudoku-solver-main/controllers/sudoku-solver.js:20-35 | Returns true iff no cell of the row other than the target column holds the value. |
| SudokuSolver.CheckColPlacement | boilerplate-project-sudoku-solver-main/controllers/sudoku-solver.js:37-49 | Returns true iff no cell of the column other than the target row holds the value. |
| SudokuSolver.CheckRegionPlacement | boilerplate-project-sudoku-solver-main/controllers/sudoku-solver.js:51-73 | Returns true iff no cell of the 3x3 block with origin (row/3*3, col/3*3), other than the target, holds the value. |
| SudokuSolver.TargetIrrelevant | boilerplate-project-sudoku-solver-main/controllers/sudoku-solver.js:20-73 | Overwriting the target cell changes none of the three checks, because each scan skips the target. |
| SudokuSolver.ChecksAgreeWithPeers | boilerplate-project-sudoku-solver-main/controllers/sudoku-solver.js:110-112 | All three checks pass iff no peer of the cell (same row, column or region, other than the cell itself) holds the value. |
| SudokuSolver.RowIndex | boilerplate-project-sudoku-solver-main/controllers/sudoku-solver.js:21 | `row.charCodeAt(0) - 'A'.charCodeAt(0)`: the index is in 0..8 iff the letter is in A-I. The same conversion is at sudoku-solver.js:38 and :52 and at api.js:34. |
| SudokuSolver.ColumnIndex | boilerplate-project-sudoku-solver-main/controllers/sudoku-solver.js:22 | `parseInt(column) - 1` on one character: the index is in 0..8 iff the character is a digit 1-9. The same conversion is at sudoku-solver.js:39 and :53 and at api.js:35. |
| SudokuSolver.RowLetter | boilerplate-project-sudoku-solver-main/controllers/sudoku-solver.js:105 | The letter for row r is in A-I, and converting it back (`charCodeAt(0) - 'A'`) gives r again. |
| SudokuSolver.ColumnDigit | boilerplate-project-sudoku-solver-main/controllers/sudoku-solver.js:106 | The digit for column c is in 1-9, and `parseInt(...) - 1` gives c again. |
| SudokuSolver.DigitChar | boilerplate-project-sudoku-solver-main/controllers/sudoku-solver.js:123 | `num.toString()` for 1..9 is the single digit whose value is num. |
| SudokuSolver.FirstEmpty | boilerplate-project-sudoku-solver-main/controllers/sudoku-solver.js:93-100 | Returns the lowest index holding `.`, or -1 exactly when no cell is empty. |
| SudokuSolver.FindEmpty | boilerplate-project-sudoku-solver-main/controllers/sudoku-solver.js:93-100 | The scan over the working array returns FirstEmpty of its contents. |
| SudokuSolver.IsValidPlacement | boilerplate-project-sudoku-solver-main/controllers/sudoku-solver.js:102-113 | Goes through the letter/digit coordinate, then the three checks on the joined grid. The result is true iff no peer of the index holds the value. |
| SudokuSolver.DotsFill | boilerplate-project-sudoku-solver-main/controllers/sudoku-solver.js:126 | Filling an empty cell with a digit removes exactly one empty cell, so the recursion terminates. |
| SudokuSolver.Backtrack | boilerplate-project-sudoku-solver-main/controllers/sudoku-solver.js:115-137 | Succeeds iff Search of the entry grid succeeds. On success the array holds Search's grid. On failure the array is exactly as on entry, because every tentative write is undone. |
| SudokuSolver.SolvePuzzle | boilerplate-project-sudoku-solver-main/controllers/sudoku-solver.js:90-144 | Returns the grid Search finds (digits tried in ascending order at the first empty cell), or None (`null`) when there is none. |
| SudokuSolver.SearchSound | boilerplate-project-sudoku-solver-main/controllers/sudoku-solver.js:115-137 | The grid the search returns keeps every given. Every originally empty cell holds a digit that no peer holds. |
| SudokuSolver.SearchComplete | boilerplate-project-sudoku-solver-main/controllers/sudoku-solver.js:115-137 | If any completion of the grid exists, the search does not fail. |
| SudokuSolver.SearchSucceedsIffCompletable | boilerplate-project-sudoku-solver-main/controllers/sudoku-solver.js:90-144 | The search succeeds iff the grid has a completion. |
| SudokuSolver.Solve | boilerplate-project-sudoku-solver-main/controllers/sudoku-solver.js:75-88 | The result is validate's error, or "Puzzle cannot be solved", or the search's grid, as Outcome defines them. |
| SudokuSolver.SolveErrors | boilerplate-project-sudoku-solver-main/controllers/sudoku-solver.js:75-88 | Invalid input yields validate's own error, never the unsolvable one. A valid grid yields an error iff it has no completion, and that error is "Puzzle cannot be solved". |
| SudokuSolver.SolutionSound | boilerplate-project-sudoku-solver-main/controllers/sudoku-solver.js:81-87 | A solution has 81 characters and no `.`, and it keeps every given. Each filled cell passes the row, column and region checks. The solution itself passes validate. |
| SudokuSolver.NineDistinctDigits | boilerplate-project-sudoku-solver-main/controllers/sudoku-solver.js:122-134 | Pigeonhole: nine pairwise different digits contain each of 1..9. |
| SudokuSolver.RowIsPermutation | boilerplate-project-sudoku-solver-main/controllers/sudoku-solver.js:20-35 | In a conflict-free grid every row is a permutation of 1..9. |
| SudokuSolver.ColumnIsPermutation | boilerplate-project-sudoku-solver-main/controllers/sudoku-solver.js:37-49 | In a conflict-free grid every column is a permutation of 1..9. |
| SudokuSolver.RegionCellsDistinct | boilerplate-project-sudoku-solver-main/controllers/sudoku-solver.js:51-73 | The nine cells of a region of a conflict-free grid are pairwise different digits. |
| SudokuSolver.RegionIsPermutation | boilerplate-project-sudoku-solver-main/controllers/sudoku-solver.js:51-73 | In a conflict-free grid every 3x3 region is a permutation of 1..9. |
| SudokuSolver.ConflictFreeGridIsSolved | boilerplate-project-sudoku-solver-main/controllers/sudoku-solver.js:110-112 | A grid where no cell's digit is held by a peer is a solved Sudoku. |
| SudokuSolver.SolutionIsSolvedGrid | boilerplate-project-sudoku-solver-main/controllers/sudoku-solver.js:75-88 | When the givens do not conflict with each other, a solution of `solve` is a solved Sudoku. |
| SudokuSolver.GivensAreNotChecked | boilerplate-project-sudoku-solver-main/controllers/sudoku-solver.js:115-120 | A full grid of ones passes validation and is returned unchanged as its own solution, though it is not a solved Sudoku. |
| Api.Conflicts | boilerplate-project-sudoku-solver-main/routes/api.js:46-58 | The conflict list holds "row" iff the row check fails, and likewise for column and region. Kinds appear in the order row, column, region, with no repeats. |
| Api.ConflictsEmptyIffLegal | boilerplate-project-sudoku-solver-main/routes/api.js:46-64 | There are no conflicts iff no peer of the cell holds the value. |
| Api.ConflictsIgnoreTarget | boilerplate-project-sudoku-solver-main/routes/api.js:42-44 | Writing the value into the target cell before checking does not change the conflict list. |
| Api.PlacementResponse | boilerplate-project-sudoku-solver-main/routes/api.js:34-64 | The answer is never an error. It is valid iff the cell already holds the value or no peer holds it. When invalid, the list is non-empty, names exactly the failing checks, and is in order row, column, region. |
| Api.Place | boilerplate-project-sudoku-solver-main/routes/api.js:34-64 | The shortcut, the copy with the value written in, and the three checks pushing their names together produce PlacementResponse. |
| Api.CoordinatesAreCells | boilerplate-project-sudoku-solver-main/routes/api.js:22-25 | The coordinate pattern `/^[A-I][1-9]$/` (`IsCoordinate`) accepts exactly the strings made of the row letter and the column digit of one of the 81 cells. |
| Api.ValuesAreDigits | boilerplate-project-sudoku-solver-main/routes/api.js:27-29 | The value pattern `/^[1-9]$/` (`IsValue`) accepts exactly the one-character strings `num.toString()` gives for 1..9. |
| Api.Check | boilerplate-project-sudoku-solver-main/routes/api.js:11-64 | The checks run in this order, each answering before any later one: (1) a field that is absent or empty (`!field`, modelled by `Present`) gives "Required field(s) missing"; (2) an invalid puzzle passes validate's error through; (3) a coordinate that fails `IsCoordinate` gives "Invalid coordinate"; (4) a value that fails `IsValue` gives "Invalid value". A well-formed request gets PlacementResponse at the coordinate's cell. |
| Api.SolveRoute | boilerplate-project-sudoku-solver-main/routes/api.js:69-77 | A puzzle that is absent or empty (`!puzzle`, modelled by `Present`) gives "Required field missing". Anything else gets exactly what `solve` returns. |
| Samples.ValidateSamples | boilerplate-project-sudoku-solver-main/tests/1_unit-tests.js:15-35 | The sample puzzle is valid. The sample with an X gives the character error. The short sample gives the length error. The empty string gives the missing-field error. |
| Samples.RowSamples | boilerplate-project-sudoku-solver-main/tests/1_unit-tests.js:41-53 | A2 accepts 3 and rejects 1 by the row check. |
| Samples.ColumnSamples | boilerplate-project-sudoku-solver-main/tests/1_unit-tests.js:55-67 | A2 accepts 3 and rejects 9 by the column check. |
| Samples.RegionSamples | boilerplate-project-sudoku-solver-main/tests/1_unit-tests.js:69-81 | A2 accepts 3 and rejects 5 by the region check. |
| Samples.CheckSampleValid | boilerplate-project-sudoku-solver-main/tests/2_functional-tests.js:85-100 | Checking A2 with 3 answers valid. |
| Samples.CheckSampleSingleConflict | boilerplate-project-sudoku-solver-main/tests/2_functional-tests.js:102-120 | Checking A2 with 9 answers invalid with the single conflict `Column`, whose name in the response (`Names`) is "column". |
| Samples.CheckSampleMultipleConflicts | boilerplate-project-sudoku-solver-main/tests/2_functional-tests.js:122-140 | Checking C6 with 1 answers invalid with `Column` and `Region`, named "column" and "region" in the response. |
| Samples.CheckSampleAllConflicts | boilerplate-project-sudoku-solver-main/tests/2_functional-tests.js:142-163 | Checking A2 with 2 answers invalid with `Row`, `Column` and `Region`, named "row", "column" and "region" in the response, in that order. |
| Samples.CheckErrorSamples | boilerplate-project-sudoku-solver-main/tests/2_functional-tests.js:165-246 | The check route answers a request without a value with "Required field(s) missing". The sample with an X gets "Invalid characters in puzzle" and the short sample the length error. Coordinate "Z1" gets "Invalid coordinate" and value "0" gets "Invalid value". |
| Samples.ExpectedConflictFree | boilerplate-project-sudoku-solver-main/tests/1_unit-tests.js:9 | The solution string the tests expect is a solved Sudoku: every cell holds a digit that none of its peers holds. |
| Samples.ExpectedCompletesPuzzle | boilerplate-project-sudoku-solver-main/tests/1_unit-tests.js:8-9 | The expected solution keeps every given of the sample puzzle and fills every empty cell legally. |
| Samples.SolveSamples | boilerplate-project-sudoku-solver-main/tests/1_unit-tests.js:85-102 | `solve` on the sample returns a solution of 81 characters, and that solution is a solved Sudoku. `solve` on the sample with an X returns the character error. |
| Samples.SolveRouteSamples | boilerplate-project-sudoku-solver-main/tests/2_functional-tests.js:14-66 | The solve route gives the sample an 81-character solved grid. A request without a puzzle gets "Required field missing", the sample with an X the character error, and the short sample the length error. |

## Where the code and its description differ

The service's description says a puzzle with no solution is reported as "Puzzle cannot be solved". The code never checks the givens against each other:

- `backtrack` only tests the digits it writes into empty cells.
- A grid with no empty cell is returned at once.

So a structurally valid grid whose givens already clash is either returned as a "solution", or reported unsolvable only when the clash blocks the filling of some empty cell. The model follows the code:

- `Search` and `Solve` do what the code does.
- `GivensAreNotChecked` shows a full grid of ones returned as its own solution.
- `SolutionIsSolvedGrid` states the guarantee that does hold: when no given is held by one of its peers, the solution is a solved Sudoku.

## Left out

- The Express application, HTTP status codes, JSON serialisation, body parsing, CORS, the static pages and the test runner are not part of this model. Request fields are given as `Option<string>` and responses as datatypes.
- JavaScript coercion of non-string request fields (numbers, arrays, objects) is not modelled. A field is either absent or a string, and `!field` is "absent or empty".
- The regexes are replaced by the equivalent character predicates (`IsCellChar`, `IsCoordinate`, `IsValue`).
- The cost of the search is not modelled: no bound on its exponential running time, and no model of the `join` of the whole grid for every candidate.
- SolveSamples, SolveRouteSamples: the model proves that the sample is solved, and that the expected string is a solved Sudoku completing it. It does not prove that `solve` returns exactly that string. That needs either a proof that the completion is unique or an evaluation of the whole search on that grid; neither is part of this model.
- Samples: the functional test whose puzzle starts `115` expects "Puzzle cannot be solved". This is not proved. Its givens clash (two 1s in row A), but the search still fills empty cells, so showing it fails means exhausting the search on that grid.
- Validate: JavaScript's `length` and the regex count UTF-16 code units, while a Dafny `string` is a sequence of Unicode scalar values. For input with characters outside the Basic Multilingual Plane the model can give the length error where the source gives the character error, or the reverse (for example one emoji followed by 79 dots: 81 code units but 80 characters). Such input is invalid either way; only the message differs.
- CheckRowPlacement, CheckColPlacement, CheckRegionPlacement: these require an 81-character grid and coordinates in 0..8. Both callers in the service guarantee this, by validating first or by deriving the coordinates from an index below 81. Out-of-range reads of `undefined` are not modelled.
- SolvePuzzle: requires an 81-character string, which `solve` guarantees by validating first.
