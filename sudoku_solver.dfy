/*
 * Model of the SudokuSolver class (controllers/sudoku-solver.js): structural
 * validation of an 81-character puzzle string, the three placement checks
 * (row, column, 3x3 region) and the backtracking search.
 *
 * A grid is the puzzle string itself, row-major: cell (row, col) is at index
 * row * 9 + col, '.' marks an empty cell. Coordinates are integers 0..8; the
 * letter/digit form the HTTP layer uses is mapped by RowIndex/ColumnIndex and
 * back by RowLetter/ColumnDigit.
 */
module SudokuSolver {

  datatype Option<T> = None | Some(value: T)

  type Grid = seq<char>

  const Empty: char := '.'

  // The error strings are part of the observable behaviour and kept verbatim.
  const RequiredFieldMissing: string := "Required field missing"
  const WrongLength: string := "Expected puzzle to be 81 characters long"
  const InvalidCharacters: string := "Invalid characters in puzzle"
  const CannotBeSolved: string := "Puzzle cannot be solved"

  /** The object `validate` returns: `{valid: true}` or `{valid: false, error}`. */
  datatype Validation = Valid | Invalid(error: string)

  /** The object `solve` returns: `{solution}` or `{error}`. */
  datatype SolveResult = Solution(solution: string) | Error(error: string)

  predicate IsDigit(c: char) { '1' <= c <= '9' }

  /** The character class `[1-9.]` of the validation regex. */
  predicate IsCellChar(c: char) { IsDigit(c) || c == Empty }

  /* ---------------------------------------------------------------------
   * Grid geometry
   * --------------------------------------------------------------------- */

  /** Index of cell (row, col) in the row-major string. */
  function Index(row: int, col: int): (i: int)
    requires 0 <= row < 9 && 0 <= col < 9
    ensures 0 <= i < 81
    ensures i / 9 == row && i % 9 == col
  {
    row * 9 + col
  }

  function Cell(g: Grid, row: int, col: int): (c: char)
    requires |g| == 81 && 0 <= row < 9 && 0 <= col < 9
  {
    g[Index(row, col)]
  }

  /** Two cells lie in the same 3x3 block: block origin (row/3*3, col/3*3). */
  predicate SameRegion(i: int, j: int)
  {
    (i / 9) / 3 == (j / 9) / 3 && (i % 9) / 3 == (j % 9) / 3
  }

  /** j is another cell sharing a row, a column or a region with cell i. */
  predicate Peer(i: int, j: int)
  {
    i != j && (i / 9 == j / 9 || i % 9 == j % 9 || SameRegion(i, j))
  }

  /**
   * Reference definition of a legal placement, by cell index: no OTHER cell
   * in the same row, column or region holds v. The content of cell i itself
   * is never consulted.
   */
  predicate NoPeerHolds(g: Grid, i: int, v: char)
    requires |g| == 81
  {
    forall j :: 0 <= j < 81 && Peer(i, j) ==> g[j] != v
  }

  /* ---------------------------------------------------------------------
   * Coordinates: letter A-I for the row, digit 1-9 for the column
   * --------------------------------------------------------------------- */

  /** `row.charCodeAt(0) - 'A'.charCodeAt(0)` */
  function RowIndex(letter: char): (row: int)
    ensures 0 <= row < 9 <==> 'A' <= letter <= 'I'
  {
    letter as int - 'A' as int
  }

  /** `parseInt(column) - 1` for a one-digit column. */
  function ColumnIndex(digit: char): (col: int)
    ensures 0 <= col < 9 <==> IsDigit(digit)
  {
    digit as int - '1' as int
  }

  /** `String.fromCharCode('A'.charCodeAt(0) + row)` */
  function RowLetter(row: int): (letter: char)
    requires 0 <= row < 9
    ensures 'A' <= letter <= 'I' && RowIndex(letter) == row
  {
    ('A' as int + row) as char
  }

  /** `(col + 1).toString()` */
  function ColumnDigit(col: int): (digit: char)
    requires 0 <= col < 9
    ensures IsDigit(digit) && ColumnIndex(digit) == col
  {
    ('1' as int + col) as char
  }

  /** `num.toString()` for the candidates 1..9 of the search. */
  function DigitChar(n: int): (c: char)
    requires 1 <= n <= 9
    ensures IsDigit(c) && c as int - '0' as int == n
  {
    ('0' as int + n) as char
  }

  /* ---------------------------------------------------------------------
   * validate
   * --------------------------------------------------------------------- */

  /** The test `/^[1-9.]+$/` on a non-empty string: every character is in the class. */
  function AllCellChars(s: string): (b: bool)
    ensures b <==> forall i :: 0 <= i < |s| ==> IsCellChar(s[i])
  {
    if s == [] then true else IsCellChar(s[0]) && AllCellChars(s[1..])
  }

  /**
   * Structural validation, checked in the order missing, length, characters:
   * the first failing check alone decides the error.
   */
  function Validate(s: string): (r: Validation)
    ensures r.Valid? <==> |s| == 81 && forall i :: 0 <= i < |s| ==> IsCellChar(s[i])
    ensures |s| == 0 ==> r == Invalid(RequiredFieldMissing)
    ensures |s| != 0 && |s| != 81 ==> r == Invalid(WrongLength)
    ensures |s| == 81 ==> r == Valid || r == Invalid(InvalidCharacters)
  {
    if |s| == 0 then Invalid(RequiredFieldMissing)
    else if |s| != 81 then Invalid(WrongLength)
    else if !AllCellChars(s) then Invalid(InvalidCharacters)
    else Valid
  }

  /* ---------------------------------------------------------------------
   * The three placement checks
   * --------------------------------------------------------------------- */

  /** No other cell of the row holds v. */
  predicate RowFree(g: Grid, row: int, col: int, v: char)
    requires |g| == 81 && 0 <= row < 9 && 0 <= col < 9
  {
    forall c :: 0 <= c < 9 && c != col ==> Cell(g, row, c) != v
  }

  /** No other cell of the column holds v. */
  predicate ColFree(g: Grid, row: int, col: int, v: char)
    requires |g| == 81 && 0 <= row < 9 && 0 <= col < 9
  {
    forall r :: 0 <= r < 9 && r != row ==> Cell(g, r, col) != v
  }

  /** No other cell of the 3x3 block with origin (row/3*3, col/3*3) holds v. */
  predicate RegionFree(g: Grid, row: int, col: int, v: char)
    requires |g| == 81 && 0 <= row < 9 && 0 <= col < 9
  {
    var r0, c0 := row / 3 * 3, col / 3 * 3;
    forall r, c :: r0 <= r < r0 + 3 && c0 <= c < c0 + 3 && (r != row || c != col) ==> Cell(g, r, c) != v
  }

  method CheckRowPlacement(puzzle: Grid, row: int, col: int, value: char) returns (ok: bool)
    requires |puzzle| == 81 && 0 <= row < 9 && 0 <= col < 9
    ensures ok == RowFree(puzzle, row, col, value)
  {
    var startIndex := row * 9;
    var rowString := puzzle[startIndex .. startIndex + 9];
    for i := 0 to 9
      invariant forall c :: 0 <= c < i && c != col ==> Cell(puzzle, row, c) != value
    {
      if i != col && rowString[i] == value {
        assert Cell(puzzle, row, i) == value;
        return false;
      }
    }
    return true;
  }

  method CheckColPlacement(puzzle: Grid, row: int, col: int, value: char) returns (ok: bool)
    requires |puzzle| == 81 && 0 <= row < 9 && 0 <= col < 9
    ensures ok == ColFree(puzzle, row, col, value)
  {
    for i := 0 to 9
      invariant forall r :: 0 <= r < i && r != row ==> Cell(puzzle, r, col) != value
    {
      var index := i * 9 + col;
      if i != row && puzzle[index] == value {
        assert Cell(puzzle, i, col) == value;
        return false;
      }
    }
    return true;
  }

  method CheckRegionPlacement(puzzle: Grid, row: int, col: int, value: char) returns (ok: bool)
    requires |puzzle| == 81 && 0 <= row < 9 && 0 <= col < 9
    ensures ok == RegionFree(puzzle, row, col, value)
  {
    var regionRowStart := row / 3 * 3;
    var regionColStart := col / 3 * 3;
    for i := 0 to 3
      invariant forall r, c ::
                  (regionRowStart <= r < regionRowStart + i && regionColStart <= c < regionColStart + 3 && (r != row || c != col))
                  ==> Cell(puzzle, r, c) != value
    {
      for j := 0 to 3
        invariant forall r, c ::
                    (regionRowStart <= r < regionRowStart + i && regionColStart <= c < regionColStart + 3 && (r != row || c != col))
                    ==> Cell(puzzle, r, c) != value
        invariant forall r, c ::
                    (r == regionRowStart + i && regionColStart <= c < regionColStart + j && (r != row || c != col))
                    ==> Cell(puzzle, r, c) != value
      {
        var currentRow := regionRowStart + i;
        var currentCol := regionColStart + j;
        var index := currentRow * 9 + currentCol;
        if currentRow != row || currentCol != col {
          if puzzle[index] == value {
            assert Cell(puzzle, currentRow, currentCol) == value;
            return false;
          }
        }
      }
    }
    return true;
  }

  /**
   * Overwriting the target cell never changes any of the three checks: each
   * scan skips the target cell.
   */
  lemma TargetIrrelevant(g: Grid, row: int, col: int, v: char, x: char)
    requires |g| == 81 && 0 <= row < 9 && 0 <= col < 9
    ensures RowFree(g[Index(row, col) := x], row, col, v) == RowFree(g, row, col, v)
    ensures ColFree(g[Index(row, col) := x], row, col, v) == ColFree(g, row, col, v)
    ensures RegionFree(g[Index(row, col) := x], row, col, v) == RegionFree(g, row, col, v)
  {
    var h := g[Index(row, col) := x];
    forall r, c | 0 <= r < 9 && 0 <= c < 9 && (r != row || c != col)
      ensures Cell(h, r, c) == Cell(g, r, c)
    {
      assert Index(r, c) != Index(row, col);
    }
  }

  /**
   * The three scans together decide exactly the reference definition: the
   * placement passes all three iff no peer of the cell holds the value.
   */
  lemma ChecksAgreeWithPeers(g: Grid, row: int, col: int, v: char)
    requires |g| == 81 && 0 <= row < 9 && 0 <= col < 9
    ensures RowFree(g, row, col, v) && ColFree(g, row, col, v) && RegionFree(g, row, col, v)
            <==> NoPeerHolds(g, Index(row, col), v)
  {
    var i := Index(row, col);
    var r0, c0 := row / 3 * 3, col / 3 * 3;
    if RowFree(g, row, col, v) && ColFree(g, row, col, v) && RegionFree(g, row, col, v) {
      forall j | 0 <= j < 81 && Peer(i, j) ensures g[j] != v {
        var r, c := j / 9, j % 9;
        assert j == Index(r, c);
        assert g[j] == Cell(g, r, c);
        if r == row {
          assert c != col;
        } else if c == col {
        } else {
          assert r0 <= r < r0 + 3 && c0 <= c < c0 + 3;
        }
      }
    }
    if NoPeerHolds(g, i, v) {
      forall c | 0 <= c < 9 && c != col ensures Cell(g, row, c) != v {
        assert Peer(i, Index(row, c));
      }
      forall r | 0 <= r < 9 && r != row ensures Cell(g, r, col) != v {
        assert Peer(i, Index(r, col));
      }
      forall r, c | r0 <= r < r0 + 3 && c0 <= c < c0 + 3 && (r != row || c != col)
        ensures Cell(g, r, c) != v
      {
        assert Peer(i, Index(r, c));
      }
    }
  }

  /* ---------------------------------------------------------------------
   * The search, as a specification
   * --------------------------------------------------------------------- */

  /** Number of empty cells: the measure that makes the search terminate. */
  function Dots(g: seq<char>): (n: nat)
    ensures n <= |g|
  {
    if g == [] then 0 else (if g[0] == Empty then 1 else 0) + Dots(g[1..])
  }

  /** Filling one empty cell leaves exactly one empty cell fewer. */
  lemma {:induction false} DotsFill(g: seq<char>, e: int, c: char)
    requires 0 <= e < |g| && g[e] == Empty && c != Empty
    ensures Dots(g[e := c]) == Dots(g) - 1
  {
    if e == 0 {
      assert g[e := c][1..] == g[1..];
    } else {
      assert g[e := c][1..] == g[1..][e - 1 := c];
      DotsFill(g[1..], e - 1, c);
    }
  }

  /** Lowest index holding '.', or -1 when there is none. */
  function FirstEmpty(g: seq<char>): (i: int)
    ensures -1 <= i < |g|
    ensures i == -1 ==> forall j :: 0 <= j < |g| ==> g[j] != Empty
    ensures 0 <= i ==> g[i] == Empty && forall j :: 0 <= j < i ==> g[j] != Empty
  {
    if g == [] then -1
    else if g[0] == Empty then 0
    else
      var k := FirstEmpty(g[1..]);
      if k == -1 then -1 else k + 1
  }

  /**
   * The depth-first search: fill the first empty cell with the first digit
   * 1..9 (ascending) that no peer holds and for which the rest of the search
   * succeeds. Some(grid) is the completed grid the search finds first.
   */
  ghost function Search(g: Grid): Option<Grid>
    requires |g| == 81
    decreases Dots(g), 1
  {
    var e := FirstEmpty(g);
    if e == -1 then Some(g) else TryDigits(g, e, 1)
  }

  /** The candidates n, n+1, ..., 9 for the empty cell e, in that order. */
  ghost function TryDigits(g: Grid, e: int, n: int): Option<Grid>
    requires |g| == 81 && 0 <= e < 81 && g[e] == Empty && 1 <= n <= 10
    decreases Dots(g), 0, 10 - n
  {
    if n == 10 then None
    else
      var d := DigitChar(n);
      if NoPeerHolds(g, e, d) then
        DotsFill(g, e, d);
        var next := Search(g[e := d]);
        if next.Some? then next else TryDigits(g, e, n + 1)
      else TryDigits(g, e, n + 1)
  }

  /**
   * h completes g: same length, every given of g kept, and every cell that
   * was empty in g holds a digit that no peer holds in h.
   */
  ghost predicate IsCompletion(g: Grid, h: Grid)
    requires |g| == 81
  {
    |h| == 81 &&
    forall i :: 0 <= i < 81 ==>
      if g[i] == Empty then IsDigit(h[i]) && NoPeerHolds(h, i, h[i]) else h[i] == g[i]
  }

  /** Soundness: whatever the search returns completes its input. */
  lemma {:induction false} SearchSound(g: Grid)
    requires |g| == 81 && Search(g).Some?
    ensures IsCompletion(g, Search(g).value)
    decreases Dots(g), 1
  {
    var e := FirstEmpty(g);
    if e != -1 {
      TryDigitsSound(g, e, 1);
    }
  }

  lemma {:induction false} TryDigitsSound(g: Grid, e: int, n: int)
    requires |g| == 81 && 0 <= e < 81 && g[e] == Empty && 1 <= n <= 10
    requires TryDigits(g, e, n).Some?
    ensures IsCompletion(g, TryDigits(g, e, n).value)
    decreases Dots(g), 0, 10 - n
  {
    var d := DigitChar(n);
    var g' := g[e := d];
    DotsFill(g, e, d);
    if NoPeerHolds(g, e, d) && Search(g').Some? {
      SearchSound(g');
      var h := Search(g').value;
      assert TryDigits(g, e, n).value == h;
      forall j | 0 <= j < 81 && Peer(e, j) ensures h[j] != d {
        if g'[j] == Empty {
          assert Peer(j, e);
        }
      }
      forall i | 0 <= i < 81
        ensures if g[i] == Empty then IsDigit(h[i]) && NoPeerHolds(h, i, h[i]) else h[i] == g[i]
      {
        if i == e {
          assert h[e] == d;
        } else {
          assert g'[i] == g[i];
        }
      }
    } else {
      TryDigitsSound(g, e, n + 1);
    }
  }

  /** Completeness: if any completion exists, the search does not fail. */
  lemma {:induction false} SearchComplete(g: Grid, h: Grid)
    requires |g| == 81 && IsCompletion(g, h)
    ensures Search(g).Some?
    decreases Dots(g), 1
  {
    var e := FirstEmpty(g);
    if e != -1 {
      var m := h[e] as int - '0' as int;
      assert DigitChar(m) == h[e];
      TryDigitsComplete(g, e, 1, h, m);
    }
  }

  lemma {:induction false} TryDigitsComplete(g: Grid, e: int, n: int, h: Grid, m: int)
    requires |g| == 81 && 0 <= e < 81 && g[e] == Empty && IsCompletion(g, h)
    requires 1 <= n <= m <= 9 && DigitChar(m) == h[e]
    ensures TryDigits(g, e, n).Some?
    decreases Dots(g), 0, 10 - n
  {
    var d := DigitChar(n);
    var g' := g[e := d];
    DotsFill(g, e, d);
    if NoPeerHolds(g, e, d) && Search(g').Some? {
    } else if n == m {
      forall j | 0 <= j < 81 && Peer(e, j) ensures g[j] != d {
        if g[j] != Empty {
          assert h[j] == g[j];
        }
      }
      forall i | 0 <= i < 81
        ensures if g'[i] == Empty then IsDigit(h[i]) && NoPeerHolds(h, i, h[i]) else h[i] == g'[i]
      {
        if i != e {
          assert g'[i] == g[i];
        }
      }
      SearchComplete(g', h);
    } else {
      TryDigitsComplete(g, e, n + 1, h, m);
    }
  }

  /** The search succeeds iff the grid has a completion. */
  lemma SearchSucceedsIffCompletable(g: Grid)
    requires |g| == 81
    ensures Search(g).Some? <==> exists h :: IsCompletion(g, h)
  {
    if Search(g).Some? {
      SearchSound(g);
    }
    if exists h :: IsCompletion(g, h) {
      var h :| IsCompletion(g, h);
      SearchComplete(g, h);
    }
  }

  /* ---------------------------------------------------------------------
   * solvePuzzle: findEmpty, isValidPlacement and backtrack over an array
   * --------------------------------------------------------------------- */

  method FindEmpty(puzzle: array<char>) returns (i: int)
    requires puzzle.Length == 81
    ensures i == FirstEmpty(puzzle[..])
  {
    for k := 0 to 81
      invariant forall j :: 0 <= j < k ==> puzzle[j] != Empty
    {
      if puzzle[k] == Empty {
        ghost var f := FirstEmpty(puzzle[..]);
        assert puzzle[..][k] == Empty;
        assert f != -1 && !(f < k) && !(k < f);
        return k;
      }
    }
    return -1;
  }

  /**
   * The row, column and region checks on the current grid, reached through
   * the letter/digit form of the cell's coordinate.
   */
  method IsValidPlacement(puzzle: array<char>, index: int, value: char) returns (ok: bool)
    requires puzzle.Length == 81 && 0 <= index < 81
    ensures ok == NoPeerHolds(puzzle[..], index, value)
  {
    var row := index / 9;
    var col := index % 9;
    var rowLetter := RowLetter(row);
    var colNumber := ColumnDigit(col);
    var currentPuzzle := puzzle[..];
    ChecksAgreeWithPeers(currentPuzzle, row, col, value);
    ok := CheckRowPlacement(currentPuzzle, RowIndex(rowLetter), ColumnIndex(colNumber), value);
    if ok {
      ok := CheckColPlacement(currentPuzzle, RowIndex(rowLetter), ColumnIndex(colNumber), value);
    }
    if ok {
      ok := CheckRegionPlacement(currentPuzzle, RowIndex(rowLetter), ColumnIndex(colNumber), value);
    }
  }

  /**
   * One level of the search on the shared working array. On success the
   * array holds what Search finds; on failure it is exactly as on entry,
   * because every tentative write is undone.
   */
  method Backtrack(puzzle: array<char>) returns (ok: bool)
    requires puzzle.Length == 81
    modifies puzzle
    ensures ok == Search(old(puzzle[..])).Some?
    ensures ok ==> puzzle[..] == Search(old(puzzle[..])).value
    ensures !ok ==> puzzle[..] == old(puzzle[..])
    decreases Dots(puzzle[..])
  {
    var emptyIndex := FindEmpty(puzzle);
    if emptyIndex == -1 {
      return true;
    }
    ghost var g := puzzle[..];
    for num := 1 to 10
      invariant puzzle[..] == g
      invariant TryDigits(g, emptyIndex, num) == TryDigits(g, emptyIndex, 1)
    {
      var value := DigitChar(num);
      var legal := IsValidPlacement(puzzle, emptyIndex, value);
      if legal {
        puzzle[emptyIndex] := value;
        assert puzzle[..] == g[emptyIndex := value];
        DotsFill(g, emptyIndex, value);
        var solved := Backtrack(puzzle);
        if solved {
          return true;
        }
        puzzle[emptyIndex] := Empty;
        assert puzzle[..] == g;
      }
    }
    return false;
  }

  /** A private working copy of the string, searched in place. */
  method SolvePuzzle(puzzleString: string) returns (r: Option<string>)
    requires |puzzleString| == 81
    ensures r == Search(puzzleString)
  {
    var puzzle := new char[81](i requires 0 <= i < 81 => puzzleString[i]);
    assert puzzle[..] == puzzleString;
    var solved := Backtrack(puzzle);
    if solved {
      return Some(puzzle[..]);
    }
    return None;
  }

  /* ---------------------------------------------------------------------
   * solve
   * --------------------------------------------------------------------- */

  /** What `solve` returns for a given string. */
  ghost function Outcome(s: string): SolveResult
  {
    match Validate(s)
    case Invalid(e) => Error(e)
    case Valid =>
      match Search(s)
      case None => Error(CannotBeSolved)
      case Some(h) => Solution(h)
  }

  method Solve(puzzleString: string) returns (r: SolveResult)
    ensures r == Outcome(puzzleString)
  {
    var validation := Validate(puzzleString);
    if validation.Invalid? {
      return Error(validation.error);
    }
    var solution := SolvePuzzle(puzzleString);
    if solution.None? {
      return Error(CannotBeSolved);
    }
    return Solution(solution.value);
  }

  /**
   * The two kinds of failure of `solve` stay apart: invalid input gives
   * validate's own error, and "cannot be solved" is reported exactly when
   * a structurally valid grid has no completion.
   */
  lemma SolveErrors(s: string)
    ensures Validate(s).Invalid? ==> Outcome(s) == Error(Validate(s).error) && Outcome(s).error != CannotBeSolved
    ensures Validate(s).Valid? ==> (Outcome(s).Error? <==> forall h :: !IsCompletion(s, h))
    ensures Validate(s).Valid? && Outcome(s).Error? ==> Outcome(s).error == CannotBeSolved
  {
    if Validate(s).Valid? {
      SearchSucceedsIffCompletable(s);
    }
  }

  /**
   * A solution has 81 characters and no '.', keeps every given, puts a digit
   * that passes all three checks into every cell that was empty, and
   * validates again.
   */
  lemma SolutionSound(s: string)
    requires Outcome(s).Solution?
    ensures var h := Outcome(s).solution;
      |s| == 81 && |h| == 81 &&
      (forall i :: 0 <= i < 81 ==> h[i] != Empty) &&
      (forall i :: 0 <= i < 81 && s[i] != Empty ==> h[i] == s[i]) &&
      (forall i :: 0 <= i < 81 && s[i] == Empty ==>
         IsDigit(h[i]) && RowFree(h, i / 9, i % 9, h[i]) && ColFree(h, i / 9, i % 9, h[i])
         && RegionFree(h, i / 9, i % 9, h[i])) &&
      Validate(h) == Valid
  {
    var h := Outcome(s).solution;
    SearchSound(s);
    forall i | 0 <= i < 81 && s[i] == Empty
      ensures RowFree(h, i / 9, i % 9, h[i]) && ColFree(h, i / 9, i % 9, h[i]) && RegionFree(h, i / 9, i % 9, h[i])
    {
      assert i == Index(i / 9, i % 9);
      ChecksAgreeWithPeers(h, i / 9, i % 9, h[i]);
    }
    forall i | 0 <= i < 81 ensures IsCellChar(h[i]) {
      assert IsCellChar(s[i]);
    }
  }

  /* ---------------------------------------------------------------------
   * What a solution is as a Sudoku grid
   * --------------------------------------------------------------------- */

  /** No given is held by one of its peers. */
  ghost predicate GivensConsistent(g: Grid)
    requires |g| == 81
  {
    forall i :: 0 <= i < 81 && g[i] != Empty ==> NoPeerHolds(g, i, g[i])
  }

  /** Nine digits in which each of 1..9 occurs (so each exactly once). */
  ghost predicate IsDigitPermutation(s: seq<char>)
  {
    |s| == 9 && (forall k :: 0 <= k < 9 ==> IsDigit(s[k])) && forall d :: IsDigit(d) ==> d in s
  }

  function RowCells(h: Grid, r: int): (cells: seq<char>)
    requires |h| == 81 && 0 <= r < 9
    ensures |cells| == 9
  {
    seq(9, c requires 0 <= c < 9 => Cell(h, r, c))
  }

  function ColumnCells(h: Grid, c: int): (cells: seq<char>)
    requires |h| == 81 && 0 <= c < 9
    ensures |cells| == 9
  {
    seq(9, r requires 0 <= r < 9 => Cell(h, r, c))
  }

  /** Index of the m-th cell (row-major) of region k. */
  function RegionIndex(k: int, m: int): (a: int)
    requires 0 <= k < 9 && 0 <= m < 9
    ensures 0 <= a < 81
  {
    Index(k / 3 * 3 + m / 3, k % 3 * 3 + m % 3)
  }

  /** The cells of region k (0..8, row-major over the blocks), row-major within the block. */
  function RegionCells(h: Grid, k: int): (cells: seq<char>)
    requires |h| == 81 && 0 <= k < 9
    ensures |cells| == 9
  {
    seq(9, m requires 0 <= m < 9 => h[RegionIndex(k, m)])
  }

  /** A solved Sudoku: every row, column and region is a permutation of 1..9. */
  ghost predicate IsSolvedGrid(h: Grid)
  {
    |h| == 81 &&
    forall k :: 0 <= k < 9 ==>
      IsDigitPermutation(RowCells(h, k)) && IsDigitPermutation(ColumnCells(h, k)) &&
      IsDigitPermutation(RegionCells(h, k))
  }

  lemma {:induction false} DistinctElementsCard(s: seq<char>)
    requires forall i, j :: 0 <= i < j < |s| ==> s[i] != s[j]
    ensures |set x | x in s| == |s|
  {
    if s != [] {
      DistinctElementsCard(s[1..]);
      assert (set x | x in s) == {s[0]} + (set x | x in s[1..]);
    }
  }

  lemma {:induction false} SubsetCard(a: set<char>, b: set<char>)
    requires a <= b
    ensures |a| <= |b|
  {
    if a != {} {
      var x :| x in a;
      SubsetCard(a - {x}, b - {x});
    }
  }

  /** Pigeonhole: nine pairwise different digits are all of 1..9. */
  lemma NineDistinctDigits(s: seq<char>)
    requires |s| == 9 && forall k :: 0 <= k < 9 ==> IsDigit(s[k])
    requires forall i, j :: 0 <= i < j < 9 ==> s[i] != s[j]
    ensures IsDigitPermutation(s)
  {
    var digits := {'1', '2', '3', '4', '5', '6', '7', '8', '9'};
    var present := set x | x in s;
    DistinctElementsCard(s);
    forall d | IsDigit(d) ensures d in s {
      assert d in digits;
      if d !in s {
        assert |digits - {d}| == 8;
        assert present <= digits - {d};
        SubsetCard(present, digits - {d});
      }
    }
  }

  /** A grid in which every cell holds a digit that none of its peers holds. */
  ghost predicate ConflictFree(h: Grid)
    requires |h| == 81
  {
    forall i :: 0 <= i < 81 ==> IsDigit(h[i]) && NoPeerHolds(h, i, h[i])
  }

  lemma RowIsPermutation(h: Grid, k: int)
    requires |h| == 81 && ConflictFree(h) && 0 <= k < 9
    ensures IsDigitPermutation(RowCells(h, k))
  {
    var cells := RowCells(h, k);
    forall i, j | 0 <= i < j < 9 ensures cells[i] != cells[j] {
      assert Peer(Index(k, i), Index(k, j));
    }
    NineDistinctDigits(cells);
  }

  lemma ColumnIsPermutation(h: Grid, k: int)
    requires |h| == 81 && ConflictFree(h) && 0 <= k < 9
    ensures IsDigitPermutation(ColumnCells(h, k))
  {
    var cells := ColumnCells(h, k);
    forall i, j | 0 <= i < j < 9 ensures cells[i] != cells[j] {
      assert Peer(Index(i, k), Index(j, k));
    }
    NineDistinctDigits(cells);
  }

  lemma DivModThree(q: int, r: int)
    requires 0 <= r < 3
    ensures (q * 3 + r) / 3 == q && (q * 3 + r) % 3 == r
  {
  }

  /** Different positions of one region are different cells of that region. */
  lemma RegionIndexInjective(k: int, i: int, j: int)
    requires 0 <= k < 9 && 0 <= i < 9 && 0 <= j < 9 && i != j
    ensures RegionIndex(k, i) != RegionIndex(k, j) && SameRegion(RegionIndex(k, i), RegionIndex(k, j))
  {
    var a, b := RegionIndex(k, i), RegionIndex(k, j);
    DivModThree(k / 3, i / 3);
    DivModThree(k / 3, j / 3);
    DivModThree(k % 3, i % 3);
    DivModThree(k % 3, j % 3);
    assert (a / 9) / 3 == k / 3 == (b / 9) / 3;
    assert (a % 9) / 3 == k % 3 == (b % 9) / 3;
    assert i / 3 != j / 3 || i % 3 != j % 3 by {
      assert i == i / 3 * 3 + i % 3 && j == j / 3 * 3 + j % 3;
    }
    assert a / 9 != b / 9 || a % 9 != b % 9;
  }

  lemma RegionIsPermutation(h: Grid, k: int)
    requires |h| == 81 && ConflictFree(h) && 0 <= k < 9
    ensures IsDigitPermutation(RegionCells(h, k))
  {
    RegionCellsDistinct(h, k);
    NineDistinctDigits(RegionCells(h, k));
  }

  /** The nine cells of a region of a conflict-free grid are distinct digits. */
  lemma RegionCellsDistinct(h: Grid, k: int)
    requires |h| == 81 && ConflictFree(h) && 0 <= k < 9
    ensures var cells := RegionCells(h, k);
      (forall m :: 0 <= m < 9 ==> IsDigit(cells[m])) &&
      forall i, j :: 0 <= i < j < 9 ==> cells[i] != cells[j]
  {
    var cells := RegionCells(h, k);
    forall i, j | 0 <= i < j < 9 ensures cells[i] != cells[j] {
      assert cells[i] == h[RegionIndex(k, i)] && cells[j] == h[RegionIndex(k, j)];
      RegionIndexInjective(k, i, j);
      PeersDiffer(h, RegionIndex(k, i), RegionIndex(k, j));
    }
    forall m | 0 <= m < 9 ensures IsDigit(cells[m]) {
      assert cells[m] == h[RegionIndex(k, m)];
    }
  }

  lemma PeersDiffer(h: Grid, a: int, b: int)
    requires |h| == 81 && ConflictFree(h) && 0 <= a < 81 && 0 <= b < 81 && a != b && SameRegion(a, b)
    ensures h[a] != h[b]
  {
    assert Peer(a, b);
  }

  /** A conflict-free grid is a solved Sudoku. */
  lemma ConflictFreeGridIsSolved(h: Grid)
    requires |h| == 81 && ConflictFree(h)
    ensures IsSolvedGrid(h)
  {
    forall k | 0 <= k < 9
      ensures IsDigitPermutation(RowCells(h, k)) && IsDigitPermutation(ColumnCells(h, k))
              && IsDigitPermutation(RegionCells(h, k))
    {
      RowIsPermutation(h, k);
      ColumnIsPermutation(h, k);
      RegionIsPermutation(h, k);
    }
  }

  /**
   * When the givens do not conflict with each other, a solution is a solved
   * Sudoku: every row, column and region is a permutation of 1..9.
   */
  lemma SolutionIsSolvedGrid(s: string)
    requires Outcome(s).Solution? && |s| == 81 && GivensConsistent(s)
    ensures IsSolvedGrid(Outcome(s).solution)
  {
    var h := Outcome(s).solution;
    SearchSound(s);
    forall i | 0 <= i < 81 ensures IsDigit(h[i]) && NoPeerHolds(h, i, h[i]) {
      if s[i] != Empty {
        assert IsCellChar(s[i]);
        forall j | 0 <= j < 81 && Peer(i, j) ensures h[j] != h[i] {
          if s[j] == Empty {
            assert Peer(j, i);
          }
        }
      }
    }
    ConflictFreeGridIsSolved(h);
  }

  /**
   * The givens are never checked against each other: a full grid of ones
   * passes validation and is returned as its own solution, though no row
   * of it is a permutation of 1..9.
   */
  lemma GivensAreNotChecked()
    ensures var ones := seq(81, _ => '1');
      Validate(ones) == Valid && Outcome(ones) == Solution(ones) && !IsSolvedGrid(ones)
  {
    var ones := seq(81, _ => '1');
    assert FirstEmpty(ones) == -1;
    assert RowCells(ones, 0) == seq(9, _ => '1');
    assert '2' !in RowCells(ones, 0);
  }
}
