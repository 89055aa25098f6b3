/*
 * Model of the decision logic of the two route handlers (routes/api.js),
 * with the request body's fields as optional strings and the JSON response
 * as a datatype. A field is missing when it is absent or the empty string.
 */
module Api {
  import opened SudokuSolver

  const RequiredFieldsMissing: string := "Required field(s) missing"
  const InvalidCoordinate: string := "Invalid coordinate"
  const InvalidValue: string := "Invalid value"

  /** The three constraint kinds a placement can violate. */
  datatype Unit = Row | Column | Region

  /** The names the conflict list carries in the response. */
  function Name(u: Unit): (name: string)
  {
    match u
    case Row => "row"
    case Column => "column"
    case Region => "region"
  }

  /** Position of a kind in the fixed reporting order row, column, region. */
  function Rank(u: Unit): (rank: nat)
  {
    match u
    case Row => 0
    case Column => 1
    case Region => 2
  }

  /** The `conflict` array of the response: the names of the kinds, in order. */
  function Names(cs: seq<Unit>): (names: seq<string>)
    ensures |names| == |cs|
    ensures forall i :: 0 <= i < |cs| ==> names[i] == Name(cs[i])
  {
    seq(|cs|, i requires 0 <= i < |cs| => Name(cs[i]))
  }

  /** `{error}`, `{valid: true}` or `{valid: false, conflict}`. */
  datatype CheckResponse = CheckFailed(error: string) | PlacementValid | PlacementInvalid(conflict: seq<Unit>)

  /** The test `!field` on a request field. */
  predicate Present(field: Option<string>)
  {
    field.Some? && field.value != []
  }

  /** `/^[A-I][1-9]$/` */
  predicate IsCoordinate(coordinate: string)
  {
    |coordinate| == 2 && 'A' <= coordinate[0] <= 'I' && IsDigit(coordinate[1])
  }

  /** `/^[1-9]$/` */
  predicate IsValue(value: string)
  {
    |value| == 1 && IsDigit(value[0])
  }

  /** The coordinate pattern accepts exactly the names of the 81 cells. */
  lemma CoordinatesAreCells(coordinate: string)
    ensures IsCoordinate(coordinate) <==>
              exists row, col :: 0 <= row < 9 && 0 <= col < 9 && coordinate == [RowLetter(row), ColumnDigit(col)]
  {
    if IsCoordinate(coordinate) {
      var row, col := RowIndex(coordinate[0]), ColumnIndex(coordinate[1]);
      assert coordinate == [RowLetter(row), ColumnDigit(col)];
    }
  }

  /** The value pattern accepts exactly the nine digits `num.toString()` produces. */
  lemma ValuesAreDigits(value: string)
    ensures IsValue(value) <==> exists n :: 1 <= n <= 9 && value == [DigitChar(n)]
  {
    if IsValue(value) {
      var n := value[0] as int - '0' as int;
      assert value == [DigitChar(n)];
    }
  }

  predicate AllPresent(puzzle: Option<string>, coordinate: Option<string>, value: Option<string>)
  {
    Present(puzzle) && Present(coordinate) && Present(value)
  }

  /** All three fields present, the puzzle valid, coordinate and value well formed. */
  predicate WellFormedRequest(puzzle: Option<string>, coordinate: Option<string>, value: Option<string>)
  {
    AllPresent(puzzle, coordinate, value) &&
    Validate(puzzle.value).Valid? && IsCoordinate(coordinate.value) && IsValue(value.value)
  }

  /**
   * The constraint kinds the placement of v at (row, col) violates, in the
   * order row, column, region.
   */
  function Conflicts(g: Grid, row: int, col: int, v: char): (cs: seq<Unit>)
    requires |g| == 81 && 0 <= row < 9 && 0 <= col < 9
    ensures Row in cs <==> !RowFree(g, row, col, v)
    ensures Column in cs <==> !ColFree(g, row, col, v)
    ensures Region in cs <==> !RegionFree(g, row, col, v)
    ensures forall i, j :: 0 <= i < j < |cs| ==> Rank(cs[i]) < Rank(cs[j])
    ensures |cs| <= 3
  {
    (if RowFree(g, row, col, v) then [] else [Row]) +
    (if ColFree(g, row, col, v) then [] else [Column]) +
    (if RegionFree(g, row, col, v) then [] else [Region])
  }

  /** The placement is legal, by the peer definition, iff nothing conflicts. */
  lemma ConflictsEmptyIffLegal(g: Grid, row: int, col: int, v: char)
    requires |g| == 81 && 0 <= row < 9 && 0 <= col < 9
    ensures Conflicts(g, row, col, v) == [] <==> NoPeerHolds(g, Index(row, col), v)
  {
    ChecksAgreeWithPeers(g, row, col, v);
  }

  /**
   * Writing the value into the target cell before checking, as the handler
   * does, cannot change the conflict list.
   */
  lemma ConflictsIgnoreTarget(g: Grid, row: int, col: int, v: char, x: char)
    requires |g| == 81 && 0 <= row < 9 && 0 <= col < 9
    ensures Conflicts(g[Index(row, col) := x], row, col, v) == Conflicts(g, row, col, v)
  {
    TargetIrrelevant(g, row, col, v, x);
  }

  /**
   * POST /api/check. The checks run in a fixed order, each one reporting
   * before any later one: fields present, puzzle valid (its error passed
   * through), coordinate, value. The placement itself is judged by Place.
   */
  method Check(puzzle: Option<string>, coordinate: Option<string>, value: Option<string>) returns (r: CheckResponse)
    ensures !AllPresent(puzzle, coordinate, value) ==> r == CheckFailed(RequiredFieldsMissing)
    ensures AllPresent(puzzle, coordinate, value) && Validate(puzzle.value).Invalid? ==>
              r == CheckFailed(Validate(puzzle.value).error)
    ensures (AllPresent(puzzle, coordinate, value) && Validate(puzzle.value).Valid? && !IsCoordinate(coordinate.value)) ==>
              r == CheckFailed(InvalidCoordinate)
    ensures (AllPresent(puzzle, coordinate, value) && Validate(puzzle.value).Valid? && IsCoordinate(coordinate.value) &&
             !IsValue(value.value)) ==>
              r == CheckFailed(InvalidValue)
    ensures WellFormedRequest(puzzle, coordinate, value) ==>
              r == PlacementResponse(puzzle.value, RowIndex(coordinate.value[0]), ColumnIndex(coordinate.value[1]), value.value[0])
  {
    if !Present(puzzle) || !Present(coordinate) || !Present(value) {
      return CheckFailed(RequiredFieldsMissing);
    }
    var p, c, v := puzzle.value, coordinate.value, value.value;

    var validation := Validate(p);
    if validation.Invalid? {
      return CheckFailed(validation.error);
    }
    if !IsCoordinate(c) {
      return CheckFailed(InvalidCoordinate);
    }
    if !IsValue(v) {
      return CheckFailed(InvalidValue);
    }

    var row, column := c[0], c[1];
    r := Place(p, RowIndex(row), ColumnIndex(column), v[0]);
  }

  /**
   * The answer for a well-formed request: valid when the cell already holds
   * the value, otherwise the conflicts of the placement in the original
   * puzzle, valid exactly when there are none.
   */
  function PlacementResponse(g: Grid, row: int, col: int, v: char): (r: CheckResponse)
    requires |g| == 81 && 0 <= row < 9 && 0 <= col < 9
    ensures !r.CheckFailed?
    ensures r.PlacementValid? <==> g[Index(row, col)] == v || NoPeerHolds(g, Index(row, col), v)
    ensures r.PlacementInvalid? ==>
              && r.conflict != []
              && (Row in r.conflict <==> !RowFree(g, row, col, v))
              && (Column in r.conflict <==> !ColFree(g, row, col, v))
              && (Region in r.conflict <==> !RegionFree(g, row, col, v))
              && forall i, j :: 0 <= i < j < |r.conflict| ==> Rank(r.conflict[i]) < Rank(r.conflict[j])
  {
    ConflictsEmptyIffLegal(g, row, col, v);
    if g[Index(row, col)] == v then PlacementValid
    else if Conflicts(g, row, col, v) == [] then PlacementValid
    else PlacementInvalid(Conflicts(g, row, col, v))
  }

  /**
   * The second half of the check handler: the "already holds this value"
   * shortcut, then the three checks run on a copy of the puzzle with the
   * value written into the target cell, collecting the conflicts by push.
   */
  method Place(puzzle: Grid, rowIndex: int, colIndex: int, value: char) returns (r: CheckResponse)
    requires |puzzle| == 81 && 0 <= rowIndex < 9 && 0 <= colIndex < 9
    ensures r == PlacementResponse(puzzle, rowIndex, colIndex, value)
  {
    var currentIndex := rowIndex * 9 + colIndex;
    if puzzle[currentIndex] == value {
      return PlacementValid;
    }

    // split, overwrite the target cell, join
    var testPuzzle := puzzle[currentIndex := value];

    var rowOk := CheckRowPlacement(testPuzzle, rowIndex, colIndex, value);
    var colOk := CheckColPlacement(testPuzzle, rowIndex, colIndex, value);
    var regionOk := CheckRegionPlacement(testPuzzle, rowIndex, colIndex, value);
    assert rowOk == RowFree(puzzle, rowIndex, colIndex, value)
        && colOk == ColFree(puzzle, rowIndex, colIndex, value)
        && regionOk == RegionFree(puzzle, rowIndex, colIndex, value) by {
      TargetIrrelevant(puzzle, rowIndex, colIndex, value, value);
    }

    var conflicts: seq<Unit> := [];
    if !rowOk {
      conflicts := conflicts + [Row];
    }
    ghost var afterRow := conflicts;
    if !colOk {
      conflicts := conflicts + [Column];
    }
    ghost var afterColumn := conflicts;
    if !regionOk {
      conflicts := conflicts + [Region];
    }
    assert afterRow == if rowOk then [] else [Row];
    assert afterColumn == afterRow + if colOk then [] else [Column];
    assert conflicts == afterColumn + if regionOk then [] else [Region];
    assert conflicts == Conflicts(puzzle, rowIndex, colIndex, value);

    if |conflicts| > 0 {
      return PlacementInvalid(conflicts);
    }
    return PlacementValid;
  }

  /** POST /api/solve: a missing puzzle is rejected, anything else goes to `solve` unchanged. */
  method SolveRoute(puzzle: Option<string>) returns (r: SolveResult)
    ensures !Present(puzzle) ==> r == Error(RequiredFieldMissing)
    ensures Present(puzzle) ==> r == Outcome(puzzle.value)
  {
    if !Present(puzzle) {
      return Error(RequiredFieldMissing);
    }
    r := Solve(puzzle.value);
  }
}
