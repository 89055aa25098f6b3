/*
 * The inputs and expected outputs of the repository's unit and functional
 * tests (tests/1_unit-tests.js, tests/2_functional-tests.js), stated as
 * facts about the model. The sample grids are given as their nine rows.
 */
module Samples {
  import opened SudokuSolver
  import opened Api

  /** The rows A..I of the sample puzzle. */
  const Rows: seq<string> := [
    "1.5..2.84", "..63.12.7", ".2..5....",
    ".9..1....", "8.2.3674.", "3.7.2..9.",
    "47...8..1", "..16....9", "26914.37."
  ]

  predicate NineWide(rows: seq<string>)
  {
    |rows| == 9 && forall k :: 0 <= k < 9 ==> |rows[k]| == 9
  }

  /** The rows joined into one string, row A first: (r, c) sits at r * 9 + c. */
  function Join(rows: seq<string>): (s: string)
    requires NineWide(rows)
    ensures |s| == 81
  {
    seq(81, i requires 0 <= i < 81 => rows[i / 9][i % 9])
  }

  const Puzzle: string := Join(Rows)

  /** The sample with an 'X' in row I. */
  const WithX: string := Join(Rows[8 := "26914.3X."])

  /** The sample without its last two characters. */
  const Short: string := Puzzle[..79]

  /** Cell (r, c) of the sample is character c of row r. */
  lemma SampleCell(r: int, c: int)
    requires 0 <= r < 9 && 0 <= c < 9
    ensures Cell(Puzzle, r, c) == Rows[r][c]
  {
    assert Puzzle[Index(r, c)] == Rows[Index(r, c) / 9][Index(r, c) % 9];
  }

  /** Every row of the sample passes the character test. */
  lemma RowsAreCellChars()
    ensures forall r, c :: 0 <= r < 9 && 0 <= c < 9 ==> IsCellChar(Rows[r][c])
  {
    forall r | 0 <= r < 9 ensures forall c :: 0 <= c < 9 ==> IsCellChar(Rows[r][c]) {
      if r == 0 {} else if r == 1 {} else if r == 2 {} else if r == 3 {} else if r == 4 {}
      else if r == 5 {} else if r == 6 {} else if r == 7 {} else {}
    }
  }

  lemma ValidateSamples()
    ensures Validate(Puzzle) == Valid
    ensures Validate(WithX) == Invalid(InvalidCharacters)
    ensures Validate(Short) == Invalid(WrongLength)
    ensures Validate("") == Invalid(RequiredFieldMissing)
  {
    assert Validate(Puzzle) == Valid by {
      RowsAreCellChars();
      forall i | 0 <= i < 81 ensures IsCellChar(Puzzle[i]) {
        assert Puzzle[i] == Rows[i / 9][i % 9];
      }
    }
    assert WithX[79] == 'X';
  }

  /** Row A of the sample, as the row check of A2 sees it. */
  lemma RowA(v: char)
    ensures RowFree(Puzzle, 0, 1, v) <==> forall c :: 0 <= c < 9 && c != 1 ==> "1.5..2.84"[c] != v
  {
    forall c | 0 <= c < 9 ensures Cell(Puzzle, 0, c) == "1.5..2.84"[c] {
      SampleCell(0, c);
    }
  }

  /** Row C of the sample, as the row check of C6 sees it. */
  lemma RowC(v: char)
    ensures RowFree(Puzzle, 2, 5, v) <==> forall c :: 0 <= c < 9 && c != 5 ==> ".2..5...."[c] != v
  {
    forall c | 0 <= c < 9 ensures Cell(Puzzle, 2, c) == ".2..5...."[c] {
      SampleCell(2, c);
    }
  }

  /** Column 2 of the sample, as the column check of A2 sees it. */
  lemma ColumnTwo(v: char)
    ensures ColFree(Puzzle, 0, 1, v) <==> forall r :: 0 <= r < 9 && r != 0 ==> "..29..7.6"[r] != v
  {
    forall r | 0 <= r < 9 ensures Cell(Puzzle, r, 1) == "..29..7.6"[r] {
      SampleCell(r, 1);
    }
  }

  /** Column 6 of the sample, as the column check of C6 sees it. */
  lemma ColumnSix(v: char)
    ensures ColFree(Puzzle, 2, 5, v) <==> forall r :: 0 <= r < 9 && r != 2 ==> "21..6.8.."[r] != v
  {
    forall r | 0 <= r < 9 ensures Cell(Puzzle, r, 5) == "21..6.8.."[r] {
      SampleCell(r, 5);
    }
  }

  /** The top-left region of the sample around A2: 1 . 5 / . . 6 / . 2 . */
  lemma TopLeftRegion(v: char)
    ensures RegionFree(Puzzle, 0, 1, v) <==> v != '1' && v != '5' && v != Empty && v != '6' && v != '2'
  {
    SampleCell(0, 0);
    SampleCell(0, 2);
    SampleCell(1, 0);
    SampleCell(1, 2);
    SampleCell(2, 1);
    if v != '1' && v != '5' && v != Empty && v != '6' && v != '2' {
      forall r, c | 0 <= r < 3 && 0 <= c < 3 && (r != 0 || c != 1) ensures Cell(Puzzle, r, c) != v {
        SampleCell(r, c);
        if r == 0 {} else if r == 1 {} else {}
      }
    }
  }

  /** The top-middle region of the sample around C6: . . 2 / 3 . 1 / . 5 . */
  lemma TopMiddleRegion(v: char)
    ensures RegionFree(Puzzle, 2, 5, v) <==> v != Empty && v != '2' && v != '3' && v != '1' && v != '5'
  {
    SampleCell(0, 3);
    SampleCell(0, 5);
    SampleCell(1, 3);
    SampleCell(1, 5);
    SampleCell(2, 4);
    if v != Empty && v != '2' && v != '3' && v != '1' && v != '5' {
      forall r, c | 0 <= r < 3 && 3 <= c < 6 && (r != 2 || c != 5) ensures Cell(Puzzle, r, c) != v {
        SampleCell(r, c);
        if r == 0 {} else if r == 1 {} else {}
      }
    }
  }

  lemma RowSamples()
    ensures RowFree(Puzzle, 0, 1, '3') && !RowFree(Puzzle, 0, 1, '1')
  {
    RowA('3');
    RowA('1');
    assert "1.5..2.84"[0] == '1';
  }

  lemma ColumnSamples()
    ensures ColFree(Puzzle, 0, 1, '3') && !ColFree(Puzzle, 0, 1, '9')
  {
    ColumnTwo('3');
    ColumnTwo('9');
    assert "..29..7.6"[3] == '9';
  }

  lemma RegionSamples()
    ensures RegionFree(Puzzle, 0, 1, '3') && !RegionFree(Puzzle, 0, 1, '5')
  {
    TopLeftRegion('3');
    TopLeftRegion('5');
  }

  /** A2 with 3: no conflict. */
  lemma CheckSampleValid()
    ensures PlacementResponse(Puzzle, RowIndex('A'), ColumnIndex('2'), '3') == PlacementValid
  {
    RowSamples();
    ColumnSamples();
    RegionSamples();
  }

  /** A2 with 9: a single conflict, in the column. */
  lemma CheckSampleSingleConflict()
    ensures PlacementResponse(Puzzle, RowIndex('A'), ColumnIndex('2'), '9') == PlacementInvalid([Column])
    ensures Names([Column]) == ["column"]
  {
    assert RowFree(Puzzle, 0, 1, '9') by { RowA('9'); }
    assert !ColFree(Puzzle, 0, 1, '9') by { ColumnTwo('9'); assert "..29..7.6"[3] == '9'; }
    assert RegionFree(Puzzle, 0, 1, '9') by { TopLeftRegion('9'); }
    SampleCell(0, 1);
  }

  /** C6 with 1: column and region conflicts. */
  lemma CheckSampleMultipleConflicts()
    ensures PlacementResponse(Puzzle, RowIndex('C'), ColumnIndex('6'), '1') == PlacementInvalid([Column, Region])
    ensures Names([Column, Region]) == ["column", "region"]
  {
    assert RowFree(Puzzle, 2, 5, '1') by { RowC('1'); }
    assert !ColFree(Puzzle, 2, 5, '1') by { ColumnSix('1'); assert "21..6.8.."[1] == '1'; }
    assert !RegionFree(Puzzle, 2, 5, '1') by { TopMiddleRegion('1'); }
    SampleCell(2, 5);
    assert RowIndex('C') == 2 && ColumnIndex('6') == 5;
    assert Conflicts(Puzzle, 2, 5, '1') == [Column, Region];
  }

  /** A2 with 2: all three conflicts, reported as row, column, region. */
  lemma CheckSampleAllConflicts()
    ensures PlacementResponse(Puzzle, RowIndex('A'), ColumnIndex('2'), '2') == PlacementInvalid([Row, Column, Region])
    ensures Names([Row, Column, Region]) == ["row", "column", "region"]
  {
    assert !RowFree(Puzzle, 0, 1, '2') by { RowA('2'); assert "1.5..2.84"[5] == '2'; }
    assert !ColFree(Puzzle, 0, 1, '2') by { ColumnTwo('2'); assert "..29..7.6"[2] == '2'; }
    assert !RegionFree(Puzzle, 0, 1, '2') by { TopLeftRegion('2'); }
    SampleCell(0, 1);
    assert RowIndex('A') == 0 && ColumnIndex('2') == 1;
    assert Conflicts(Puzzle, 0, 1, '2') == [Row, Column, Region];
  }

  /** The five error answers of the check route, each for one defect of the request. */
  method CheckErrorSamples() returns (missing: CheckResponse, characters: CheckResponse, length: CheckResponse,
                                      coordinate: CheckResponse, value: CheckResponse)
    ensures missing == CheckFailed(RequiredFieldsMissing)
    ensures characters == CheckFailed(InvalidCharacters)
    ensures length == CheckFailed(WrongLength)
    ensures coordinate == CheckFailed(InvalidCoordinate)
    ensures value == CheckFailed(InvalidValue)
  {
    ValidateSamples();
    missing := Check(Some(Puzzle), Some("A2"), None);
    characters := Check(Some(WithX), Some("A2"), Some("3"));
    length := Check(Some(Short), Some("A2"), Some("3"));
    coordinate := Check(Some(Puzzle), Some("Z1"), Some("3"));
    value := Check(Some(Puzzle), Some("A2"), Some("0"));
  }

  /* ---------------------------------------------------------------------
   * The expected solution of the sample
   * --------------------------------------------------------------------- */

  /** The rows of the solution the tests expect for the sample puzzle. */
  const ExpectedRows: seq<string> := [
    "135762984", "946381257", "728459613",
    "694517832", "812936745", "357824196",
    "473298561", "581673429", "269145378"
  ]

  const Expected: string := Join(ExpectedRows)

  lemma ExpectedDigits()
    ensures forall r, c :: 0 <= r < 9 && 0 <= c < 9 ==> IsDigit(ExpectedRows[r][c])
  {
    forall r | 0 <= r < 9 ensures forall c :: 0 <= c < 9 ==> IsDigit(ExpectedRows[r][c]) {
      if r == 0 {} else if r == 1 {} else if r == 2 {} else if r == 3 {} else if r == 4 {}
      else if r == 5 {} else if r == 6 {} else if r == 7 {} else {}
    }
  }

  lemma ExpectedRowsDistinct()
    ensures forall r, a, b :: 0 <= r < 9 && 0 <= a < b < 9 ==> ExpectedRows[r][a] != ExpectedRows[r][b]
  {
  }

  lemma ExpectedColumnDistinct(c: int)
    requires 0 <= c < 9
    ensures forall a, b :: 0 <= a < b < 9 ==> ExpectedRows[a][c] != ExpectedRows[b][c]
  {
    if c == 0 {} else if c == 1 {} else if c == 2 {} else if c == 3 {} else if c == 4 {}
    else if c == 5 {} else if c == 6 {} else if c == 7 {} else {}
  }

  /** (r, c) lies in the 3x3 block in block row br and block column bc. */
  predicate InBlock(br: int, bc: int, r: int, c: int)
  {
    br * 3 <= r < br * 3 + 3 && bc * 3 <= c < bc * 3 + 3
  }

  lemma ExpectedBlockDistinct(br: int, bc: int)
    requires 0 <= br < 3 && 0 <= bc < 3
    ensures forall r1, c1, r2, c2 :: InBlock(br, bc, r1, c1) && InBlock(br, bc, r2, c2) && r1 < r2 && c1 != c2 ==>
              ExpectedRows[r1][c1] != ExpectedRows[r2][c2]
  {
    if br == 0 {
      if bc == 0 {} else if bc == 1 {} else {}
    } else if br == 1 {
      if bc == 0 {} else if bc == 1 {} else {}
    } else {
      if bc == 0 {} else if bc == 1 {} else {}
    }
  }

  lemma ExpectedPeersDiffer(i: int, j: int)
    requires 0 <= i < 81 && 0 <= j < 81 && Peer(i, j)
    ensures Expected[i] != Expected[j]
  {
    var r1, c1, r2, c2 := i / 9, i % 9, j / 9, j % 9;
    assert Expected[i] == ExpectedRows[r1][c1] && Expected[j] == ExpectedRows[r2][c2];
    assert r1 != r2 || c1 != c2;
    if r1 == r2 {
      ExpectedRowsDistinct();
    } else if c1 == c2 {
      ExpectedColumnDistinct(c1);
    } else {
      ExpectedBlockDistinct(r1 / 3, c1 / 3);
      assert InBlock(r1 / 3, c1 / 3, r1, c1) && InBlock(r1 / 3, c1 / 3, r2, c2);
    }
  }

  /** The expected solution is a solved Sudoku. */
  lemma ExpectedConflictFree()
    ensures ConflictFree(Expected) && IsSolvedGrid(Expected)
  {
    ExpectedDigits();
    forall i | 0 <= i < 81 ensures IsDigit(Expected[i]) && NoPeerHolds(Expected, i, Expected[i]) {
      assert Expected[i] == ExpectedRows[i / 9][i % 9];
      forall j | 0 <= j < 81 && Peer(i, j) ensures Expected[j] != Expected[i] {
        ExpectedPeersDiffer(i, j);
      }
    }
    ConflictFreeGridIsSolved(Expected);
  }

  lemma ExpectedKeepsGivens()
    ensures forall r, c :: 0 <= r < 9 && 0 <= c < 9 && Rows[r][c] != Empty ==> ExpectedRows[r][c] == Rows[r][c]
  {
    forall r | 0 <= r < 9 ensures forall c :: 0 <= c < 9 && Rows[r][c] != Empty ==> ExpectedRows[r][c] == Rows[r][c] {
      if r == 0 {} else if r == 1 {} else if r == 2 {} else if r == 3 {} else if r == 4 {}
      else if r == 5 {} else if r == 6 {} else if r == 7 {} else {}
    }
  }

  /** The expected solution completes the sample puzzle. */
  lemma ExpectedCompletesPuzzle()
    ensures IsCompletion(Puzzle, Expected)
  {
    ExpectedConflictFree();
    ExpectedKeepsGivens();
    forall i | 0 <= i < 81 && Puzzle[i] != Empty ensures Expected[i] == Puzzle[i] {
      assert Expected[i] == ExpectedRows[i / 9][i % 9] && Puzzle[i] == Rows[i / 9][i % 9];
    }
  }

  /**
   * `solve` on the sample gives a solution of 81 characters, and that
   * solution is a solved Sudoku; on the sample with an 'X' it gives an error.
   */
  lemma SolveSamples()
    ensures Outcome(Puzzle).Solution? && |Outcome(Puzzle).solution| == 81
    ensures IsSolvedGrid(Outcome(Puzzle).solution)
    ensures Outcome(WithX) == Error(InvalidCharacters)
  {
    ValidateSamples();
    ExpectedCompletesPuzzle();
    SearchComplete(Puzzle, Expected);
    SolutionSound(Puzzle);
    assert GivensConsistent(Puzzle) by {
      ExpectedConflictFree();
      forall i, j | 0 <= i < 81 && Puzzle[i] != Empty && 0 <= j < 81 && Peer(i, j) ensures Puzzle[j] != Puzzle[i] {
        if Puzzle[j] != Empty {
          assert Expected[i] == Puzzle[i] && Expected[j] == Puzzle[j];
        }
      }
    }
    SolutionIsSolvedGrid(Puzzle);
  }

  /** The answers of the solve route to the sample, a missing puzzle, the 'X' sample and the short sample. */
  method SolveRouteSamples() returns (solved: SolveResult, missing: SolveResult, characters: SolveResult,
                                      length: SolveResult)
    ensures solved.Solution? && |solved.solution| == 81 && IsSolvedGrid(solved.solution)
    ensures missing == Error(RequiredFieldMissing)
    ensures characters == Error(InvalidCharacters)
    ensures length == Error(WrongLength)
  {
    SolveSamples();
    ValidateSamples();
    solved := SolveRoute(Some(Puzzle));
    missing := SolveRoute(None);
    characters := SolveRoute(Some(WithX));
    length := SolveRoute(Some(Short));
  }
}
