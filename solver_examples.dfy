/**
 * The unit tests of the solver, restated as members whose
 * contracts fix the outcome the tests check.  The boards of the solver
 * tests are written row by row, as the tests write them.
 */
module SudokuSolverExamples {
  import opened Types
  import opened SudokuIndex
  import opened SudokuRules
  import opened SudokuGrid
  import opened SudokuSolver

  /** Nine rows of nine values. */
  predicate IsRowTable(rows: seq<seq<u8>>) {
    |rows| == GridDims && forall r | 0 <= r < GridDims :: |rows[r]| == GridDims
  }

  /** The row-major board whose rows are `rows`. */
  function FromRows(rows: seq<seq<u8>>): (g: Board)
    requires IsRowTable(rows)
  {
    rows[0] + rows[1] + rows[2] + rows[3] + rows[4] + rows[5] + rows[6] + rows[7] + rows[8]
  }

  /** Row `r` of the board built from `rows` is `rows[r]`. */
  lemma FromRowsRow(rows: seq<seq<u8>>, r: nat)
    requires IsRowTable(rows) && r < GridDims
    ensures RowOf(FromRows(rows), r) == rows[r]
  {
  }

  /** A board whose rows are those of the table is the board built from the table. */
  lemma RowsDetermineBoard(g: Board, rows: seq<seq<u8>>)
    requires IsRowTable(rows)
    requires forall r | 0 <= r < GridDims :: RowOf(g, r) == rows[r]
    ensures g == FromRows(rows)
  {
    forall k | 0 <= k < GridSize ensures g[k] == FromRows(rows)[k] {
      RowSlotHolds(g, k);
      FromRowsRow(rows, RowIndex(k));
    }
  }

  /** Column `c` read straight from the row table. */
  function ColumnOfRows(rows: seq<seq<u8>>, c: nat): seq<u8>
    requires IsRowTable(rows) && c < GridDims
  {
    [rows[0][c], rows[1][c], rows[2][c], rows[3][c], rows[4][c], rows[5][c], rows[6][c], rows[7][c], rows[8][c]]
  }

  /** Block `b` read straight from the row table. */
  function BlockOfRows(rows: seq<seq<u8>>, b: nat): seq<u8>
    requires IsRowTable(rows) && b < Blocks
  {
    var q := if b < 3 then 0 else if b < 6 then 1 else 2;
    var r, c := q * 3, (b - q * 3) * 3;
    [rows[r][c], rows[r][c + 1], rows[r][c + 2],
     rows[r + 1][c], rows[r + 1][c + 1], rows[r + 1][c + 2],
     rows[r + 2][c], rows[r + 2][c + 1], rows[r + 2][c + 2]]
  }

  /** Cell `c` of row `r` of the board built from `rows` is `rows[r][c]`. */
  lemma FromRowsCell(rows: seq<seq<u8>>, r: nat, c: nat)
    requires IsRowTable(rows) && r < GridDims && c < GridDims
    ensures FromRows(rows)[CellOfRow(r, c)] == rows[r][c]
  {
    FromRowsRow(rows, r);
  }

  lemma FromRowsColumn(rows: seq<seq<u8>>, c: nat)
    requires IsRowTable(rows) && c < GridDims
    ensures ColOf(FromRows(rows), c) == ColumnOfRows(rows, c)
  {
    forall r | 0 <= r < GridDims ensures ColOf(FromRows(rows), c)[r] == rows[r][c] {
      FromRowsCell(rows, r, c);
    }
  }

  /** The blocks of a board whose cells are those of the table are the table's blocks. */
  lemma RowTableBlock(g: Board, rows: seq<seq<u8>>, b: nat)
    requires IsRowTable(rows) && b < Blocks
    requires forall r, c | 0 <= r < GridDims && 0 <= c < GridDims :: g[CellOfRow(r, c)] == rows[r][c]
    ensures BlockOf(g, b) == BlockOfRows(rows, b)
  {
    var q := if b < 3 then 0 else if b < 6 then 1 else 2;
    var r, c := q * 3, (b - q * 3) * 3;
    DivMod3(b, q, b - q * 3);
    assert CellOfBlock(b, 0) == CellOfRow(r + 0, c + 0);
    assert CellOfBlock(b, 1) == CellOfRow(r + 0, c + 1);
    assert CellOfBlock(b, 2) == CellOfRow(r + 0, c + 2);
    assert CellOfBlock(b, 3) == CellOfRow(r + 1, c + 0);
    assert CellOfBlock(b, 4) == CellOfRow(r + 1, c + 1);
    assert CellOfBlock(b, 5) == CellOfRow(r + 1, c + 2);
    assert CellOfBlock(b, 6) == CellOfRow(r + 2, c + 0);
    assert CellOfBlock(b, 7) == CellOfRow(r + 2, c + 1);
    assert CellOfBlock(b, 8) == CellOfRow(r + 2, c + 2);
  }

  lemma FromRowsBlock(rows: seq<seq<u8>>, b: nat)
    requires IsRowTable(rows) && b < Blocks
    ensures BlockOf(FromRows(rows), b) == BlockOfRows(rows, b)
  {
    forall r, c | 0 <= r < GridDims && 0 <= c < GridDims ensures FromRows(rows)[CellOfRow(r, c)] == rows[r][c] {
      FromRowsCell(rows, r, c);
    }
    RowTableBlock(FromRows(rows), rows, b);
  }

  /** Each of 1..9 occurs in `s`. */
  predicate Covers(s: seq<u8>) {
    forall v: u8 | 1 <= v <= HighestSudokuNumber :: v in s
  }

  /** Nine values that cover 1..9 are a permutation of 1..9. */
  lemma CoveringGroupIsPermutation(s: seq<u8>)
    requires |s| == 9 && Covers(s)
    ensures IsDigitPermutation(s)
  {
    assert SudokuNumbers <= Elements(s);
    assert |SudokuNumbers| == 9;
    SubsetCardinality(SudokuNumbers, Elements(s));
    ElementsCardinality(s);
    SubsetOfSameSize(SudokuNumbers, Elements(s));
  }

  /** A board whose every row, column and block covers 1..9 is filled with digits and clash-free. */
  lemma CoveredBoardIsSolved(g: Board)
    requires forall n | 0 <= n < GridDims :: Covers(RowOf(g, n)) && Covers(ColOf(g, n)) && Covers(BlockOf(g, n))
    ensures NoConflicts(g)
    ensures forall k | 0 <= k < GridSize :: g[k] in SudokuNumbers
  {
    forall n | 0 <= n < GridDims
      ensures DistinctClues(RowOf(g, n)) && DistinctClues(ColOf(g, n)) && DistinctClues(BlockOf(g, n))
      ensures IsDigitPermutation(RowOf(g, n))
    {
      CoveringGroupIsPermutation(RowOf(g, n));
      CoveringGroupIsPermutation(ColOf(g, n));
      CoveringGroupIsPermutation(BlockOf(g, n));
    }
    forall k | 0 <= k < GridSize ensures g[k] in SudokuNumbers {
      RowSlotHolds(g, k);
      assert g[k] in Elements(RowOf(g, RowIndex(k)));
    }
  }

  /** Every row, column and block of the table holds each of 1..9. */
  predicate SolvedTable(rows: seq<seq<u8>>) {
    && IsRowTable(rows)
    && (forall n | 0 <= n < GridDims :: Covers(rows[n]))
    && (forall n | 0 <= n < GridDims :: Covers(ColumnOfRows(rows, n)))
    && (forall n | 0 <= n < GridDims :: Covers(BlockOfRows(rows, n)))
  }

  /** A row table whose rows, columns and blocks cover 1..9 builds a filled, clash-free board. */
  lemma CoveredTableIsSolved(rows: seq<seq<u8>>)
    requires SolvedTable(rows)
    ensures NoConflicts(FromRows(rows))
    ensures forall k | 0 <= k < GridSize :: FromRows(rows)[k] in SudokuNumbers
  {
    forall n | 0 <= n < GridDims
      ensures Covers(RowOf(FromRows(rows), n)) && Covers(ColOf(FromRows(rows), n)) && Covers(BlockOf(FromRows(rows), n))
    {
      FromRowsRow(rows, n);
      FromRowsColumn(rows, n);
      FromRowsBlock(rows, n);
    }
    CoveredBoardIsSolved(FromRows(rows));
  }

  /** Every non-zero entry of `clues` is the entry of `solution` at the same place. */
  predicate KeepsClues(clues: seq<seq<u8>>, solution: seq<seq<u8>>)
    requires IsRowTable(clues) && IsRowTable(solution)
  {
    forall r, c | 0 <= r < GridDims && 0 <= c < GridDims && clues[r][c] != 0 :: clues[r][c] == solution[r][c]
  }

  /** A solved table that keeps the clues of a puzzle table is a solution of that puzzle. */
  lemma SolvedTableCompletes(clues: seq<seq<u8>>, solution: seq<seq<u8>>)
    requires SolvedTable(solution) && IsRowTable(clues) && KeepsClues(clues, solution)
    ensures IsCompletionOf(FromRows(solution), FromRows(clues))
  {
    CoveredTableIsSolved(solution);
    forall k | 0 <= k < GridSize ensures FromRows(clues)[k] != 0 ==> FromRows(solution)[k] == FromRows(clues)[k] {
      RowCoordinates(k);
      FromRowsCell(clues, RowIndex(k), IndexInRow(k));
      FromRowsCell(solution, RowIndex(k), IndexInRow(k));
    }
  }

  /** Row `r` of `clues` is row `r` of `solution` with only its `r`-th value cleared. */
  predicate DiagonalCleared(clues: seq<seq<u8>>, solution: seq<seq<u8>>)
    requires IsRowTable(clues) && IsRowTable(solution)
  {
    forall r | 0 <= r < GridDims :: clues[r] == solution[r][r := 0]
  }

  /**
   * Two sequences that agree off position `p`, where `t` is duplicate-free
   * and `t[p]` occurs in `s`, are equal.
   */
  lemma AgreeingOffOnePosition<T>(s: seq<T>, t: seq<T>, p: nat)
    requires |s| == |t| && p < |t| && NoDup(t) && t[p] in s
    requires forall c | 0 <= c < |t| && c != p :: s[c] == t[c]
    ensures s == t
  {
    var q :| 0 <= q < |s| && s[q] == t[p];
  }

  /** Each value of a permutation of 1..9 is a digit. */
  lemma DigitPermutationHoldsDigits(s: seq<u8>, c: nat)
    requires IsDigitPermutation(s) && c < 9
    ensures s[c] in SudokuNumbers && s[c] != 0
  {
    assert s[c] in Elements(s);
  }

  /** Each digit occurs in a permutation of 1..9. */
  lemma DigitPermutationHoldsEveryDigit(s: seq<u8>, v: u8)
    requires IsDigitPermutation(s) && v in SudokuNumbers
    ensures v in s
  {
    assert v in Elements(s);
  }

  /** A solution of the board built from `clues` keeps every non-zero entry of `clues`. */
  lemma ClueKept(clues: seq<seq<u8>>, sol: Board, r: nat, c: nat)
    requires IsRowTable(clues) && r < GridDims && c < GridDims
    requires IsCompletionOf(sol, FromRows(clues))
    ensures clues[r][c] != 0 ==> RowOf(sol, r)[c] == clues[r][c]
  {
    FromRowsCell(clues, r, c);
  }

  /** A permutation of 1..9 that keeps every clue of a row with one blank is that row's solution. */
  lemma RowWithOneBlankForced(row: seq<u8>, clueRow: seq<u8>, solutionRow: seq<u8>, blank: nat)
    requires IsDigitPermutation(row) && IsDigitPermutation(solutionRow) && blank < 9
    requires clueRow == solutionRow[blank := 0]
    requires forall c | 0 <= c < 9 && clueRow[c] != 0 :: row[c] == clueRow[c]
    ensures row == solutionRow
  {
    forall c | 0 <= c < 9 && c != blank ensures row[c] == solutionRow[c] {
      DigitPermutationHoldsDigits(solutionRow, c);
      assert clueRow[c] == solutionRow[c] != 0;
    }
    DigitPermutationHoldsDigits(solutionRow, blank);
    DigitPermutationHoldsEveryDigit(row, solutionRow[blank]);
    AgreeingOffOnePosition(row, solutionRow, blank);
  }

  /** Row `r` of any solution of a puzzle whose row `r` has only its `r`-th value blank is forced. */
  lemma DiagonalRowOfSolution(clues: seq<seq<u8>>, solution: seq<seq<u8>>, sol: Board, r: nat)
    requires IsRowTable(solution) && IsRowTable(clues) && r < GridDims
    requires IsDigitPermutation(solution[r]) && clues[r] == solution[r][r := 0]
    requires IsCompletionOf(sol, FromRows(clues))
    ensures RowOf(sol, r) == solution[r]
  {
    SolvedRowIsPermutation(sol, r);
    forall c | 0 <= c < GridDims ensures clues[r][c] != 0 ==> RowOf(sol, r)[c] == clues[r][c] {
      ClueKept(clues, sol, r, c);
    }
    RowWithOneBlankForced(RowOf(sol, r), clues[r], solution[r], r);
  }

  /**
   * A puzzle whose every row misses one value of a table of permutations
   * has no other solution than that table.
   */
  lemma DiagonalClearedUnique(clues: seq<seq<u8>>, solution: seq<seq<u8>>, sol: Board)
    requires IsRowTable(solution) && IsRowTable(clues) && DiagonalCleared(clues, solution)
    requires forall r | 0 <= r < GridDims :: IsDigitPermutation(solution[r])
    requires IsCompletionOf(sol, FromRows(clues))
    ensures forall r | 0 <= r < GridDims :: RowOf(sol, r) == solution[r]
  {
    forall r | 0 <= r < GridDims ensures RowOf(sol, r) == solution[r] {
      DiagonalRowOfSolution(clues, solution, sol, r);
    }
  }

  /** The input of `solver_solves_sudoku_with_one_missing_in_each_direction`. */
  const OneMissingPuzzleRows: seq<seq<u8>> := [
    [0, 9, 4, 8, 6, 5, 2, 3, 7],
    [7, 0, 5, 4, 1, 2, 9, 6, 8],
    [8, 6, 0, 3, 9, 7, 1, 4, 5],
    [9, 2, 1, 0, 4, 8, 3, 5, 6],
    [6, 7, 8, 5, 0, 1, 4, 2, 9],
    [4, 5, 3, 9, 2, 0, 8, 7, 1],
    [3, 8, 9, 6, 5, 4, 0, 1, 2],
    [2, 4, 6, 1, 7, 9, 5, 0, 3],
    [5, 1, 7, 2, 8, 3, 6, 9, 0]
  ]

  /** The grid that test expects. */
  const OneMissingSolutionRows: seq<seq<u8>> := [
    [1, 9, 4, 8, 6, 5, 2, 3, 7],
    [7, 3, 5, 4, 1, 2, 9, 6, 8],
    [8, 6, 2, 3, 9, 7, 1, 4, 5],
    [9, 2, 1, 7, 4, 8, 3, 5, 6],
    [6, 7, 8, 5, 3, 1, 4, 2, 9],
    [4, 5, 3, 9, 2, 6, 8, 7, 1],
    [3, 8, 9, 6, 5, 4, 7, 1, 2],
    [2, 4, 6, 1, 7, 9, 5, 8, 3],
    [5, 1, 7, 2, 8, 3, 6, 9, 4]
  ]

  /** Every row and column of the expected grid holds each of 1..9. */
  lemma OneMissingSolutionLinesCover(n: nat)
    requires n < GridDims
    ensures IsRowTable(OneMissingSolutionRows)
    ensures Covers(OneMissingSolutionRows[n]) && Covers(ColumnOfRows(OneMissingSolutionRows, n))
  {
    // One empty branch per value of n: in each, n is a literal, so the
    // verifier evaluates that row, column or block of the table directly.
    if n == 0 {
    } else if n == 1 {
    } else if n == 2 {
    } else if n == 3 {
    } else if n == 4 {
    } else if n == 5 {
    } else if n == 6 {
    } else if n == 7 {
    } else {
    }
  }

  /** Every block of the expected grid holds each of 1..9. */
  lemma OneMissingSolutionBlocksCover(n: nat)
    requires n < GridDims
    ensures IsRowTable(OneMissingSolutionRows)
    ensures Covers(BlockOfRows(OneMissingSolutionRows, n))
  {
    // One empty branch per value of n: in each, n is a literal, so the
    // verifier evaluates that row, column or block of the table directly.
    if n == 0 {
    } else if n == 1 {
    } else if n == 2 {
    } else if n == 3 {
    } else if n == 4 {
    } else if n == 5 {
    } else if n == 6 {
    } else if n == 7 {
    } else {
    }
  }

  lemma OneMissingSolutionSolved()
    ensures SolvedTable(OneMissingSolutionRows)
  {
    forall n | 0 <= n < GridDims ensures Covers(OneMissingSolutionRows[n]) {
      OneMissingSolutionLinesCover(n);
    }
    forall n | 0 <= n < GridDims ensures Covers(ColumnOfRows(OneMissingSolutionRows, n)) {
      OneMissingSolutionLinesCover(n);
    }
    forall n | 0 <= n < GridDims ensures Covers(BlockOfRows(OneMissingSolutionRows, n)) {
      OneMissingSolutionBlocksCover(n);
    }
  }

  /** The input is the expected grid with its diagonal cleared. */
  lemma OneMissingPuzzleClearsDiagonal()
    ensures IsRowTable(OneMissingPuzzleRows) && IsRowTable(OneMissingSolutionRows)
    ensures DiagonalCleared(OneMissingPuzzleRows, OneMissingSolutionRows)
  {
  }

  /** The input has the expected grid as a solution, and no other. */
  lemma OneMissingPuzzleSolvable()
    ensures IsRowTable(OneMissingPuzzleRows) && IsRowTable(OneMissingSolutionRows)
    ensures IsCompletionOf(FromRows(OneMissingSolutionRows), FromRows(OneMissingPuzzleRows))
    ensures forall r | 0 <= r < GridDims :: IsDigitPermutation(OneMissingSolutionRows[r])
    ensures DiagonalCleared(OneMissingPuzzleRows, OneMissingSolutionRows)
  {
    OneMissingSolutionSolved();
    OneMissingPuzzleClearsDiagonal();
    forall r, c | 0 <= r < GridDims && 0 <= c < GridDims && OneMissingPuzzleRows[r][c] != 0
      ensures OneMissingPuzzleRows[r][c] == OneMissingSolutionRows[r][c]
    {
      assert OneMissingPuzzleRows[r] == OneMissingSolutionRows[r][r := 0];
    }
    SolvedTableCompletes(OneMissingPuzzleRows, OneMissingSolutionRows);
    forall r | 0 <= r < GridDims ensures IsDigitPermutation(OneMissingSolutionRows[r]) {
      CoveringGroupIsPermutation(OneMissingSolutionRows[r]);
    }
  }

  /**
   * `solver_solves_sudoku_with_one_missing_in_each_direction`: solving the
   * input from a fresh puzzle reports success and leaves the expected grid,
   * row by row (`RowsDetermineBoard` makes that the whole grid).
   */
  method SolveOneMissingInEachDirection() returns (result: SolveResult, grid: Board)
    ensures result == Solved
    ensures forall r | 0 <= r < GridDims :: RowOf(grid, r) == OneMissingSolutionRows[r]
  {
    OneMissingPuzzleSolvable();
    result, grid := SolveFresh(FromRows(OneMissingPuzzleRows));
    DiagonalClearedUnique(OneMissingPuzzleRows, OneMissingSolutionRows, grid);
  }

  /** The input of `solver_solves_sudoku_with_multiple_numbers_missing_in_each_direction`. */
  const MultipleMissingPuzzleRows: seq<seq<u8>> := [
    [0, 7, 0, 0, 0, 5, 0, 0, 0],
    [1, 0, 0, 0, 3, 0, 5, 0, 8],
    [0, 0, 0, 2, 0, 9, 0, 6, 0],
    [9, 1, 0, 5, 0, 0, 4, 2, 0],
    [6, 8, 0, 3, 0, 0, 0, 1, 0],
    [2, 5, 4, 0, 9, 0, 0, 0, 3],
    [7, 0, 6, 8, 0, 1, 0, 4, 0],
    [3, 4, 5, 0, 0, 6, 0, 7, 1],
    [0, 0, 1, 0, 7, 0, 2, 0, 6]
  ]

  /** The grid that test expects. */
  const MultipleMissingSolutionRows: seq<seq<u8>> := [
    [4, 7, 9, 6, 8, 5, 1, 3, 2],
    [1, 6, 2, 7, 3, 4, 5, 9, 8],
    [5, 3, 8, 2, 1, 9, 7, 6, 4],
    [9, 1, 3, 5, 6, 8, 4, 2, 7],
    [6, 8, 7, 3, 4, 2, 9, 1, 5],
    [2, 5, 4, 1, 9, 7, 6, 8, 3],
    [7, 2, 6, 8, 5, 1, 3, 4, 9],
    [3, 4, 5, 9, 2, 6, 8, 7, 1],
    [8, 9, 1, 4, 7, 3, 2, 5, 6]
  ]

  /** Every row and column of the expected grid holds each of 1..9. */
  lemma MultipleMissingSolutionLinesCover(n: nat)
    requires n < GridDims
    ensures IsRowTable(MultipleMissingSolutionRows)
    ensures Covers(MultipleMissingSolutionRows[n]) && Covers(ColumnOfRows(MultipleMissingSolutionRows, n))
  {
    // One empty branch per value of n: in each, n is a literal, so the
    // verifier evaluates that row, column or block of the table directly.
    if n == 0 {
    } else if n == 1 {
    } else if n == 2 {
    } else if n == 3 {
    } else if n == 4 {
    } else if n == 5 {
    } else if n == 6 {
    } else if n == 7 {
    } else {
    }
  }

  /** Every block of the expected grid holds each of 1..9. */
  lemma MultipleMissingSolutionBlocksCover(n: nat)
    requires n < GridDims
    ensures IsRowTable(MultipleMissingSolutionRows)
    ensures Covers(BlockOfRows(MultipleMissingSolutionRows, n))
  {
    // One empty branch per value of n: in each, n is a literal, so the
    // verifier evaluates that row, column or block of the table directly.
    if n == 0 {
    } else if n == 1 {
    } else if n == 2 {
    } else if n == 3 {
    } else if n == 4 {
    } else if n == 5 {
    } else if n == 6 {
    } else if n == 7 {
    } else {
    }
  }

  /** The expected grid keeps every clue of the input. */
  lemma MultipleMissingSolutionKeepsClues()
    ensures IsRowTable(MultipleMissingPuzzleRows) && IsRowTable(MultipleMissingSolutionRows)
    ensures KeepsClues(MultipleMissingPuzzleRows, MultipleMissingSolutionRows)
  {
  }

  /** The expected grid is a solution of the input. */
  lemma MultipleMissingPuzzleSolvable()
    ensures IsRowTable(MultipleMissingPuzzleRows) && IsRowTable(MultipleMissingSolutionRows)
    ensures IsCompletionOf(FromRows(MultipleMissingSolutionRows), FromRows(MultipleMissingPuzzleRows))
  {
    forall n | 0 <= n < GridDims ensures Covers(MultipleMissingSolutionRows[n]) {
      MultipleMissingSolutionLinesCover(n);
    }
    forall n | 0 <= n < GridDims ensures Covers(ColumnOfRows(MultipleMissingSolutionRows, n)) {
      MultipleMissingSolutionLinesCover(n);
    }
    forall n | 0 <= n < GridDims ensures Covers(BlockOfRows(MultipleMissingSolutionRows, n)) {
      MultipleMissingSolutionBlocksCover(n);
    }
    MultipleMissingSolutionKeepsClues();
    SolvedTableCompletes(MultipleMissingPuzzleRows, MultipleMissingSolutionRows);
  }

  /**
   * `solver_solves_sudoku_with_multiple_numbers_missing_in_each_direction`:
   * solving the input from a fresh puzzle reports success and leaves a
   * solution of the input.
   */
  method SolveMultipleMissingInEachDirection() returns (result: SolveResult, grid: Board)
    ensures IsRowTable(MultipleMissingPuzzleRows)
    ensures result == Solved && IsCompletionOf(grid, FromRows(MultipleMissingPuzzleRows))
  {
    MultipleMissingPuzzleSolvable();
    result, grid := SolveFresh(FromRows(MultipleMissingPuzzleRows));
  }

  /**
   * A clash-free grid without a solution: cell 0 sees 1..8 in its row and
   * 9 in its column, so it has no candidate.
   */
  const DeadEndRows: seq<seq<u8>> := [
    [0, 1, 2, 3, 4, 5, 6, 7, 8],
    [9, 0, 0, 0, 0, 0, 0, 0, 0],
    [0, 0, 0, 0, 0, 0, 0, 0, 0],
    [0, 0, 0, 0, 0, 0, 0, 0, 0],
    [0, 0, 0, 0, 0, 0, 0, 0, 0],
    [0, 0, 0, 0, 0, 0, 0, 0, 0],
    [0, 0, 0, 0, 0, 0, 0, 0, 0],
    [0, 0, 0, 0, 0, 0, 0, 0, 0],
    [0, 0, 0, 0, 0, 0, 0, 0, 0]
  ]

  /** A table whose rows, columns and blocks repeat no non-zero value builds a clash-free board. */
  lemma TableWithoutClashes(rows: seq<seq<u8>>)
    requires IsRowTable(rows)
    requires forall n | 0 <= n < GridDims :: DistinctClues(rows[n])
    requires forall n | 0 <= n < GridDims :: DistinctClues(ColumnOfRows(rows, n))
    requires forall n | 0 <= n < GridDims :: DistinctClues(BlockOfRows(rows, n))
    ensures NoConflicts(FromRows(rows))
  {
    forall n | 0 <= n < GridDims
      ensures DistinctClues(RowOf(FromRows(rows), n))
      ensures DistinctClues(ColOf(FromRows(rows), n))
      ensures DistinctClues(BlockOf(FromRows(rows), n))
    {
      FromRowsRow(rows, n);
      FromRowsColumn(rows, n);
      FromRowsBlock(rows, n);
    }
  }

  lemma DeadEndLinesDistinct(n: nat)
    requires n < GridDims
    ensures IsRowTable(DeadEndRows)
    ensures DistinctClues(DeadEndRows[n]) && DistinctClues(ColumnOfRows(DeadEndRows, n))
  {
    // One empty branch per value of n: in each, n is a literal, so the
    // verifier evaluates that row, column or block of the table directly.
    if n == 0 {
    } else if n == 1 {
    } else if n == 2 {
    } else if n == 3 {
    } else if n == 4 {
    } else if n == 5 {
    } else if n == 6 {
    } else if n == 7 {
    } else {
    }
  }

  lemma DeadEndBlocksDistinct(n: nat)
    requires n < GridDims
    ensures IsRowTable(DeadEndRows)
    ensures DistinctClues(BlockOfRows(DeadEndRows, n))
  {
    // One empty branch per value of n: in each, n is a literal, so the
    // verifier evaluates that row, column or block of the table directly.
    if n == 0 {
    } else if n == 1 {
    } else if n == 2 {
    } else if n == 3 {
    } else if n == 4 {
    } else if n == 5 {
    } else if n == 6 {
    } else if n == 7 {
    } else {
    }
  }

  /** A table holding only digits and blanks builds a board of digits and blanks. */
  lemma TableOfDigits(rows: seq<seq<u8>>)
    requires IsRowTable(rows)
    requires forall r, c | 0 <= r < GridDims && 0 <= c < GridDims :: rows[r][c] <= 9
    ensures CluesAreDigits(FromRows(rows))
  {
    forall k | 0 <= k < GridSize ensures FromRows(rows)[k] <= 9 {
      RowCoordinates(k);
      FromRowsCell(rows, RowIndex(k), IndexInRow(k));
    }
  }

  /**
   * When every digit appears in row 0 or column 0 of the table, the cell in
   * the top-left corner has no candidate.
   */
  lemma CornerWithoutCandidate(rows: seq<seq<u8>>)
    requires IsRowTable(rows)
    requires forall v | v in SudokuNumbers :: v in rows[0] || v in ColumnOfRows(rows, 0)
    ensures CandidateSet(FromRows(rows), 0) == {}
  {
    FromRowsRow(rows, 0);
    FromRowsColumn(rows, 0);
  }

  lemma DeadEndCornerCovered()
    ensures IsRowTable(DeadEndRows) && DeadEndRows[0][0] == 0
    ensures forall v | v in SudokuNumbers :: v in DeadEndRows[0] || v in ColumnOfRows(DeadEndRows, 0)
  {
    var top := DeadEndRows[0];
    var left := ColumnOfRows(DeadEndRows, 0);
    assert top == [0, 1, 2, 3, 4, 5, 6, 7, 8];
    assert left[1] == 9;
    forall v | v in SudokuNumbers ensures v in top || v in left {
      if v < 9 {
        assert top[v] == v;
      }
    }
  }

  /** The dead-end grid is clash-free, holds digits only and has no solution. */
  lemma DeadEndHasNoSolution()
    ensures IsRowTable(DeadEndRows)
    ensures NoConflicts(FromRows(DeadEndRows)) && CluesAreDigits(FromRows(DeadEndRows))
    ensures !HasCompletion(FromRows(DeadEndRows))
  {
    forall n | 0 <= n < GridDims ensures DistinctClues(DeadEndRows[n]) {
      DeadEndLinesDistinct(n);
    }
    forall n | 0 <= n < GridDims ensures DistinctClues(ColumnOfRows(DeadEndRows, n)) {
      DeadEndLinesDistinct(n);
    }
    forall n | 0 <= n < GridDims ensures DistinctClues(BlockOfRows(DeadEndRows, n)) {
      DeadEndBlocksDistinct(n);
    }
    TableWithoutClashes(DeadEndRows);
    TableOfDigits(DeadEndRows);
    DeadEndCornerCovered();
    CornerWithoutCandidate(DeadEndRows);
    FromRowsCell(DeadEndRows, 0, 0);
    var g := FromRows(DeadEndRows);
    if HasCompletion(g) {
      var sol :| IsCompletionOf(sol, g);
      CompletionValueIsCandidate(sol, g, 0);
      assert false;
    }
  }

  /**
   * The outermost `solve` on a fresh puzzle without a solution panics in
   * its final undo instead of returning `false`.
   */
  method UnsolvableFreshPuzzlePanics() returns (result: SolveResult, grid: Board)
    ensures result == StackUnderflow
  {
    DeadEndHasNoSolution();
    result, grid := SolveFresh(FromRows(DeadEndRows));
  }

  /** With failed guesses undone by the loop, the same puzzle makes `solve` return `false` untouched. */
  method UnsolvableFreshPuzzleFails() returns (solved: bool, grid: Board)
    ensures IsRowTable(DeadEndRows)
    ensures !solved && grid == FromRows(DeadEndRows)
  {
    DeadEndHasNoSolution();
    solved, grid := SolveFreshRestoring(FromRows(DeadEndRows));
  }
}
