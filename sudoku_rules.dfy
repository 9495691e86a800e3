/**
 * The rules of Sudoku stated on a board value: the three groups a cell belongs
 * to, the candidate values of a cell, the absence of clashes, and the boards
 * that complete a partial board.  The puzzle class and the solver are proved
 * against these definitions.
 */
module SudokuRules {
  import opened Types
  import opened SudokuIndex

  /** The 81 row-major cell values of a board; 0 marks an unfilled cell. */
  type Board = g: seq<u8> | |g| == GridSize witness seq(GridSize, _ => 0)

  const HighestSudokuNumber: u8 := 9

  /** The values a filled cell may hold, 1..9. */
  const SudokuNumbers: set<u8> := {1, 2, 3, 4, 5, 6, 7, 8, 9}

  /** The nine values of row `row`, in column order. */
  function RowOf(g: Board, row: nat): (s: seq<u8>)
    requires row < GridDims
    ensures |s| == GridDims
    ensures forall k | 0 <= k < GridDims :: s[k] == g[CellOfRow(row, k)]
  {
    var b := row * 9;
    [g[b], g[b + 1], g[b + 2], g[b + 3], g[b + 4], g[b + 5], g[b + 6], g[b + 7], g[b + 8]]
  }

  /** The nine values of column `col`, in row order. */
  function ColOf(g: Board, col: nat): (s: seq<u8>)
    requires col < GridDims
    ensures |s| == GridDims
    ensures forall k | 0 <= k < GridDims :: s[k] == g[CellOfColumn(col, k)]
  {
    [g[col], g[col + 9], g[col + 18], g[col + 27], g[col + 36], g[col + 45], g[col + 54], g[col + 63], g[col + 72]]
  }

  /** The nine values of block `block`, row by row within the block. */
  function BlockOf(g: Board, block: nat): (s: seq<u8>)
    requires block < Blocks
    ensures |s| == BlockSize
    ensures forall k | 0 <= k < BlockSize :: s[k] == g[CellOfBlock(block, k)]
  {
    var b := (block / 3) * 27 + (block % 3) * 3;
    [g[b], g[b + 1], g[b + 2], g[b + 9], g[b + 10], g[b + 11], g[b + 18], g[b + 19], g[b + 20]]
  }

  /** Cells `i` and `j` share a row, a column or a block. */
  predicate SameGroup(i: nat, j: nat) {
    RowIndex(i) == RowIndex(j) || ColumnIndex(i) == ColumnIndex(j) || BlockIndex(i) == BlockIndex(j)
  }

  /**
   * The legal values for cell `index`: 1..9 minus every value seen in the
   * cell's row, column and block (the cell's own value included).
   */
  function CandidateSet(g: Board, index: nat): set<u8>
    requires index < GridSize
  {
    set v | v in SudokuNumbers
      && v !in RowOf(g, RowIndex(index))
      && v !in ColOf(g, ColumnIndex(index))
      && v !in BlockOf(g, BlockIndex(index))
  }

  /** Cell `j` is found in its row at its own position. */
  lemma RowSlotHolds(g: Board, j: nat)
    requires j < GridSize
    ensures RowIndex(j) < GridDims && IndexInRow(j) < GridDims
    ensures RowOf(g, RowIndex(j))[IndexInRow(j)] == g[j]
    ensures CellOfRow(RowIndex(j), IndexInRow(j)) == j
  {
    RowCoordinates(j);
  }

  /** A value occurs in a row exactly when some cell of that row holds it. */
  lemma InRowOf(g: Board, row: nat, v: u8)
    requires row < GridDims
    ensures v in RowOf(g, row) <==> exists j | 0 <= j < GridSize :: RowIndex(j) == row && g[j] == v
  {
    if v in RowOf(g, row) {
      var k :| 0 <= k < GridDims && RowOf(g, row)[k] == v;
      CellInRow(row, k);
    } else {
      forall j | 0 <= j < GridSize && RowIndex(j) == row ensures g[j] != v {
        RowSlotHolds(g, j);
      }
    }
  }

  /** Cell `j` is found in its column at its own position. */
  lemma ColumnSlotHolds(g: Board, j: nat)
    requires j < GridSize
    ensures ColumnIndex(j) < GridDims && IndexInColumn(j) < GridDims
    ensures ColOf(g, ColumnIndex(j))[IndexInColumn(j)] == g[j]
    ensures CellOfColumn(ColumnIndex(j), IndexInColumn(j)) == j
  {
    ColumnCoordinates(j);
  }

  /** A value occurs in a column exactly when some cell of that column holds it. */
  lemma InColOf(g: Board, col: nat, v: u8)
    requires col < GridDims
    ensures v in ColOf(g, col) <==> exists j | 0 <= j < GridSize :: ColumnIndex(j) == col && g[j] == v
  {
    if v in ColOf(g, col) {
      var k :| 0 <= k < GridDims && ColOf(g, col)[k] == v;
      CellInColumn(col, k);
    } else {
      forall j | 0 <= j < GridSize && ColumnIndex(j) == col ensures g[j] != v {
        ColumnSlotHolds(g, j);
      }
    }
  }

  /** Cell `j` is found in its block at its own position. */
  lemma BlockSlotHolds(g: Board, j: nat)
    requires j < GridSize
    ensures BlockIndex(j) < Blocks && IndexInBlock(j) < BlockSize
    ensures BlockOf(g, BlockIndex(j))[IndexInBlock(j)] == g[j]
    ensures CellOfBlock(BlockIndex(j), IndexInBlock(j)) == j
  {
    BlockCoordinates(j);
  }

  /** A value occurs in a block exactly when some cell of that block holds it. */
  lemma InBlockOf(g: Board, block: nat, v: u8)
    requires block < Blocks
    ensures v in BlockOf(g, block) <==> exists j | 0 <= j < GridSize :: BlockIndex(j) == block && g[j] == v
  {
    if v in BlockOf(g, block) {
      var k :| 0 <= k < BlockSize && BlockOf(g, block)[k] == v;
      CellInBlock(block, k);
    } else {
      forall j | 0 <= j < GridSize && BlockIndex(j) == block ensures g[j] != v {
        BlockSlotHolds(g, j);
      }
    }
  }

  /** A value is a candidate exactly when it is in 1..9 and no cell sharing a group holds it. */
  lemma CandidateIffNoPeerHolds(g: Board, index: nat, v: u8)
    requires index < GridSize
    ensures v in CandidateSet(g, index) <==>
      v in SudokuNumbers && forall j | 0 <= j < GridSize && SameGroup(index, j) :: g[j] != v
  {
    InRowOf(g, RowIndex(index), v);
    InColOf(g, ColumnIndex(index), v);
    InBlockOf(g, BlockIndex(index), v);
  }

  /** The candidates are the values 1..9 not among the non-zero values of the three groups together. */
  lemma CandidatesAreUnseenNumbers(g: Board, index: nat)
    requires index < GridSize
    ensures CandidateSet(g, index) == set v: u8 | 1 <= v <= 9 &&
      v !in Elements(RowOf(g, RowIndex(index)) + ColOf(g, ColumnIndex(index)) + BlockOf(g, BlockIndex(index))) - {0}
  {
    var row, col, block := RowOf(g, RowIndex(index)), ColOf(g, ColumnIndex(index)), BlockOf(g, BlockIndex(index));
    assert forall v :: v in row + col + block <==> v in row || v in col || v in block;
  }

  /** Zeros and values outside 1..9 in a cell's groups do not change its candidates. */
  lemma CandidatesIgnoreNonDigits(g: Board, h: Board, index: nat)
    requires index < GridSize
    requires forall k | 0 <= k < GridSize :: g[k] in SudokuNumbers || h[k] in SudokuNumbers ==> g[k] == h[k]
    ensures CandidateSet(g, index) == CandidateSet(h, index)
  {
    forall v ensures v in CandidateSet(g, index) <==> v in CandidateSet(h, index) {
      CandidateIffNoPeerHolds(g, index, v);
      CandidateIffNoPeerHolds(h, index, v);
    }
  }

  /** No value other than 0 occurs twice in `s`. */
  predicate DistinctClues(s: seq<u8>) {
    forall a, b | 0 <= a < |s| && 0 <= b < |s| && a != b && s[a] != 0 :: s[a] != s[b]
  }

  /** No row, column or block holds a non-zero value twice. */
  predicate NoConflicts(g: Board) {
    forall n | 0 <= n < GridDims ::
      DistinctClues(RowOf(g, n)) && DistinctClues(ColOf(g, n)) && DistinctClues(BlockOf(g, n))
  }

  /** No two distinct cells of one group hold the same non-zero value. */
  predicate PeersDistinct(g: Board) {
    forall i, j | 0 <= i < GridSize && 0 <= j < GridSize :: NoClashBetween(g, i, j)
  }

  /** Cells `i` and `j`, if distinct peers, do not hold the same non-zero value. */
  predicate NoClashBetween(g: Board, i: nat, j: nat)
    requires i < GridSize && j < GridSize
  {
    i != j && SameGroup(i, j) && g[i] != 0 ==> g[i] != g[j]
  }

  /** On a clash-free board two distinct cells of one row never hold the same non-zero value. */
  lemma RowPeersOfConflictFreeBoard(g: Board, i: nat, j: nat)
    requires NoConflicts(g) && i < GridSize && j < GridSize && i != j && RowIndex(i) == RowIndex(j)
    ensures g[i] == 0 || g[i] != g[j]
  {
    RowSlotHolds(g, i);
    RowSlotHolds(g, j);
    assert DistinctClues(RowOf(g, RowIndex(i)));
  }

  /** If no two peers clash, no value repeats in a row. */
  lemma RowOfPeersDistinctBoard(g: Board, n: nat)
    requires PeersDistinct(g) && n < GridDims
    ensures DistinctClues(RowOf(g, n))
  {
    forall a, b | 0 <= a < GridDims && 0 <= b < GridDims && a != b
      ensures RowOf(g, n)[a] != 0 ==> RowOf(g, n)[a] != RowOf(g, n)[b]
    {
      CellInRow(n, a);
      CellInRow(n, b);
      assert SameGroup(CellOfRow(n, a), CellOfRow(n, b)) && NoClashBetween(g, CellOfRow(n, a), CellOfRow(n, b));
    }
  }

  /** On a clash-free board two distinct cells of one column never hold the same non-zero value. */
  lemma ColumnPeersOfConflictFreeBoard(g: Board, i: nat, j: nat)
    requires NoConflicts(g) && i < GridSize && j < GridSize && i != j && ColumnIndex(i) == ColumnIndex(j)
    ensures g[i] == 0 || g[i] != g[j]
  {
    ColumnSlotHolds(g, i);
    ColumnSlotHolds(g, j);
    assert DistinctClues(ColOf(g, ColumnIndex(i)));
  }

  /** If no two peers clash, no value repeats in a column. */
  lemma ColumnOfPeersDistinctBoard(g: Board, n: nat)
    requires PeersDistinct(g) && n < GridDims
    ensures DistinctClues(ColOf(g, n))
  {
    forall a, b | 0 <= a < GridDims && 0 <= b < GridDims && a != b
      ensures ColOf(g, n)[a] != 0 ==> ColOf(g, n)[a] != ColOf(g, n)[b]
    {
      CellInColumn(n, a);
      CellInColumn(n, b);
      assert SameGroup(CellOfColumn(n, a), CellOfColumn(n, b)) && NoClashBetween(g, CellOfColumn(n, a), CellOfColumn(n, b));
    }
  }

  /** On a clash-free board two distinct cells of one block never hold the same non-zero value. */
  lemma BlockPeersOfConflictFreeBoard(g: Board, i: nat, j: nat)
    requires NoConflicts(g) && i < GridSize && j < GridSize && i != j && BlockIndex(i) == BlockIndex(j)
    ensures g[i] == 0 || g[i] != g[j]
  {
    BlockSlotHolds(g, i);
    BlockSlotHolds(g, j);
    assert DistinctClues(BlockOf(g, BlockIndex(i)));
  }

  /** If no two peers clash, no value repeats in a block. */
  lemma BlockOfPeersDistinctBoard(g: Board, n: nat)
    requires PeersDistinct(g) && n < Blocks
    ensures DistinctClues(BlockOf(g, n))
  {
    forall a, b | 0 <= a < BlockSize && 0 <= b < BlockSize && a != b
      ensures BlockOf(g, n)[a] != 0 ==> BlockOf(g, n)[a] != BlockOf(g, n)[b]
    {
      CellInBlock(n, a);
      CellInBlock(n, b);
      assert SameGroup(CellOfBlock(n, a), CellOfBlock(n, b)) && NoClashBetween(g, CellOfBlock(n, a), CellOfBlock(n, b));
    }
  }

  /** On a clash-free board two distinct cells of one group never hold the same non-zero value. */
  lemma PeersOfConflictFreeBoard(g: Board, i: nat, j: nat)
    requires NoConflicts(g) && i < GridSize && j < GridSize && i != j && SameGroup(i, j)
    ensures g[i] == 0 || g[i] != g[j]
  {
    if RowIndex(i) == RowIndex(j) {
      RowPeersOfConflictFreeBoard(g, i, j);
    } else if ColumnIndex(i) == ColumnIndex(j) {
      ColumnPeersOfConflictFreeBoard(g, i, j);
    } else {
      BlockPeersOfConflictFreeBoard(g, i, j);
    }
  }

  /** The group form and the peer form of "no clash" agree. */
  lemma NoConflictsIffPeersDistinct(g: Board)
    ensures NoConflicts(g) <==> PeersDistinct(g)
  {
    if NoConflicts(g) {
      forall i, j | 0 <= i < GridSize && 0 <= j < GridSize ensures NoClashBetween(g, i, j) {
        if i != j && SameGroup(i, j) {
          PeersOfConflictFreeBoard(g, i, j);
        }
      }
    }
    if PeersDistinct(g) {
      forall n | 0 <= n < GridDims
        ensures DistinctClues(RowOf(g, n)) && DistinctClues(ColOf(g, n)) && DistinctClues(BlockOf(g, n))
      {
        RowOfPeersDistinctBoard(g, n);
        ColumnOfPeersDistinctBoard(g, n);
        BlockOfPeersDistinctBoard(g, n);
      }
    }
  }

  /** Writing a candidate into a cell cannot create a clash. */
  lemma LegalWriteKeepsNoConflicts(g: Board, index: nat, v: u8)
    requires index < GridSize && v in CandidateSet(g, index) && NoConflicts(g)
    ensures NoConflicts(g[index := v])
  {
    var h := g[index := v];
    NoConflictsIffPeersDistinct(g);
    CandidateIffNoPeerHolds(g, index, v);
    forall i, j | 0 <= i < GridSize && 0 <= j < GridSize ensures NoClashBetween(h, i, j) {
      if i != j && SameGroup(i, j) && h[i] != 0 {
        if i == index {
          assert g[j] != v;
        } else if j == index {
          assert SameGroup(index, i);
          assert g[i] != v;
        } else {
          assert NoClashBetween(g, i, j);
        }
      }
    }
    NoConflictsIffPeersDistinct(h);
  }

  /** `s` holds each of 1..9 exactly once. */
  predicate IsDigitPermutation(s: seq<u8>) {
    |s| == 9 && NoDup(s) && Elements(s) == SudokuNumbers
  }

  lemma GroupIsDigitPermutation(s: seq<u8>)
    requires |s| == 9 && DistinctClues(s)
    requires forall k | 0 <= k < |s| :: s[k] in SudokuNumbers
    ensures IsDigitPermutation(s)
  {
    assert NoDup(s);
    NoDupCardinality(s);
    assert |SudokuNumbers| == 9;
    SubsetOfSameSize(Elements(s), SudokuNumbers);
  }

  /** On a filled, clash-free board with values in 1..9 every group is a permutation of 1..9. */
  lemma SolvedGroupsArePermutations(g: Board)
    requires forall k | 0 <= k < GridSize :: g[k] in SudokuNumbers
    requires NoConflicts(g)
    ensures forall n | 0 <= n < GridDims ::
      IsDigitPermutation(RowOf(g, n)) && IsDigitPermutation(ColOf(g, n)) && IsDigitPermutation(BlockOf(g, n))
  {
    forall n | 0 <= n < GridDims
      ensures IsDigitPermutation(RowOf(g, n)) && IsDigitPermutation(ColOf(g, n)) && IsDigitPermutation(BlockOf(g, n))
    {
      SolvedRowIsPermutation(g, n);
      SolvedColumnIsPermutation(g, n);
      SolvedBlockIsPermutation(g, n);
    }
  }

  lemma SolvedRowIsPermutation(g: Board, n: nat)
    requires forall k | 0 <= k < GridSize :: g[k] in SudokuNumbers
    requires NoConflicts(g) && n < GridDims
    ensures IsDigitPermutation(RowOf(g, n))
  {
    var s := RowOf(g, n);
    forall k | 0 <= k < |s| ensures s[k] in SudokuNumbers {
      CellInRow(n, k);
    }
    GroupIsDigitPermutation(s);
  }

  lemma SolvedColumnIsPermutation(g: Board, n: nat)
    requires forall k | 0 <= k < GridSize :: g[k] in SudokuNumbers
    requires NoConflicts(g) && n < GridDims
    ensures IsDigitPermutation(ColOf(g, n))
  {
    var s := ColOf(g, n);
    forall k | 0 <= k < |s| ensures s[k] in SudokuNumbers {
      CellInColumn(n, k);
    }
    GroupIsDigitPermutation(s);
  }

  lemma SolvedBlockIsPermutation(g: Board, n: nat)
    requires forall k | 0 <= k < GridSize :: g[k] in SudokuNumbers
    requires NoConflicts(g) && n < Blocks
    ensures IsDigitPermutation(BlockOf(g, n))
  {
    var s := BlockOf(g, n);
    forall k | 0 <= k < |s| ensures s[k] in SudokuNumbers {
      CellInBlock(n, k);
    }
    GroupIsDigitPermutation(s);
  }

  /** `sol` is a solution that keeps every non-zero cell of `g`. */
  ghost predicate IsCompletionOf(sol: Board, g: Board) {
    && (forall k | 0 <= k < GridSize :: sol[k] in SudokuNumbers && (g[k] != 0 ==> sol[k] == g[k]))
    && NoConflicts(sol)
  }

  ghost predicate HasCompletion(g: Board) {
    exists sol: Board :: IsCompletionOf(sol, g)
  }

  /** A solution's value at an unfilled cell is one of that cell's candidates. */
  lemma CompletionValueIsCandidate(sol: Board, g: Board, index: nat)
    requires IsCompletionOf(sol, g) && index < GridSize && g[index] == 0
    ensures sol[index] in CandidateSet(g, index)
  {
    CompletionAvoidsClues(sol, g, index);
    CandidateIffNoPeerHolds(g, index, sol[index]);
  }

  /** No clue in the group of an unfilled cell equals a solution's value there. */
  lemma CompletionAvoidsClues(sol: Board, g: Board, index: nat)
    requires IsCompletionOf(sol, g) && index < GridSize && g[index] == 0
    ensures forall j | 0 <= j < GridSize && SameGroup(index, j) :: g[j] != sol[index]
  {
    forall j | 0 <= j < GridSize && SameGroup(index, j) ensures g[j] != sol[index] {
      if j == index {
        assert sol[index] in SudokuNumbers;
      } else if g[j] != 0 {
        assert sol[j] == g[j];
        PeersOfConflictFreeBoard(sol, index, j);
      }
    }
  }

  /** Filling a cell with its only candidate excludes no solution. */
  lemma ForcedValueKeepsCompletion(sol: Board, g: Board, index: nat, v: u8)
    requires IsCompletionOf(sol, g) && index < GridSize && g[index] == 0
    requires CandidateSet(g, index) == {v}
    ensures IsCompletionOf(sol, g[index := v])
  {
    CompletionValueIsCandidate(sol, g, index);
  }

  /** Guessing a solution's own value at an unfilled cell keeps that solution. */
  lemma GuessKeepsCompletion(sol: Board, g: Board, index: nat)
    requires IsCompletionOf(sol, g) && index < GridSize && g[index] == 0
    ensures sol[index] in CandidateSet(g, index)
    ensures IsCompletionOf(sol, g[index := sol[index]]) && HasCompletion(g[index := sol[index]])
  {
    CompletionValueIsCandidate(sol, g, index);
    assert IsCompletionOf(sol, g[index := sol[index]]);
  }

  /** If no candidate of an unfilled cell leads to a solution, there is none. */
  lemma NoCompletionWhenEveryGuessFails(g: Board, index: nat)
    requires index < GridSize && g[index] == 0
    requires forall v | v in CandidateSet(g, index) :: !HasCompletion(g[index := v])
    ensures !HasCompletion(g)
  {
    if sol :| IsCompletionOf(sol, g) {
      GuessKeepsCompletion(sol, g, index);
      assert false;
    }
  }

  /** A board that some solution extends has no clash of its own. */
  lemma CompletableBoardHasNoConflicts(sol: Board, g: Board)
    requires IsCompletionOf(sol, g)
    ensures NoConflicts(g)
  {
    NoConflictsIffPeersDistinct(sol);
    forall i, j | 0 <= i < GridSize && 0 <= j < GridSize ensures NoClashBetween(g, i, j) {
      assert NoClashBetween(sol, i, j);
    }
    NoConflictsIffPeersDistinct(g);
  }

  /** The indices of the unfilled cells. */
  function ZeroSet(g: Board): set<nat> {
    set i | 0 <= i < GridSize && g[i] == 0
  }

  /** Every unfilled cell has either no candidate or several. */
  predicate AtFixedPoint(g: Board) {
    forall k {:trigger Unforced(g, k)} | 0 <= k < GridSize && g[k] == 0 :: Unforced(g, k)
  }

  /** Cell `index` has no candidate or more than one. */
  predicate Unforced(g: Board, index: nat)
    requires index < GridSize
  {
    |CandidateSet(g, index)| != 1
  }

  /** `g` with every cell listed in `cells` reset to 0, last entry first. */
  function ClearCells(g: Board, cells: seq<nat>): Board
    requires forall k | 0 <= k < |cells| :: cells[k] < GridSize
    decreases |cells|
  {
    if cells == [] then g
    else ClearCells(g[cells[|cells| - 1] := 0], cells[..|cells| - 1])
  }

  /** Clearing `cells` zeroes exactly the listed cells and keeps every other one. */
  lemma {:induction false} ClearCellsValues(g: Board, cells: seq<nat>)
    requires forall k | 0 <= k < |cells| :: cells[k] < GridSize
    ensures forall j | 0 <= j < GridSize :: ClearCells(g, cells)[j] == if j in cells then 0 else g[j]
    decreases |cells|
  {
    if cells != [] {
      var last, rest := cells[|cells| - 1], cells[..|cells| - 1];
      ClearCellsValues(g[last := 0], rest);
      assert cells == rest + [last];
      assert forall j | 0 <= j < GridSize :: j in cells <==> j == last || j in rest;
    }
  }

  /** Clearing `x` and then `cells` is clearing `cells` and then `x`. */
  lemma ClearCellsFront(g: Board, x: nat, cells: seq<nat>)
    requires x < GridSize && forall k | 0 <= k < |cells| :: cells[k] < GridSize
    ensures ClearCells(g, [x] + cells) == ClearCells(g, cells)[x := 0]
  {
    var a, b := ClearCells(g, [x] + cells), ClearCells(g, cells)[x := 0];
    ClearCellsValues(g, [x] + cells);
    ClearCellsValues(g, cells);
    forall j | 0 <= j < GridSize ensures a[j] == b[j] {
      assert j in [x] + cells <==> j == x || j in cells;
    }
  }
}
