/**
 * The puzzle state: the 81 cells in row-major order together with three
 * redundant views of them (nine rows, nine columns, nine 3x3 blocks) that are
 * kept in step on every write, and the stack of cells written so far, which
 * allows moves to be taken back.
 */
module SudokuGrid {
  import opened Types
  import opened SudokuIndex
  import opened SudokuRules

  /** Every cell of `s` is filled (`is_solved`'s `all`). */
  function AllNonZero(s: seq<u8>): (b: bool)
    ensures b <==> forall k | 0 <= k < |s| :: s[k] != 0
  {
    if s == [] then true else s[0] != 0 && AllNonZero(s[1..])
  }

  /** The position of the first unfilled cell of `s`, if any (`position`). */
  function FirstZero(s: seq<u8>): (r: Option<nat>)
    ensures r.None? <==> forall k | 0 <= k < |s| :: s[k] != 0
    ensures r.Some? ==> r.value < |s| && s[r.value] == 0 && forall k | 0 <= k < r.value :: s[k] != 0
  {
    if s == [] then None
    else if s[0] == 0 then Some(0)
    else match FirstZero(s[1..]) {
      case None => None
      case Some(k) => Some(k + 1)
    }
  }

  /** The positions of the unfilled cells of `s`, in increasing order (`enumerate` / `filter`). */
  function ZeroIndices(s: seq<u8>): (r: seq<nat>)
    ensures forall k | 0 <= k < |r| :: r[k] < |s| && s[r[k]] == 0
    ensures forall a, b | 0 <= a < b < |r| :: r[a] < r[b]
    ensures forall j | 0 <= j < |s| && s[j] == 0 :: j in r
  {
    if s == [] then []
    else
      var init := ZeroIndices(s[..|s| - 1]);
      assert forall j | 0 <= j < |s| - 1 :: s[..|s| - 1][j] == s[j];
      if s[|s| - 1] == 0 then init + [|s| - 1] else init
  }

  /** The values `from` to 9 that are not in `seen`, in increasing order. */
  function NumbersNotIn(seen: set<u8>, from: nat): (r: seq<u8>)
    requires 1 <= from <= 10
    ensures NoDup(r)
    ensures forall k | 0 <= k < |r| :: from <= r[k] <= 9
    ensures Elements(r) == set v: u8 | from <= v <= 9 && v !in seen
    decreases 10 - from
  {
    if from == 10 then []
    else
      var rest := NumbersNotIn(seen, from + 1);
      var v: u8 := from as u8;
      assert (set x: u8 | from <= x <= 9 && x !in seen)
        == (if v in seen then {} else {v}) + (set x: u8 | from + 1 <= x <= 9 && x !in seen);
      assert Elements([v] + rest) == {v} + Elements(rest);
      if v in seen then rest else [v] + rest
  }

  /** Each view slot holds the value of the grid cell it stands for. */
  ghost predicate RowsMatch(g: seq<u8>, rows: array2<u8>)
    requires |g| == GridSize && rows.Length0 == GridDims && rows.Length1 == GridDims
    reads rows
  {
    forall r, c | 0 <= r < GridDims && 0 <= c < GridDims :: rows[r, c] == g[CellOfRow(r, c)]
  }

  ghost predicate ColsMatch(g: seq<u8>, cols: array2<u8>)
    requires |g| == GridSize && cols.Length0 == GridDims && cols.Length1 == GridDims
    reads cols
  {
    forall c, r | 0 <= c < GridDims && 0 <= r < GridDims :: cols[c, r] == g[CellOfColumn(c, r)]
  }

  ghost predicate BlocksMatch(g: seq<u8>, blocks: array2<u8>)
    requires |g| == GridSize && blocks.Length0 == Blocks && blocks.Length1 == BlockSize
    reads blocks
  {
    forall b, k | 0 <= b < Blocks && 0 <= k < BlockSize :: blocks[b, k] == g[CellOfBlock(b, k)]
  }

  /** A view that holds every cell at that cell's own slot matches the grid. */
  lemma RowsFromCells(g: Board, rows: array2<u8>)
    requires rows.Length0 == GridDims && rows.Length1 == GridDims
    requires forall j | 0 <= j < GridSize :: rows[RowIndex(j), IndexInRow(j)] == g[j]
    ensures RowsMatch(g, rows)
  {
    forall r, c | 0 <= r < GridDims && 0 <= c < GridDims ensures rows[r, c] == g[CellOfRow(r, c)] {
      CellInRow(r, c);
    }
  }

  /** `get_rows_from_grid`: the nine rows of `g`. */
  method RowsFromGrid(g: Board) returns (rows: array2<u8>)
    ensures fresh(rows) && rows.Length0 == GridDims && rows.Length1 == GridDims
    ensures RowsMatch(g, rows)
  {
    rows := new u8[GridDims, GridDims]((_, _) => 0);
    for i := 0 to GridSize
      invariant forall j | 0 <= j < i :: rows[RowIndex(j), IndexInRow(j)] == g[j]
    {
      forall j | 0 <= j < i ensures RowIndex(j) != RowIndex(i) || IndexInRow(j) != IndexInRow(i) {
        RowSlotsDistinct(j, i);
      }
      rows[RowIndex(i), IndexInRow(i)] := g[i];
    }
    RowsFromCells(g, rows);
  }

  /** A view that holds every cell at that cell's own slot matches the grid. */
  lemma BlocksFromCells(g: Board, blocks: array2<u8>)
    requires blocks.Length0 == Blocks && blocks.Length1 == BlockSize
    requires forall j | 0 <= j < GridSize :: blocks[BlockIndex(j), IndexInBlock(j)] == g[j]
    ensures BlocksMatch(g, blocks)
  {
    forall b, k | 0 <= b < Blocks && 0 <= k < BlockSize ensures blocks[b, k] == g[CellOfBlock(b, k)] {
      CellInBlock(b, k);
    }
  }

  /** `get_blocks_from_grid`: the nine blocks of `g`. */
  method BlocksFromGrid(g: Board) returns (blocks: array2<u8>)
    ensures fresh(blocks) && blocks.Length0 == Blocks && blocks.Length1 == BlockSize
    ensures BlocksMatch(g, blocks)
  {
    blocks := new u8[Blocks, BlockSize]((_, _) => 0);
    for i := 0 to GridSize
      invariant forall j | 0 <= j < i :: blocks[BlockIndex(j), IndexInBlock(j)] == g[j]
    {
      forall j | 0 <= j < i ensures BlockIndex(j) != BlockIndex(i) || IndexInBlock(j) != IndexInBlock(i) {
        BlockSlotsDistinct(j, i);
      }
      blocks[BlockIndex(i), IndexInBlock(i)] := g[i];
    }
    BlocksFromCells(g, blocks);
  }

  /** A view that holds every cell at that cell's own slot matches the grid. */
  lemma ColsFromCells(g: Board, cols: array2<u8>)
    requires cols.Length0 == GridDims && cols.Length1 == GridDims
    requires forall j | 0 <= j < GridSize :: cols[ColumnIndex(j), IndexInColumn(j)] == g[j]
    ensures ColsMatch(g, cols)
  {
    forall c, r | 0 <= c < GridDims && 0 <= r < GridDims ensures cols[c, r] == g[CellOfColumn(c, r)] {
      CellInColumn(c, r);
    }
  }

  /** `get_cols_from_grid`: the nine columns of `g`. */
  method ColsFromGrid(g: Board) returns (cols: array2<u8>)
    ensures fresh(cols) && cols.Length0 == GridDims && cols.Length1 == GridDims
    ensures ColsMatch(g, cols)
  {
    cols := new u8[GridDims, GridDims]((_, _) => 0);
    for i := 0 to GridSize
      invariant forall j | 0 <= j < i :: cols[ColumnIndex(j), IndexInColumn(j)] == g[j]
    {
      forall j | 0 <= j < i ensures ColumnIndex(j) != ColumnIndex(i) || IndexInColumn(j) != IndexInColumn(i) {
        ColumnSlotsDistinct(j, i);
      }
      cols[ColumnIndex(i), IndexInColumn(i)] := g[i];
    }
    ColsFromCells(g, cols);
  }

  /** The value of an ASCII decimal digit (`to_digit(10)`). */
  function DigitValue(c: char): (d: u8)
    requires '0' <= c <= '9'
    ensures d <= 9 && DigitChar(d) == c
  {
    (c as int - '0' as int) as u8
  }

  /** The ASCII digit that writes `d`. */
  function DigitChar(d: u8): (c: char)
    requires d <= 9
    ensures '0' <= c <= '9'
  {
    ('0' as int + d as int) as char
  }

  predicate IsDigitString(s: string) {
    forall k | 0 <= k < |s| :: '0' <= s[k] <= '9'
  }

  /** The cell values a string of decimal digits spells out. */
  function DigitValues(s: string): (g: seq<u8>)
    requires IsDigitString(s)
    ensures |g| == |s| && forall k | 0 <= k < |s| :: g[k] <= 9 && DigitChar(g[k]) == s[k]
  {
    seq(|s|, k requires 0 <= k < |s| => DigitValue(s[k]))
  }

  /** The string of digits that writes out cell values 0..9. */
  function DigitString(g: seq<u8>): (s: string)
    requires forall k | 0 <= k < |g| :: g[k] <= 9
    ensures |s| == |g| && IsDigitString(s)
  {
    seq(|g|, k requires 0 <= k < |g| => DigitChar(g[k]))
  }

  /** Parsing a digit string and writing it back gives the string again. */
  lemma DigitStringRoundTrip(s: string)
    requires IsDigitString(s)
    ensures DigitString(DigitValues(s)) == s
  {
  }

  /** Writing values 0..9 as digits and parsing them gives the values again. */
  lemma DigitValuesRoundTrip(g: seq<u8>)
    requires forall k | 0 <= k < |g| :: g[k] <= 9
    ensures DigitValues(DigitString(g)) == g
  {
    var back := DigitValues(DigitString(g));
    forall k | 0 <= k < |g| ensures back[k] == g[k] {
      assert DigitChar(back[k]) == DigitChar(g[k]);
    }
  }

  class SudokuPuzzle {
    /** The 81 cells in row-major order; 0 marks an unfilled cell. */
    const grid: array<u8>
    /** rows[r, c] is the cell at column c of row r. */
    const rows: array2<u8>
    /** blocks[b, k] is the k-th cell, row by row, of block b. */
    const blocks: array2<u8>
    /** cols[c, r] is the cell at row r of column c. */
    const cols: array2<u8>
    /** The cells written by `SetSquare`, most recent last. */
    var moveStack: seq<nat>

    /** The three views agree with the grid and the stack holds cell indices. */
    ghost predicate Valid()
      reads this, grid, rows, blocks, cols
    {
      && grid.Length == GridSize
      && rows.Length0 == GridDims && rows.Length1 == GridDims
      && cols.Length0 == GridDims && cols.Length1 == GridDims
      && blocks.Length0 == Blocks && blocks.Length1 == BlockSize
      && rows != cols && rows != blocks && cols != blocks
      && RowsMatch(grid[..], rows) && ColsMatch(grid[..], cols) && BlocksMatch(grid[..], blocks)
      && forall k | 0 <= k < |moveStack| :: moveStack[k] < GridSize
    }

    /** `from_array`: a puzzle over the cells `g` with no moves made. */
    constructor FromArray(g: Board)
      ensures Valid() && grid[..] == g && moveStack == []
      ensures fresh(grid) && fresh(rows) && fresh(blocks) && fresh(cols)
    {
      var rowsOfG := RowsFromGrid(g);
      var blocksOfG := BlocksFromGrid(g);
      var colsOfG := ColsFromGrid(g);
      grid := new u8[GridSize](i requires 0 <= i < GridSize => g[i]);
      rows, blocks, cols := rowsOfG, blocksOfG, colsOfG;
      moveStack := [];
    }

    /** `from_vec`: the slice copy panics unless there are exactly 81 values. */
    static method FromVec(v: seq<u8>) returns (p: SudokuPuzzle)
      requires |v| == GridSize
      ensures fresh(p) && fresh(p.grid) && fresh(p.rows) && fresh(p.blocks) && fresh(p.cols)
      ensures p.Valid() && p.grid[..] == v && p.moveStack == []
    {
      p := new SudokuPuzzle.FromArray(v);
    }

    /** `from_str`: every character must be a decimal digit, and there must be 81 of them. */
    static method FromStr(s: string) returns (p: SudokuPuzzle)
      requires IsDigitString(s) && |s| == GridSize
      ensures fresh(p) && fresh(p.grid) && fresh(p.rows) && fresh(p.blocks) && fresh(p.cols)
      ensures p.Valid() && p.grid[..] == DigitValues(s) && p.moveStack == []
    {
      p := FromVec(DigitValues(s));
    }

    /** Writes `value` into the grid and into the three views; `set_square` and `undo_move` both do this. */
    method WriteSquare(index: nat, value: u8)
      requires Valid() && index < GridSize
      modifies grid, rows, blocks, cols
      ensures Valid()
      ensures grid[..] == old(grid[..])[index := value]
    {
      grid[index] := value;
      SetSquareInRow(index, value);
      SetSquareInBlock(index, value);
      SetSquareInCol(index, value);
      RowCoordinates(index);
      ColumnCoordinates(index);
      BlockCoordinates(index);
      forall r, c | 0 <= r < GridDims && 0 <= c < GridDims ensures rows[r, c] == grid[CellOfRow(r, c)] {
        CellInRow(r, c);
      }
      forall c, r | 0 <= c < GridDims && 0 <= r < GridDims ensures cols[c, r] == grid[CellOfColumn(c, r)] {
        CellInColumn(c, r);
      }
      forall b, k | 0 <= b < Blocks && 0 <= k < BlockSize ensures blocks[b, k] == grid[CellOfBlock(b, k)] {
        CellInBlock(b, k);
      }
    }

    /** `set_square`: writes the cell and records the move. */
    method SetSquare(index: nat, value: u8)
      requires Valid() && index < GridSize
      modifies this, grid, rows, blocks, cols
      ensures Valid()
      ensures grid[..] == old(grid[..])[index := value]
      ensures moveStack == old(moveStack) + [index]
    {
      WriteSquare(index, value);
      moveStack := moveStack + [index];
    }

    /** `undo_move`: pops the last move (the pop is unwrapped, so the stack must not be empty) and clears its cell. */
    method UndoMove()
      requires Valid() && |moveStack| > 0
      modifies this, grid, rows, blocks, cols
      ensures Valid()
      ensures moveStack == old(moveStack)[..|old(moveStack)| - 1]
      ensures grid[..] == old(grid[..])[old(moveStack)[|old(moveStack)| - 1] := 0]
    {
      var index := moveStack[|moveStack| - 1];
      moveStack := moveStack[..|moveStack| - 1];
      WriteSquare(index, 0);
    }

    /** `undo_moves`: takes back the last `n` moves, most recent first. */
    method UndoMoves(n: nat)
      requires Valid() && n <= |moveStack|
      modifies this, grid, rows, blocks, cols
      ensures Valid()
      ensures moveStack == old(moveStack)[..|old(moveStack)| - n]
      ensures grid[..] == ClearCells(old(grid[..]), old(moveStack)[|old(moveStack)| - n..])
    {
      ghost var g0: Board := grid[..];
      ghost var s0 := moveStack;
      for k := 0 to n
        invariant Valid()
        invariant moveStack == s0[..|s0| - k]
        invariant grid[..] == ClearCells(g0, s0[|s0| - k..])
      {
        ghost var before: Board := grid[..];
        UndoMove();
        assert s0[|s0| - (k + 1)..] == [s0[|s0| - k - 1]] + s0[|s0| - k..];
        ClearCellsFront(g0, s0[|s0| - k - 1], s0[|s0| - k..]);
      }
    }

    function MovesCount(): (n: nat)
      reads this
      ensures n == |moveStack|
    {
      |moveStack|
    }

    /** `is_solved`: no cell is unfilled. */
    function IsSolved(): (b: bool)
      reads grid
      requires grid.Length == GridSize
      ensures b <==> ZeroSet(grid[..]) == {}
    {
      assert forall k | 0 <= k < GridSize && grid[..][k] == 0 :: k in ZeroSet(grid[..]);
      AllNonZero(grid[..])
    }

    /** `get_next_clueless_index`: the first unfilled cell, if any. */
    function GetNextCluelessIndex(): (r: Option<nat>)
      reads grid
      requires grid.Length == GridSize
      ensures r.None? <==> ZeroSet(grid[..]) == {}
      ensures r.Some? ==> r.value < GridSize && grid[r.value] == 0
    {
      assert forall k | 0 <= k < GridSize && grid[..][k] == 0 :: k in ZeroSet(grid[..]);
      FirstZero(grid[..])
    }

    /** The cell `get_next_clueless_index` finds is the first unfilled one. */
    lemma NextCluelessIsFirst()
      requires grid.Length == GridSize
      ensures GetNextCluelessIndex().Some? ==> forall k | 0 <= k < GetNextCluelessIndex().value :: grid[k] != 0
    {
      assert grid[..] == grid[..GridSize];
    }

    /** `get_clueless_squares_enumerated`: the unfilled cells, in increasing order. */
    function GetCluelessSquaresEnumerated(): (r: seq<nat>)
      reads grid
      requires grid.Length == GridSize
      ensures forall k | 0 <= k < |r| :: r[k] < GridSize && grid[r[k]] == 0
      ensures forall a, b | 0 <= a < b < |r| :: r[a] < r[b]
      ensures Elements(r) == ZeroSet(grid[..])
    {
      ZeroIndices(grid[..])
    }

    /** `get_row`: the row through cell `index`. */
    function GetRow(index: nat): (s: seq<u8>)
      reads this, grid, rows, blocks, cols
      requires Valid() && index < GridSize
      ensures s == RowOf(grid[..], RowIndex(index))
    {
      var r := RowIndex(index);
      var s := [rows[r, 0], rows[r, 1], rows[r, 2], rows[r, 3], rows[r, 4], rows[r, 5], rows[r, 6], rows[r, 7], rows[r, 8]];
      assert forall k | 0 <= k < GridDims :: s[k] == rows[r, k];
      s
    }

    /** `get_block`: the block through cell `index`. */
    function GetBlock(index: nat): (s: seq<u8>)
      reads this, grid, rows, blocks, cols
      requires Valid() && index < GridSize
      ensures s == BlockOf(grid[..], BlockIndex(index))
    {
      var b := BlockIndex(index);
      var s := [blocks[b, 0], blocks[b, 1], blocks[b, 2], blocks[b, 3], blocks[b, 4], blocks[b, 5], blocks[b, 6], blocks[b, 7], blocks[b, 8]];
      assert forall k | 0 <= k < BlockSize :: s[k] == blocks[b, k];
      s
    }

    /** `get_col`: the column through cell `index`. */
    function GetCol(index: nat): (s: seq<u8>)
      reads this, grid, rows, blocks, cols
      requires Valid() && index < GridSize
      ensures s == ColOf(grid[..], ColumnIndex(index))
    {
      var c := ColumnIndex(index);
      var s := [cols[c, 0], cols[c, 1], cols[c, 2], cols[c, 3], cols[c, 4], cols[c, 5], cols[c, 6], cols[c, 7], cols[c, 8]];
      assert forall k | 0 <= k < GridDims :: s[k] == cols[c, k];
      s
    }

    /**
     * `get_possible_clues`: 1..9 minus every non-zero value seen in the
     * cell's row, column and block.  The source collects the result from a
     * hash set, so its order is not specified; the contract does not fix one.
     */
    method GetPossibleClues(index: nat) returns (clues: seq<u8>)
      requires Valid() && index < GridSize
      ensures NoDup(clues)
      ensures Elements(clues) == CandidateSet(grid[..], index)
    {
      var seen := Elements(GetRow(index) + GetCol(index) + GetBlock(index)) - {0};
      CandidatesAreUnseenNumbers(grid[..], index);
      clues := NumbersNotIn(seen, 1);
    }

    /**
     * `PartialEq::eq`: compares the grid, the rows and the blocks; not the
     * columns nor the move stack.  Every puzzle equals itself, and equal
     * puzzles have equal grids.
     */
    predicate Equals(other: SudokuPuzzle): (r: bool)
      reads this, grid, rows, blocks, other, other.grid, other.rows, other.blocks
      requires rows.Length0 == GridDims && rows.Length1 == GridDims
      requires blocks.Length0 == Blocks && blocks.Length1 == BlockSize
      requires other.rows.Length0 == GridDims && other.rows.Length1 == GridDims
      requires other.blocks.Length0 == Blocks && other.blocks.Length1 == BlockSize
      ensures other == this ==> r
      ensures r ==> grid[..] == other.grid[..]
    {
      && grid[..] == other.grid[..]
      && (forall r, c | 0 <= r < GridDims && 0 <= c < GridDims :: rows[r, c] == other.rows[r, c])
      && (forall b, k | 0 <= b < Blocks && 0 <= k < BlockSize :: blocks[b, k] == other.blocks[b, k])
    }

    /** `set_square_in_row`: writes the row view's slot for cell `index`. */
    method SetSquareInRow(index: nat, value: u8)
      requires index < GridSize && rows.Length0 == GridDims && rows.Length1 == GridDims
      modifies rows
      ensures forall r, c | 0 <= r < GridDims && 0 <= c < GridDims ::
        rows[r, c] == if r == RowIndex(index) && c == IndexInRow(index) then value else old(rows[r, c])
    {
      rows[RowIndex(index), IndexInRow(index)] := value;
    }

    /** `set_square_in_block`: writes the block view's slot for cell `index`. */
    method SetSquareInBlock(index: nat, value: u8)
      requires index < GridSize && blocks.Length0 == Blocks && blocks.Length1 == BlockSize
      modifies blocks
      ensures forall b, k | 0 <= b < Blocks && 0 <= k < BlockSize ::
        blocks[b, k] == if b == BlockIndex(index) && k == IndexInBlock(index) then value else old(blocks[b, k])
    {
      blocks[BlockIndex(index), IndexInBlock(index)] := value;
    }

    /** `set_square_in_col`: writes the column view's slot for cell `index`. */
    method SetSquareInCol(index: nat, value: u8)
      requires index < GridSize && cols.Length0 == GridDims && cols.Length1 == GridDims
      modifies cols
      ensures forall c, r | 0 <= c < GridDims && 0 <= r < GridDims ::
        cols[c, r] == if c == ColumnIndex(index) && r == IndexInColumn(index) then value else old(cols[c, r])
    {
      cols[ColumnIndex(index), IndexInColumn(index)] := value;
    }
  }

  /** Two valid puzzles are equal in the sense of `PartialEq` exactly when their grids are. */
  lemma EqualsIffSameGrid(p: SudokuPuzzle, q: SudokuPuzzle)
    requires p.Valid() && q.Valid()
    ensures p.Equals(q) <==> p.grid[..] == q.grid[..]
  {
    if p.grid[..] == q.grid[..] {
      forall r, c | 0 <= r < GridDims && 0 <= c < GridDims ensures p.rows[r, c] == q.rows[r, c] {
        CellInRow(r, c);
      }
      forall b, k | 0 <= b < Blocks && 0 <= k < BlockSize ensures p.blocks[b, k] == q.blocks[b, k] {
        CellInBlock(b, k);
      }
    }
  }
}
