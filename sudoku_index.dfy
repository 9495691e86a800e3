/**
 * The fixed 9x9 geometry of the board and the arithmetic that places each
 * row-major cell index into its row, its column and its 3x3 block, together
 * with the inverse placements that make each of the three a bijection.
 */
module SudokuIndex {

  const BlockDims: nat := 3
  /** Number of blocks, cells per block, cells per row or column: BlockDims squared. */
  const Blocks: nat := 9
  const BlockSize: nat := 9
  const GridDims: nat := 9
  /** Cells in one horizontal band of three blocks. */
  const BlockRowSize: nat := 27
  const GridSize: nat := 81

  function RowIndex(index: nat): (r: nat)
    ensures index < GridSize ==> r < GridDims
  {
    index / 9
  }

  function IndexInRow(index: nat): (r: nat)
    ensures r < GridDims
  {
    index % 9
  }

  function ColumnIndex(index: nat): (r: nat)
    ensures r < GridDims
  {
    index % 9
  }

  function IndexInColumn(index: nat): (r: nat)
    ensures index < GridSize ==> r < GridDims
  {
    index / 9
  }

  function BlockIndex(index: nat): (r: nat)
    ensures index < GridSize ==> r < Blocks
  {
    var blockRow := index / 27;
    var blockCol := (index % 9) / 3;
    blockCol + blockRow * 3
  }

  function IndexInBlock(index: nat): (r: nat)
    ensures r < BlockSize
  {
    var rowInBlock := (index / 9) % 3;
    var colInBlock := index % 3;
    colInBlock + rowInBlock * 3
  }

  /** The cell at position `pos` of row `row`. */
  function CellOfRow(row: nat, pos: nat): (cell: nat)
    ensures row < GridDims && pos < GridDims ==> cell < GridSize
  {
    row * 9 + pos
  }

  /** The cell at position `pos` of column `col`. */
  function CellOfColumn(col: nat, pos: nat): (cell: nat)
    ensures col < GridDims && pos < GridDims ==> cell < GridSize
  {
    pos * 9 + col
  }

  /** The cell at position `pos` of block `block`. */
  function CellOfBlock(block: nat, pos: nat): (cell: nat)
    ensures block < Blocks && pos < BlockSize ==> cell < GridSize
  {
    (block / 3) * 27 + (pos / 3) * 9 + (block % 3) * 3 + pos % 3
  }

  /*
   * Each placement is a bijection between cells and (group, position) pairs:
   * `XCoordinates` takes a cell to its pair and back, `CellInX` a pair to its
   * cell and back.  They are kept apart so that a proof pulls in only the
   * arithmetic it needs.
   */

  lemma RowCoordinates(i: nat)
    requires i < GridSize
    ensures RowIndex(i) < GridDims && IndexInRow(i) < GridDims
    ensures CellOfRow(RowIndex(i), IndexInRow(i)) == i
  {
  }

  lemma CellInRow(row: nat, pos: nat)
    requires row < GridDims && pos < GridDims
    ensures CellOfRow(row, pos) < GridSize
    ensures RowIndex(CellOfRow(row, pos)) == row && IndexInRow(CellOfRow(row, pos)) == pos
  {
  }

  lemma ColumnCoordinates(i: nat)
    requires i < GridSize
    ensures ColumnIndex(i) < GridDims && IndexInColumn(i) < GridDims
    ensures CellOfColumn(ColumnIndex(i), IndexInColumn(i)) == i
  {
  }

  lemma CellInColumn(col: nat, pos: nat)
    requires col < GridDims && pos < GridDims
    ensures CellOfColumn(col, pos) < GridSize
    ensures ColumnIndex(CellOfColumn(col, pos)) == col && IndexInColumn(CellOfColumn(col, pos)) == pos
  {
  }

  lemma BlockCoordinates(i: nat)
    requires i < GridSize
    ensures BlockIndex(i) < Blocks && IndexInBlock(i) < BlockSize
    ensures CellOfBlock(BlockIndex(i), IndexInBlock(i)) == i
  {
    var q, r := i / 9, i % 9;
    var a, b := q / 3, q % 3;
    var c, d := r / 3, r % 3;
    assert i == a * 27 + b * 9 + c * 3 + d;
    DivMod27(i, a, b * 9 + c * 3 + d);
    DivMod3(i, (a * 3 + b) * 3 + c, d);
    assert BlockIndex(i) == c + a * 3;
    assert IndexInBlock(i) == d + b * 3;
    DivMod3(c + a * 3, a, c);
    DivMod3(d + b * 3, b, d);
  }

  lemma CellInBlock(block: nat, pos: nat)
    requires block < Blocks && pos < BlockSize
    ensures CellOfBlock(block, pos) < GridSize
    ensures BlockIndex(CellOfBlock(block, pos)) == block && IndexInBlock(CellOfBlock(block, pos)) == pos
  {
    var a, c := block / 3, block % 3;
    var b, d := pos / 3, pos % 3;
    var cell := CellOfBlock(block, pos);
    assert cell == a * 27 + b * 9 + c * 3 + d;
    DivMod9(cell, a * 3 + b, c * 3 + d);
    DivMod27(cell, a, b * 9 + c * 3 + d);
    DivMod3(cell, (a * 3 + b) * 3 + c, d);
    DivMod3(c * 3 + d, c, d);
    DivMod3(a * 3 + b, a, b);
  }

  /** Distinct cells occupy distinct row slots. */
  lemma RowSlotsDistinct(i: nat, j: nat)
    requires i < GridSize && j < GridSize && i != j
    ensures RowIndex(i) != RowIndex(j) || IndexInRow(i) != IndexInRow(j)
  {
    RowCoordinates(i);
    RowCoordinates(j);
  }

  /** Distinct cells occupy distinct column slots. */
  lemma ColumnSlotsDistinct(i: nat, j: nat)
    requires i < GridSize && j < GridSize && i != j
    ensures ColumnIndex(i) != ColumnIndex(j) || IndexInColumn(i) != IndexInColumn(j)
  {
    ColumnCoordinates(i);
    ColumnCoordinates(j);
  }

  /** Distinct cells occupy distinct block slots. */
  lemma BlockSlotsDistinct(i: nat, j: nat)
    requires i < GridSize && j < GridSize && i != j
    ensures BlockIndex(i) != BlockIndex(j) || IndexInBlock(i) != IndexInBlock(j)
  {
    BlockCoordinates(i);
    BlockCoordinates(j);
  }

  lemma DivMod3(x: nat, q: nat, r: nat)
    requires x == q * 3 + r && r < 3
    ensures x / 3 == q && x % 3 == r
  {
  }

  lemma DivMod9(x: nat, q: nat, r: nat)
    requires x == q * 9 + r && r < 9
    ensures x / 9 == q && x % 9 == r
  {
  }

  lemma DivMod27(x: nat, q: nat, r: nat)
    requires x == q * 27 + r && r < 27
    ensures x / 27 == q && x % 27 == r
  {
  }

  /** Cell 61 sits at rows[6][7], cols[7][6] and blocks[8][1]. */
  lemma Cell61Placement()
    ensures RowIndex(61) == 6 && IndexInRow(61) == 7
    ensures ColumnIndex(61) == 7 && IndexInColumn(61) == 6
    ensures BlockIndex(61) == 8 && IndexInBlock(61) == 1
  {
  }
}
