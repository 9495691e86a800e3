/**
 * The unit tests of the board, restated as methods whose contracts fix the
 * outcome each test checks, and the undo behaviour they rely on.
 */
module SudokuGridExamples {
  import opened Types
  import opened SudokuIndex
  import opened SudokuRules
  import opened SudokuGrid

  /** The board of `get_test_puzzle`: cell `k` holds the value `k`. */
  function CountingBoard(): (g: Board)
    ensures forall k | 0 <= k < GridSize :: g[k] as nat == k
  {
    seq(GridSize, k requires 0 <= k < GridSize => k as u8)
  }

  /** `get_test_puzzle`: a fresh puzzle over the counting board. */
  method TestPuzzle() returns (p: SudokuPuzzle)
    ensures fresh(p) && fresh(p.grid) && fresh(p.rows) && fresh(p.blocks) && fresh(p.cols)
    ensures p.Valid() && p.grid[..] == CountingBoard() && p.moveStack == []
  {
    p := new SudokuPuzzle.FromArray(CountingBoard());
  }

  /**
   * Setting a cell and undoing that move restores the stack and leaves the
   * cell at 0, whatever it held before; the puzzle is back where it was
   * exactly when the cell was unfilled.
   */
  method SetThenUndo(p: SudokuPuzzle, index: nat, value: u8)
    requires p.Valid() && index < GridSize
    modifies p, p.grid, p.rows, p.blocks, p.cols
    ensures p.Valid() && p.moveStack == old(p.moveStack)
    ensures p.grid[..] == old(p.grid[..])[index := 0]
    ensures p.grid[..] == old(p.grid[..]) <==> old(p.grid[index]) == 0
  {
    ghost var g0 := p.grid[..];
    p.SetSquare(index, value);
    p.UndoMove();
    if g0[index] != 0 {
      assert p.grid[index] != g0[index];
    }
  }

  /** `setting_first_square_updates_all_states`. */
  method SettingFirstSquareUpdatesAllStates() returns (p: SudokuPuzzle)
    ensures p.Valid()
    ensures p.grid[0] == 100 && p.rows[0, 0] == 100 && p.blocks[0, 0] == 100 && p.cols[0, 0] == 100
  {
    p := TestPuzzle();
    p.SetSquare(0, 100);
  }

  /** `setting_62nd_square_updates_all_states`: cell 61 is row 6, column 7, block 8. */
  method Setting62ndSquareUpdatesAllStates() returns (p: SudokuPuzzle)
    ensures p.Valid()
    ensures p.grid[61] == 161 && p.rows[6, 7] == 161 && p.blocks[8, 1] == 161 && p.cols[7, 6] == 161
  {
    p := TestPuzzle();
    p.SetSquare(61, 161);
    Cell61Placement();
  }

  /** Cell 35 lies in block 5, and block 5 of the counting board holds the cells it is made of. */
  lemma Block35OfCountingBoard()
    ensures BlockIndex(35) == 5
    ensures BlockOf(CountingBoard(), 5) == [33, 34, 35, 42, 43, 44, 51, 52, 53]
  {
    var g := CountingBoard();
    assert g[33] == 33 && g[34] == 34 && g[35] == 35;
    assert g[42] == 42 && g[43] == 43 && g[44] == 44;
    assert g[51] == 51 && g[52] == 52 && g[53] == 53;
  }

  /** `getting_block_for_index_35_gives_correct_values`. */
  method GettingBlockForIndex35() returns (block: seq<u8>)
    ensures block == [33, 34, 35, 42, 43, 44, 51, 52, 53]
  {
    var p := TestPuzzle();
    block := p.GetBlock(35);
    Block35OfCountingBoard();
  }

  /** `getting_row_for_index_47_gives_correct_values`. */
  method GettingRowForIndex47() returns (row: seq<u8>)
    ensures row == [45, 46, 47, 48, 49, 50, 51, 52, 53]
  {
    var p := TestPuzzle();
    row := p.GetRow(47);
  }

  /** `getting_col_for_index_14_gives_correct_values`. */
  method GettingColForIndex14() returns (col: seq<u8>)
    ensures col == [5, 14, 23, 32, 41, 50, 59, 68, 77]
  {
    var p := TestPuzzle();
    col := p.GetCol(14);
  }

  /** `undo_move_returns_board_to_previous_position`. */
  method UndoMoveReturnsBoardToPreviousPosition() returns (p: SudokuPuzzle, expected: SudokuPuzzle)
    ensures p.Valid() && expected.Valid() && p.Equals(expected)
  {
    p := TestPuzzle();
    SetThenUndo(p, 0, 100);
    expected := TestPuzzle();
    EqualsIffSameGrid(p, expected);
  }
}
