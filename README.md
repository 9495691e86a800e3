# Sudoku solver — a Dafny model

This project models the core of a 9×9 Sudoku solver: the board and the recursive solver.

**The board.** It is the `SudokuPuzzle` of `src/sudoku_grid.rs`. It holds 81 cells in row-major order, with 0 marking an unfilled cell. It also keeps three redundant views of the same cells: rows, columns and 3×3 blocks. A move stack records every cell written by `set_square`, so that moves can be undone.

**The solver.** It is `solve` in `src/sudoku_solver.rs`. It first fills forced cells, one candidate at a time, until nothing changes. Then it guesses every candidate of the first unfilled cell in turn and recurses. A failed attempt is undone through the move stack.

The model is imperative where the source is:
- `SudokuPuzzle` is a Dafny `class`. Its grid is an `array<u8>` and its three views are `array2<u8>`. Its move stack is a `seq<nat>`.
- `Valid()` is the invariant that every view slot equals its grid cell.
- `set_square`, `undo_move`, `undo_moves` and the solver are methods with `modifies` clauses.
- The bodies of `forced_fill` and `fill_forced_clues` keep the source's loops. `get_forced_clue` has no loop. It is a method because it calls the method `get_possible_clues`.

Three ideas carry the solver's specification. They are defined once, as functions of the board's cell sequence.
- **Candidate set** (`SudokuRules.CandidateSet`): the digits 1–9 seen neither in the cell's row, nor in its column, nor in its block.
- **Conflicts** (`SudokuRules.NoConflicts`): no row, column or block repeats a non-zero value.
- **Completion** (`SudokuRules.IsCompletionOf`): a conflict-free board of digits 1–9 that keeps every clue.

The main results about `solve` are these:
1. On success it has only filled unfilled cells, and left none unfilled. Each of its moves wrote a candidate of its cell, on the board as it stood at that move. It solves every board that has a completion, and the board it leaves is then a completion.
2. A call that returns `false` was given a non-empty move stack. It undoes its own moves and one more: the top move of that stack, which in a recursive call is its caller's guess. The board it started from has no completion.
3. A call given an empty stack (the outermost call on a fresh puzzle) never returns `false`. If its search fails, the final undo pops the empty stack (see Findings). On a fresh puzzle whose board is clash-free and holds only digits and blanks, this happens exactly when the board has no completion (`SudokuSolver.SolveFresh`). A full board is reported solved even when it clashes, because `solve` then returns `true` without a check (src/sudoku_solver.rs:22).

Modules, one file each:
- `types.dfy` — `Types`: `u8`, `Option`, the duplicate-free sequence predicate and cardinality lemmas.
- `sudoku_index.dfy` — `SudokuIndex`: the board constants and the six index functions, with their placement lemmas.
- `sudoku_rules.dfy` — `SudokuRules`: groups, candidates, conflicts, completions, and clearing cells.
- `sudoku_grid.dfy` — `SudokuGrid`: the view builders, the digit-string parser and the `SudokuPuzzle` class.
- `sudoku_solver.dfy` — `SudokuSolver`: the solver as written, and a corrected variant that undoes only its own moves.
- `grid_examples.dfy` — `SudokuGridExamples`: the unit tests of `src/sudoku_grid.rs`, as methods.
- `solver_examples.dfy` — `SudokuSolverExamples`: the two solver unit tests, and a board without a solution.

## Model

| member | source | states |
|---|---|---|
| SudokuIndex.RowIndex | src/sudoku_grid.rs:195-197 | the row of a cell is below 9 for every cell of the board |
| SudokuIndex.IndexInRow | src/sudoku_grid.rs:199-201 | the position of a cell in its row is below 9 |
| SudokuIndex.ColumnIndex | src/sudoku_grid.rs:217-219 | the column of a cell is below 9 |
| SudokuIndex.IndexInColumn | src/sudoku_grid.rs:221-223 | the position of a cell in its column is below 9 for every cell of the board |
| SudokuIndex.BlockIndex | src/sudoku_grid.rs:203-208 | the block of a cell is below 9 for every cell of the board |
| SudokuIndex.IndexInBlock | src/sudoku_grid.rs:210-215 | the position of a cell in its block is below 9 |
| SudokuIndex.RowCoordinates | src/sudoku_grid.rs:195-201 | (row, position in row) of a cell are in range and lead back to the same cell |
| SudokuIndex.CellInRow | src/sudoku_grid.rs:195-201 | every (row, position) pair names a cell whose row and position are that pair, so the row view is a bijection |
| SudokuIndex.ColumnCoordinates | src/sudoku_grid.rs:217-223 | (column, position in column) of a cell are in range and lead back to the same cell |
| SudokuIndex.CellInColumn | src/sudoku_grid.rs:217-223 | every (column, position) pair names exactly one cell |
| SudokuIndex.BlockCoordinates | src/sudoku_grid.rs:203-215 | (block, position in block) of a cell are in range and lead back to the same cell |
| SudokuIndex.CellInBlock | src/sudoku_grid.rs:203-215 | every (block, position) pair names exactly one cell |
| SudokuIndex.RowSlotsDistinct | src/sudoku_grid.rs:195-201 | two different cells never share a row slot |
| SudokuIndex.ColumnSlotsDistinct | src/sudoku_grid.rs:217-223 | two different cells never share a column slot |
| SudokuIndex.BlockSlotsDistinct | src/sudoku_grid.rs:203-215 | two different cells never share a block slot |
| SudokuIndex.Cell61Placement | src/sudoku_grid.rs:244-254 | cell 61 sits at row 6 position 7, column 7 position 6, block 8 position 1 |
| SudokuRules.RowOf | src/sudoku_grid.rs:120-123 | a row is the 9 cells of that row, in column order |
| SudokuRules.ColOf | src/sudoku_grid.rs:130-133 | a column is the 9 cells of that column, in row order |
| SudokuRules.BlockOf | src/sudoku_grid.rs:125-128 | a block is the 9 cells of that block, row by row |
| SudokuRules.InRowOf | src/sudoku_grid.rs:120-123 | a value is in a row exactly when some cell of that row holds it |
| SudokuRules.InColOf | src/sudoku_grid.rs:130-133 | a value is in a column exactly when some cell of that column holds it |
| SudokuRules.InBlockOf | src/sudoku_grid.rs:125-128 | a value is in a block exactly when some cell of that block holds it |
| SudokuRules.CandidateIffNoPeerHolds | src/sudoku_grid.rs:92-106 | a value is a candidate of a cell exactly when it is a digit 1–9 that no cell sharing a row, column or block holds |
| SudokuRules.CandidatesAreUnseenNumbers | src/sudoku_grid.rs:92-106 | the candidates are the digits 1–9 outside the union of row, column and block, with 0 dropped |
| SudokuRules.CandidatesIgnoreNonDigits | src/sudoku_grid.rs:92-106 | values outside 1–9 never influence the candidates |
| SudokuRules.PeersOfConflictFreeBoard | src/sudoku_grid.rs:92-106 | on a conflict-free board two cells sharing a group never hold the same non-zero value |
| SudokuRules.NoConflictsIffPeersDistinct | src/sudoku_grid.rs:92-106 | the group-by-group and the cell-by-cell statements of conflict freedom are equivalent |
| SudokuRules.LegalWriteKeepsNoConflicts | src/sudoku_solver.rs:9-10 | writing a candidate of a cell keeps the board conflict-free |
| SudokuRules.GroupIsDigitPermutation | src/sudoku_solver.rs:11-12 | 9 distinct digits from 1–9 are a permutation of the digits |
| SudokuRules.SolvedRowIsPermutation | src/sudoku_solver.rs:11-12 | every row of a filled conflict-free board is a permutation of 1–9 |
| SudokuRules.SolvedColumnIsPermutation | src/sudoku_solver.rs:11-12 | every column of a filled conflict-free board is a permutation of 1–9 |
| SudokuRules.SolvedBlockIsPermutation | src/sudoku_solver.rs:11-12 | every block of a filled conflict-free board is a permutation of 1–9 |
| SudokuRules.CompletionValueIsCandidate | src/sudoku_solver.rs:9 | the value a solution puts in an unfilled cell is one of that cell's candidates, so trying only candidates misses no solution |
| SudokuRules.ForcedValueKeepsCompletion | src/sudoku_solver.rs:43-49 | filling the only candidate of a cell keeps every solution a solution |
| SudokuRules.GuessKeepsCompletion | src/sudoku_solver.rs:9-10 | guessing the solution's value keeps that solution |
| SudokuRules.NoCompletionWhenEveryGuessFails | src/sudoku_solver.rs:9-20 | when no candidate of a cell leads to a solution, the board has none |
| SudokuRules.CompletableBoardHasNoConflicts | src/sudoku_solver.rs:4-23 | a board that has a solution is conflict-free |
| SudokuRules.ClearCellsValues | src/sudoku_grid.rs:82-86 | clearing a list of cells zeroes exactly the cells in the list |
| SudokuGrid.AllNonZero | src/sudoku_grid.rs:88-90 | true exactly when no cell is 0 |
| SudokuGrid.FirstZero | src/sudoku_grid.rs:116-118 | none exactly when no cell is 0, otherwise the least index of a 0 |
| SudokuGrid.ZeroIndices | src/sudoku_grid.rs:108-114 | the indices of the 0 cells, ascending, each one of them |
| SudokuGrid.NumbersNotIn | src/sudoku_grid.rs:105 | the digits from a lower bound to 9 outside a set, without duplicates |
| SudokuGrid.RowsFromGrid | src/sudoku_grid.rs:159-169 | a fresh row table whose slot (row(i), position(i)) holds cell i, for every cell |
| SudokuGrid.BlocksFromGrid | src/sudoku_grid.rs:171-181 | a fresh block table whose slot (block(i), position(i)) holds cell i, for every cell |
| SudokuGrid.ColsFromGrid | src/sudoku_grid.rs:183-193 | a fresh column table whose slot (column(i), position(i)) holds cell i, for every cell |
| SudokuGrid.DigitValue | src/sudoku_grid.rs:60 | a decimal digit character maps to a value 0–9 that prints back as the same character |
| SudokuGrid.DigitValues | src/sudoku_grid.rs:59-62 | a digit string maps to one value 0–9 per character, each printing back as its character |
| SudokuGrid.DigitStringRoundTrip | src/sudoku_grid.rs:59-62 | parsing a digit string and printing the values gives the string back |
| SudokuGrid.DigitValuesRoundTrip | src/sudoku_grid.rs:59-62 | printing values 0–9 and parsing them gives the values back |
| SudokuGrid.SudokuPuzzle.FromArray | src/sudoku_grid.rs:39-50 | a fresh puzzle over the given cells, all three views in agreement with them, and an empty move stack |
| SudokuGrid.SudokuPuzzle.FromVec | src/sudoku_grid.rs:52-57 | the same as from_array on exactly 81 values |
| SudokuGrid.SudokuPuzzle.FromStr | src/sudoku_grid.rs:59-62 | a puzzle over the digit values of an 81-character digit string |
| SudokuGrid.SudokuPuzzle.SetSquare | src/sudoku_grid.rs:64-71 | the cell takes the value, every other cell is unchanged, all views stay in agreement, and the index is pushed on the stack |
| SudokuGrid.SudokuPuzzle.UndoMove | src/sudoku_grid.rs:73-80 | on a non-empty stack, pops the top index and zeroes that cell, keeping the views in agreement |
| SudokuGrid.SudokuPuzzle.UndoMoves | src/sudoku_grid.rs:82-86 | pops n indices and zeroes exactly the cells they name |
| SudokuGrid.SudokuPuzzle.MovesCount | src/sudoku_grid.rs:154-156 | the length of the move stack |
| SudokuGrid.SudokuPuzzle.IsSolved | src/sudoku_grid.rs:88-90 | true exactly when no cell is unfilled |
| SudokuGrid.SudokuPuzzle.GetNextCluelessIndex | src/sudoku_grid.rs:116-118 | none exactly when no cell is unfilled, otherwise an unfilled cell |
| SudokuGrid.SudokuPuzzle.NextCluelessIsFirst | src/sudoku_grid.rs:116-118 | the cell returned is the first unfilled one |
| SudokuGrid.SudokuPuzzle.GetCluelessSquaresEnumerated | src/sudoku_grid.rs:108-114 | the unfilled cells, in ascending order, each exactly once |
| SudokuGrid.SudokuPuzzle.GetRow | src/sudoku_grid.rs:120-123 | the row view of a cell's row equals that row of the grid |
| SudokuGrid.SudokuPuzzle.GetBlock | src/sudoku_grid.rs:125-128 | the block view of a cell's block equals that block of the grid |
| SudokuGrid.SudokuPuzzle.GetCol | src/sudoku_grid.rs:130-133 | the column view of a cell's column equals that column of the grid |
| SudokuGrid.SudokuPuzzle.GetPossibleClues | src/sudoku_grid.rs:92-106 | a duplicate-free list whose elements are exactly the cell's candidates |
| SudokuGrid.SudokuPuzzle.SetSquareInRow | src/sudoku_grid.rs:135-139 | writes the row slot of the cell and no other row slot |
| SudokuGrid.SudokuPuzzle.SetSquareInBlock | src/sudoku_grid.rs:141-146 | writes the block slot of the cell and no other block slot |
| SudokuGrid.SudokuPuzzle.SetSquareInCol | src/sudoku_grid.rs:148-153 | writes the column slot of the cell and no other column slot |
| SudokuGrid.SudokuPuzzle.Equals | src/sudoku_grid.rs:32-36 | every puzzle equals itself, and equal puzzles have equal grids |
| SudokuGrid.SudokuPuzzle.WriteSquare | src/sudoku_grid.rs:65-68 | the cell takes the value, every other cell is unchanged, and all three views stay in agreement with the grid |
| SudokuGrid.EqualsIffSameGrid | src/sudoku_grid.rs:32-36 | two valid puzzles are equal, comparing grid, rows and blocks, exactly when their grids are |
| SudokuSolver.FillsOnlyTransitive | src/sudoku_solver.rs:4-23 | runs of fills on unfilled cells compose |
| SudokuSolver.FillsOnlyShrinksZeroSet | src/sudoku_solver.rs:4-23 | fills never create unfilled cells, and any push strictly shrinks the set of unfilled cells |
| SudokuSolver.FillsOnlyUndone | src/sudoku_solver.rs:19 | undoing the caller's guess and every later move restores the caller's board with the guessed cell cleared |
| SudokuSolver.FillsOnlyRestored | src/sudoku_grid.rs:82-86 | undoing exactly the moves made since a point restores the board of that point |
| SudokuSolver.FilledBoardCompletes | src/sudoku_solver.rs:11-12 | a conflict-free filled board reached by fills from a digit board is a solution of it |
| SudokuSolver.SoundFillTransitive | src/sudoku_solver.rs:25-30 | runs of forced fills compose and keep every solution |
| SudokuSolver.GetForcedClue | src/sudoku_solver.rs:43-49 | some value exactly when the cell has exactly one candidate, and that value is the candidate |
| SudokuSolver.ClearCellsConcat | src/sudoku_grid.rs:82-86 | undoing the moves `a + b` undoes `b` first, then `a` |
| SudokuSolver.MovesAllowedPush | src/sudoku_grid.rs:64-71 | writing an allowed non-zero value into an unfilled cell and pushing it adds one allowed move, and the earlier moves stay allowed |
| SudokuSolver.MovesAllowedExtend | src/sudoku_solver.rs:25-30 | allowed moves followed by further allowed fills are allowed moves, each seen through undo of everything after it |
| SudokuSolver.ForcedMovesAllowed | src/sudoku_solver.rs:43-49 | a move that wrote its cell's only candidate wrote one of its candidates |
| SudokuSolver.PassStart | src/sudoku_solver.rs:33-34 | a pass that has visited no cell has written nothing |
| SudokuSolver.PassSeesCurrentBoard | src/sudoku_solver.rs:34-35 | when the pass reaches a cell, no cell from there on has changed since the pass began |
| SudokuSolver.PassSkip | src/sudoku_solver.rs:35 | visiting a cell without a single candidate changes nothing and records the cell as unforced when visited |
| SudokuSolver.PassPush | src/sudoku_solver.rs:35-37 | writing the only candidate of the visited cell adds one forced move, above every earlier push |
| SudokuSolver.PassEnd | src/sudoku_solver.rs:34-40 | after the pass, every cell unfilled at its start that it did not write was unforced when visited |
| SudokuSolver.PassWithoutFillsAtFixedPoint | src/sudoku_solver.rs:40 | a pass that wrote nothing saw its starting board at every cell, so that board has no forced cell |
| SudokuSolver.ForcedFill | src/sudoku_solver.rs:32-41 | one pass writes each cell only its single candidate on the board as it stood then, pushes cells in ascending order, and leaves unwritten only the cells that were unforced when visited; it reports whether it wrote anything, and on false the board is unchanged and at a fixed point; the writes keep every solution |
| SudokuSolver.FillForcedClues | src/sudoku_solver.rs:25-30 | every move since entry wrote its cell's only candidate on the board as it stood then, into a cell no later move writes; ends at a fixed point of propagation, keeping every solution |
| SudokuSolver.GuessThenSolved | src/sudoku_solver.rs:9-16 | a guessed candidate followed by a solve, each move writing a candidate, is a solve of the board before the guess |
| SudokuSolver.NoCompletionBeforeSoundFill | src/sudoku_solver.rs:6 | forced fills never lose a solution |
| SudokuSolver.EveryCandidateFails | src/sudoku_solver.rs:9-20 | when every candidate of the guessed cell fails, the board has no solution |
| SudokuSolver.SolvedOutcome | src/sudoku_solver.rs:8-22 | propagation that fills the board, or propagation followed by a successful search, is a solve |
| SudokuSolver.UnsolvedOutcome | src/sudoku_solver.rs:19-20 | a failing search from a non-empty stack leaves the entry stack without its top, and the entry board with that cell cleared |
| SudokuSolver.UnderflowOutcome | src/sudoku_solver.rs:19 | a failing search from an empty stack pops an empty stack, and the entry board has no solution |
| SudokuSolver.RestoredOutcome | src/sudoku_solver.rs:19 | undoing exactly the forced moves after a failed search leaves the entry stack and board, and that board has no solution |
| SudokuSolver.Solve | src/sudoku_solver.rs:4-23 | success: fills of unfilled cells only, each writing a candidate of its cell on the board as it stood then, nothing left unfilled, a solution whenever one exists. Failure: the top move of the given stack and its own moves undone, and no solution existed. Underflow: only from an empty stack |
| SudokuSolver.TryClues | src/sudoku_solver.rs:9-20 | success: a solve. Failure: board and stack exactly as on entry, and no solution exists |
| SudokuSolver.SolveFresh | src/sudoku_solver.rs:4-23 | on a fresh puzzle: solved, with a solution, whenever one exists; a clash-free digit board without one ends in the final undo's panic; never a plain false |
| SudokuSolver.SolveRestoring | src/sudoku_solver.rs:4-23 | corrected solve: on failure the board and the stack are exactly as on entry, and no solution exists |
| SudokuSolver.TryCluesRestoring | src/sudoku_solver.rs:9-20 | the guessing loop, undoing each failed guess itself |
| SudokuSolver.SolveFreshRestoring | src/sudoku_solver.rs:4-23 | corrected solve on a fresh puzzle: solved with a solution exactly when one exists on clash-free digit boards, otherwise false with the grid untouched |
| SudokuGridExamples.CountingBoard | src/sudoku_grid.rs:229-232 | cell k holds k |
| SudokuGridExamples.TestPuzzle | src/sudoku_grid.rs:229-232 | a fresh valid puzzle over the counting board with no moves |
| SudokuGridExamples.SetThenUndo | src/sudoku_grid.rs:64-80 | set then undo keeps the stack and zeroes the cell; the puzzle is restored exactly when the cell was unfilled |
| SudokuGridExamples.SettingFirstSquareUpdatesAllStates | src/sudoku_grid.rs:233-243 | after setting cell 0 to 100, the grid and all three views hold 100 at its slots |
| SudokuGridExamples.Setting62ndSquareUpdatesAllStates | src/sudoku_grid.rs:244-254 | after setting cell 61 to 161, grid[61], rows[6][7], blocks[8][1] and cols[7][6] hold 161 |
| SudokuGridExamples.Block35OfCountingBoard | src/sudoku_grid.rs:255-264 | cell 35 lies in block 5, which on the counting board holds 33–35, 42–44 and 51–53 |
| SudokuGridExamples.GettingBlockForIndex35 | src/sudoku_grid.rs:255-264 | block of cell 35 on the counting board is [33, 34, 35, 42, 43, 44, 51, 52, 53] |
| SudokuGridExamples.GettingRowForIndex47 | src/sudoku_grid.rs:266-275 | row of cell 47 on the counting board is [45, …, 53] |
| SudokuGridExamples.GettingColForIndex14 | src/sudoku_grid.rs:277-286 | column of cell 14 on the counting board is [5, 14, 23, 32, 41, 50, 59, 68, 77] |
| SudokuGridExamples.UndoMoveReturnsBoardToPreviousPosition | src/sudoku_grid.rs:288-299 | set cell 0 then undo gives a puzzle equal to a fresh counting puzzle |
| SudokuSolverExamples.RowsDetermineBoard | src/sudoku_solver.rs:78-89 | a board with the rows of a row table is the board built from it |
| SudokuSolverExamples.CoveredBoardIsSolved | src/sudoku_solver.rs:78-89 | a board whose every row, column and block holds each digit 1–9 is filled and conflict-free |
| SudokuSolverExamples.SolvedTableCompletes | src/sudoku_solver.rs:78-89 | a filled covering table that keeps a puzzle's clues is a solution of it |
| SudokuSolverExamples.RowWithOneBlankForced | src/sudoku_solver.rs:57-90 | a row with one blank in a solution grid has only one way to be filled |
| SudokuSolverExamples.DiagonalClearedUnique | src/sudoku_solver.rs:57-90 | every solution of a grid whose rows are digit permutations with only the diagonal cleared has the rows of that grid |
| SudokuSolverExamples.OneMissingPuzzleSolvable | src/sudoku_solver.rs:57-90 | the one-missing test puzzle is a row table whose expected grid is its solution |
| SudokuSolverExamples.SolveOneMissingInEachDirection | src/sudoku_solver.rs:57-90 | solving the test puzzle returns true and leaves exactly the expected grid, row by row |
| SudokuSolverExamples.MultipleMissingPuzzleSolvable | src/sudoku_solver.rs:92-125 | the multiple-missing test puzzle has the expected grid as a solution |
| SudokuSolverExamples.SolveMultipleMissingInEachDirection | src/sudoku_solver.rs:92-125 | solving the test puzzle returns true and leaves a solution of it |
| SudokuSolverExamples.TableWithoutClashes | src/sudoku_solver.rs:19 | a row table whose rows, columns and blocks repeat no clue builds a conflict-free board |
| SudokuSolverExamples.CornerWithoutCandidate | src/sudoku_grid.rs:92-106 | when row 0 and column 0 together hold every digit, cell 0 has no candidate |
| SudokuSolverExamples.DeadEndHasNoSolution | src/sudoku_solver.rs:4-23 | the dead-end board is conflict-free and holds digits only, yet has no solution |
| SudokuSolverExamples.UnsolvableFreshPuzzlePanics | src/sudoku_solver.rs:19 | solving the dead-end board ends in the panic of the final undo |
| SudokuSolverExamples.UnsolvableFreshPuzzleFails | src/sudoku_solver.rs:4-23 | the corrected solver returns false on the dead-end board and leaves it untouched |

## Left out

- Benchmarks (`benches/`) and the fixture-driven integration test (`tests/solver_test.rs`) are left out. They load puzzles from files and time runs, which is I/O.
- `Clone`/`Debug` derivations and the `lazy_static` set of numbers are left out. The digits 1–9 are the constant set `SudokuRules.SudokuNumbers`.
- SudokuGrid.SudokuPuzzle.GetPossibleClues: the order of the candidates is left unspecified. The source collects them from a hash-set difference, so their order is not fixed. The contract promises only a duplicate-free list with the right elements, and the solver proofs rely on nothing more.
- The panics of the source are preconditions, except one:
  - an out-of-range index in `set_square`;
  - a wrong length in `from_vec` (`clone_from_slice`);
  - a non-digit in `from_str` (`to_digit(10).unwrap()`);
  - popping an empty stack in `undo_move` and `undo_moves`.

  The exception is the empty-stack undo reached inside `solve`. There it is the `StackUnderflow` outcome of `SudokuSolver.Solve`, because the reachable panic is the point of the Finding.
- SudokuGrid.SudokuPuzzle.FromStr accepts only the ASCII digits `0`–`9`. `to_digit(10)` also accepts no other characters, and the `as u8` cast of a value 0–9 is exact, so nothing is lost.
- `usize` overflow is not modelled. Indices are `nat` below 81, and the move stack is an unbounded `seq`. `set_square` pushes on every call, so its length has no bound.
- SudokuSolverExamples.SolveMultipleMissingInEachDirection proves only that the result is a solution of the test puzzle. The source test compares the result with one expected grid; that the puzzle has only that solution is not proved.
- SudokuSolverExamples.SolveOneMissingInEachDirection does not prove that forced fills alone solve the puzzle. It proves the outcome through uniqueness of the solution.
- Design and code differ in three places; the model follows the code.
  - The unfilled cells visited by one `forced_fill` pass are the ones unfilled when the pass starts. `get_clueless_squares_enumerated` iterates over a copy of the grid.
  - Cell values are not restricted to 0–9. `set_square` writes any `u8`, which is what the grid tests use (100, 161).
  - An undo zeroes the cell instead of restoring its earlier value, so set followed by undo restores the puzzle only when the cell was unfilled (`SudokuGridExamples.SetThenUndo`). On failure, `solve` does not leave the puzzle as it found it: it also removes its caller's last move (below).

## Findings

| source | as written | input that shows it | evidently intended | confidence | as-written member | corrected member |
|---|---|---|---|---|---|---|
| src/sudoku_solver.rs:19 | After every candidate fails, `solve` undoes its forced moves plus one more: the caller's guess. On the outermost call there is no such guess, so on a fresh puzzle `undo_move` pops an empty stack and `unwrap` panics instead of returning `false`. The `+ 1` also means a recursive call that fails removes a move it did not make. | A clash-free grid with only row 0 = `0 1 2 3 4 5 6 7 8` and cell 9 = `9` filled. Cell 0 has no candidate. | `solve` returns `false` and leaves the puzzle as it was; each caller undoes its own guess. | not executed | SudokuSolverExamples.UnsolvableFreshPuzzlePanics | SudokuSolverExamples.UnsolvableFreshPuzzleFails |
