# Sudoku solver and editor, modelled in Dafny

This project models the core of a small pygame Sudoku program:

- the backtracking solver of `scripts/solver.py`, made of `is_valid` and `solve_sudoku`;
- the editor state of `SudokuGUI` in `scripts/gui.py`.

The editor holds a board, the set of cells the user typed in, the selected cell and a status line. Its transitions are arrow-key moves, mouse selection, digit entry and deletion, clear-all (C), reset-calculated (R) and solve-and-merge (S).

The model has three modules:

- `Grid` (grid.dfy) is the shared vocabulary. A board is a 9×9 `array2<int>` in which 0 marks an empty cell. `Cells` takes a snapshot of the array as a `seq<seq<int>>`. On those snapshots the module defines:
  - the three checks `is_valid` makes (row, column, 3×3 block);
  - what a consistent board, a solution and "keeps the clues" mean;
  - the row-major order in which the search meets solutions;
  - the count of empty cells, which is the termination measure.

  It also holds the lemmas about these definitions.
- `Solver` (solver.dfy) holds `is_valid` as a method with the block scan and its loops. It holds `solve_sudoku` as a recursive method that works in place on the array. The three nested levels of `solve_sudoku` are three methods:
  - `Solve` scans for the first empty cell;
  - `TryDigits` is the loop over the digits 1..9;
  - `TryDigit` tries one candidate: it places the digit, recurses, and resets the cell on failure.

  Their order of operations is the source's.
- `Gui` (gui.dfy) holds the class `SudokuGUI` with the editor's fields and one method per transition, plus the pure functions those methods are specified by.

What is proved about the solver:

- The search always terminates: each recursive call has one empty cell fewer, and there are at most 81.
- When it fails, the board is exactly as it was, and *no* solution exists that keeps the board's non-zero cells. The search is complete.
- When it succeeds:
  - every cell is filled;
  - every non-zero input cell is kept;
  - every empty input cell receives a digit 1..9;
  - a consistent input stays consistent.
- The solution found is the least one in row-major order among all solutions that keep the clues.
- On a well-formed puzzle the search succeeds exactly when a solution exists, and what it returns is a solution.

The editor keeps one invariant through every transition: every cell the user typed in is on the board and holds a non-zero value. The `Valid` predicate states it. It holds because the model handles keys as intended; the branch as written lets a Unicode zero digit break it (see Findings).

A key press reaches the model as its character, a backspace flag and its decimal value. The predicate `Gui.DecimalValue` is the abstraction of the digit test `isdigit` and the conversion `int` at scripts/gui.py:164-165: the value is the digit's when the character is a decimal digit and absent otherwise, and it is fixed for every ASCII character.

The editor's `solve_sudoku` and `is_valid` (scripts/gui.py:84-109) are copies of the free functions with the same logic. The class methods `SudokuGUI.SolveSudoku` and `SudokuGUI.IsValid` therefore delegate to `Solver`, and carry the same contracts.

## Model

| member | source | states |
|---|---|---|
| Grid.Place | scripts/solver.py:24 | the board after one write: cell (r, c) holds v, every other cell is as before |
| Grid.Store | scripts/solver.py:24 | writing v into the array places v on its snapshot (the in-place write of a candidate into the board) |
| Grid.PlaceRestores | scripts/solver.py:27 | writing the previous value back after a placement gives the original board |
| Grid.BlockStart | scripts/solver.py:10 | the start of k's block, three times k divided by 3, is a multiple of 3, at most k, with k inside its 3-wide band, and the band ends by 9 |
| Grid.SameBlock | scripts/solver.py:10-12 | row (or column) i lies in the block scanned for k exactly when i and k have the same quotient by 3 |
| Solver.IsValid | scripts/solver.py:1-15 | returns true exactly when num occurs nowhere in the row, nowhere in the column and nowhere in the 3×3 block of (row, col) |
| Gui.SudokuGUI.IsValid | scripts/gui.py:98-109 | the editor's copy of `is_valid`, with the same contract |
| Solver.Solve | scripts/solver.py:17-29 | failure: board untouched and no solution keeps its clues; success: `Found` (filled, clues kept, empty cells get 1..9, consistency kept, least solution); on a well-formed puzzle success exactly when solvable; a filled board returns true untouched |
| Solver.TryDigits | scripts/solver.py:21-28 | for the first empty cell: failure leaves the board untouched and means no solution keeps its clues; success means `Found` |
| Solver.TryDigit | scripts/solver.py:22-27 | one candidate, every smaller digit dead: failure restores the board and the digit is dead too (rejected by `is_valid`, or no solution after placing it); success means `Found` |
| Gui.SudokuGUI.SolveSudoku | scripts/gui.py:84-96 | the editor's copy of `solve_sudoku`, with the same contract |
| Solver.SolutionDigitAlive | scripts/solver.py:22-23 | the digit a solution holds at an empty cell is never skipped: `is_valid` accepts it and the solution keeps the clues with it placed |
| Solver.NoCandidateNoSolution | scripts/solver.py:22-28 | when every digit 1..9 is dead for the first empty cell, no solution keeps the board's clues, so `return False` is sound |
| Solver.SuccessAfterPlacing | scripts/solver.py:23-26 | a successful recursive call after placing num, every smaller digit dead, yields `Found` for the board before the placement |
| Solver.FilledIsFound | scripts/solver.py:19-29 | a board with no empty cell is its own search result |
| Solver.FoundSolves | scripts/solver.py:17-29 | on a well-formed puzzle (digits 0..9, consistent clues) a search result is a solution, so the puzzle is solvable |
| Solver.ConsistentCompletionSolves | scripts/solver.py:17-29 | a consistent completion of a board of digits is a solution keeping its clues |
| Grid.ZeroCountPlace | scripts/solver.py:21-25 | filling one empty cell removes exactly one empty cell: the recursion's measure drops by one |
| Grid.ZeroCountBound | scripts/solver.py:19-21 | at most 81 cells are empty, and none exactly when the board is filled, so the recursion is at most 81 deep |
| Grid.SolutionDigitAccepted | scripts/solver.py:1-15 | the digit a solution keeping the clues holds at an empty cell passes all three checks of `is_valid` |
| Grid.ExtendsPlace | scripts/solver.py:24 | a solution holding v at (r, c) keeps the clues of the board with v placed there |
| Grid.PlaceKeepsConsistent | scripts/solver.py:23-24 | placing a digit that `is_valid` accepts keeps a consistent board consistent |
| Grid.PlacedDigitUnique | scripts/solver.py:4-15 | a digit accepted for (r, c) differs from every cell sharing a row, a column or a block with it |
| Grid.ConsistentIffEveryCellRechecks | scripts/solver.py:1-15 | a filled board is consistent exactly when every cell, emptied again, passes `is_valid` with its own digit |
| Grid.ClearedCellRechecks | scripts/solver.py:1-15 | in a consistent board, the digit of a filled cell passes `is_valid` for that cell once it is emptied |
| Grid.SolutionUnitsArePermutations | scripts/solver.py:22-26 | every row, column and block of a solution holds every digit 1..9 |
| Grid.SolutionRowHasDigit | scripts/solver.py:4-5 | every row of a solution holds every digit 1..9 |
| Grid.SolutionColumnHasDigit | scripts/solver.py:7-8 | every column of a solution holds every digit 1..9 |
| Grid.SolutionBlockHasDigit | scripts/solver.py:10-14 | every block of a solution holds every digit 1..9 |
| Grid.BlockCellsDiffer | scripts/solver.py:10-14 | the nine cells of a block, counted row by row, hold nine different digits in a solution |
| Grid.LexLeqAntisymmetric | scripts/solver.py:19-22 | the row-major order has at most one least element, so "the first solution found" names one board |
| Grid.EmptyBoardSolvable | scripts/solver.py:17-29 | the empty board has a solution, so the search succeeds on it |
| Gui.SudokuGUI.constructor | scripts/gui.py:20-33 | the editor starts with the example puzzle, no user cells, the top-left cell selected, status Ready, and the invariant holds |
| Gui.Moved | scripts/gui.py:71-82 | the selection after an arrow key stays on the board; it is unchanged exactly when it sits on the edge the key points to, and otherwise moves one step that way |
| Gui.MovedChangesOneCoordinate | scripts/gui.py:73-81 | a move off the edge changes exactly one coordinate, by exactly one |
| Gui.SudokuGUI.MoveSelection | scripts/gui.py:71-82 | the selection becomes `Moved(old selection, dir)`; the invariant holds |
| Gui.CellAt | scripts/gui.py:151-152 | a click above the footer selects the cell whose 60-pixel square holds the pointer; a click on the footer selects nothing |
| Gui.SudokuGUI.Click | scripts/gui.py:150-152 | the selection becomes the clicked cell, or stays when the footer is clicked; the invariant holds |
| Gui.DigitOf | scripts/gui.py:164-165 | an ASCII digit character stands for the digit 0..9 whose character it is |
| Gui.KeyEditAsWritten | scripts/gui.py:164-169 | the key branch as written: a key with a decimal value other than the character '0' writes that value, backspace or '0' erases, any other key is ignored |
| Gui.KeyEdit | scripts/gui.py:164-169 | the intended key handling: a key writes exactly when its decimal value is non-zero, and writes that digit 1..9; it erases exactly when it does not write and is backspace or a zero digit |
| Gui.KeyEditAsWrittenDiffers | scripts/gui.py:164-169 | the branch as written and the intended handling agree on a key exactly when the key is not a zero digit other than the character '0' |
| Gui.KeyEditAgreesOnAscii | scripts/gui.py:164-169 | on every ASCII key the branch as written is the intended handling |
| Gui.UnicodeZeroAsWrittenBreaksInvariant | scripts/gui.py:164-166 | as written, the Arabic-Indic digit zero writes 0 and marks the cell as typed, which leaves a typed cell empty on every board |
| Gui.SudokuGUI.EnterKey | scripts/gui.py:162-169 | a key with a non-zero decimal value writes that digit into the selected cell and marks it as typed; backspace or a zero digit empties the cell and drops the mark; any other key changes nothing; no other cell changes; the invariant holds |
| Gui.KeepUserCells | scripts/gui.py:111-116 | typed cells keep their value, every other cell is 0 |
| Gui.SudokuGUI.ResetCalculated | scripts/gui.py:111-116 | the board becomes `KeepUserCells` of the old board; the invariant holds |
| Gui.KeepUserCellsIdempotent | scripts/gui.py:111-116 | pressing R twice is pressing it once |
| Gui.ResetClearsInitialPuzzle | scripts/gui.py:20-33 | the example puzzle's clues are not typed cells, so R on a fresh editor empties the whole board |
| Gui.SudokuGUI.ResetBoard | scripts/gui.py:118-121 | a fresh board with all 81 cells 0 and no typed cells |
| Gui.SudokuGUI.CopyBoard | scripts/gui.py:127 | the working copy is a fresh array with the same cells |
| Gui.Merge | scripts/gui.py:129-132 | typed cells keep their value, every other cell takes the solved copy's value |
| Gui.SudokuGUI.WriteSolved | scripts/gui.py:129-132 | the board becomes `Merge(old board, solved copy, typed cells)`; the invariant holds |
| Gui.MergeOfExtension | scripts/gui.py:128-132 | since typed cells are clues, merging a solved copy that keeps the clues gives the solved copy itself |
| Gui.ResetUndoesMerge | scripts/gui.py:111-135 | R after S gives the same board as R before S |
| Gui.ExtensionKeepsUserCells | scripts/gui.py:129-132 | a board that keeps the clues keeps every typed cell and its value, so S never changes a typed cell |
| Gui.SudokuGUI.SolveCurrentBoard | scripts/gui.py:123-135 | status ends Solved or NoSolution; NoSolution: board untouched and no solution keeps its clues; Solved: the board is `Found` for the old board; on a well-formed puzzle Solved exactly when solvable; the invariant holds |

## Left out

- Rendering and window handling are not modelled: `draw_grid`, `draw_numbers`, `draw_footer`, the colours, and pygame's display, font and clock. They are foreign UI calls with no state of their own.
- `pygame.display.flip()` in `solve_current_board` is not modelled, and neither is the "Solving..." status shown during the search, which is overwritten before the method returns.
- The event loop itself (polling, key codes, quitting, `sys.exit`) is not modelled. Only the transitions it triggers are methods. That includes mouse selection, which is `Click`.
- The status texts "Cleared" and "Reset calculated values" are not modelled, because the event loop writes them rather than the methods modelled here.
- The key handler's test that a cell is selected is not modelled: the selection is always a non-empty pair, so the test always passes.
- Gui.SudokuGUI.EnterKey: a key is given as its character, a backspace flag, and its decimal value. Which non-ASCII characters are decimal digits, and their values, come from Unicode's table, which is not part of this model: the caller supplies the value, and only ASCII characters have it fixed by `DecimalValue`. A character that Python's `isdigit` accepts but `int` rejects, such as a superscript digit, raises an exception in the source and ends the program; such a key reaches the model with no decimal value, and both `KeyEdit` and `KeyEditAsWritten` ignore it, where the source raises.
- Gui.SudokuGUI.EnterKey follows the corrected key handling `KeyEdit`, not the branch as written (see Findings). The two agree on every ASCII key.
- Gui.SudokuGUI.Click requires the pointer to be inside the 540×600 window, where pygame reports clicks.
- The script part of `scripts/solver.py` (the example grid, the call and the printing) is not modelled. It is I/O on a fixed input, and following the whole search on that grid is too expensive to do in the verifier.
- No claim about running time is made: the search is worst-case exponential.
- Gui.SudokuGUI.SolveCurrentBoard: the contract states the result through `Found`. That typed cells are unchanged is stated separately, by `Gui.ExtensionKeepsUserCells` together with the invariant.

## Findings

| source | as written | input that shows it | evidently intended | confidence | as-written member | corrected member |
|---|---|---|---|---|---|---|
| scripts/gui.py:164-166 | a key is written into the selected cell, and the cell marked as typed, when `isdigit` accepts it and it is not the character '0' | the Arabic-Indic digit zero U+0660 (or the fullwidth zero U+FF10): `isdigit` accepts it and `int` gives 0, so the cell becomes 0 yet counts as typed; S then keeps that empty cell and reports the board solved | every zero digit erases the cell like '0' does, so that a typed cell always holds a digit 1..9 | not executed | Gui.UnicodeZeroAsWrittenBreaksInvariant | Gui.KeyEdit |
