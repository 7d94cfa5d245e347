# Sudoku backtracking solver — Dafny model

This project models the core of `SudokuSolverGUI`, a Swing program that solves
9x9 Sudoku puzzles by backtracking and shows each step on screen. The model
keeps the solver's own state:
- a 9x9 `board` of ints, where 0 marks an empty cell;
- three families of nine "used digit" sets, `rows`, `cols` and `subgrids`.

It also keeps the operations that change that state: clearing, loading a
built-in puzzle, placing and removing a digit, the admissibility test, the
row-major scan for an empty cell, and the recursive `solve`.

Files:
- `options.dfy`: the `Option` type, which stands for the Java code's `null` results.
- `grid.dfy` (module `SudokuGrid`): grids as values, including:
  - the box index;
  - the per-unit digit sets and the relation `Tracks`, which says that the sets
    hold exactly the digits of their row, column and box;
  - how placing and removing a digit changes the sets;
  - what a solution is.
- `puzzles.dfy` (module `SudokuPuzzles`): the two built-in puzzles.
- `search.dfy` (module `SudokuSearch`): `solve` as a pure function `Search` on grids.
  - Its recursion is bounded by the number of empty cells, `Zeros`.
  - Lemmas prove that it is sound and complete, and that it tries digits in increasing order.
- `solver.dfy` (module `SudokuSolver`): the class `Solver`.
  - Fields: the `array2` board and the three `seq<set<int>>` families.
  - A ghost mirror `Cells` holds the board as a grid value.
  - The invariant `Valid()` says that the sets track the board.
  - Each solver method of the Java class becomes a Dafny method. The recursive `Solve` is proved against `Search`.

The invariant does not require the givens to be conflict-free. `isValid` guards
every placement in `solve`, so removing a digit always undoes exactly the
placement before it. The sets therefore keep tracking the board whatever the
givens are. Correctness of the answer is stated under the condition that the
givens are proper (`ProperGivens`).

## Model

| member | source | states |
|---|---|---|
| SudokuGrid.Box | SudokuSolverGUI.java:102 | The box index of a cell is `(row / 3) * 3 + col / 3` and lies in 0..8. |
| SudokuGrid.Third | SudokuSolverGUI.java:167 | The band of a board index is its quotient by 3. |
| SudokuGrid.SameBox | SudokuSolverGUI.java:190 | Two cells get the same box index exactly when they lie in the same 3x3 block (same row / 3 and col / 3). |
| SudokuGrid.Blank | SudokuSolverGUI.java:120-128 | The cleared board has 0 in every cell. |
| SudokuGrid.NoDigits | SudokuSolverGUI.java:114-118 | The cleared sets: nine empty sets. |
| SudokuGrid.Update | SudokuSolverGUI.java:164 | Writing into one cell sets that cell and leaves every other cell unchanged. |
| SudokuGrid.UpdateUndo | SudokuSolverGUI.java:164 | Writing a digit into an empty cell and then writing 0 gives back the original grid. |
| SudokuGrid.UnitPeers | SudokuSolverGUI.java:187-191 | Two cells of one row, column or box are peers. |
| SudokuGrid.BlankTracks | SudokuSolverGUI.java:113-129 | The empty sets track the empty board. |
| SudokuGrid.CanPlaceIffUnused | SudokuSolverGUI.java:187-191 | When the sets track the board, the three set lookups of isValid decide exactly whether no peer cell holds the digit. Both directions are proved. |
| SudokuGrid.DigitsPlace | SudokuSolverGUI.java:163-167 | Writing a non-zero digit into an empty cell adds that digit to the digit set of every unit holding the cell, and changes no other unit. |
| SudokuGrid.DigitsRemove | SudokuSolverGUI.java:171-175 | Clearing a cell whose digit has no other copy among its peers removes the digit from the digit set of every unit holding the cell. |
| SudokuGrid.TracksPlace | SudokuSolverGUI.java:163-169 | placeNumber into an empty cell keeps the 27 sets equal to the digits of their units. |
| SudokuGrid.TracksRemove | SudokuSolverGUI.java:171-177 | removeNumber of a digit with no other copy among its peers keeps the 27 sets equal to the digits of their units. |
| SudokuGrid.PlaceRemoveRoundTrip | SudokuSolverGUI.java:150-156 | Placing an admissible digit into an empty cell and removing it again restores the grid and all 27 sets exactly. |
| SudokuGrid.PlaceKeepsProper | SudokuSolverGUI.java:150-151 | Placing an admissible digit 1..9 into an empty cell of a conflict-free puzzle keeps it conflict-free. |
| SudokuGrid.CompletionAdmitted | SudokuSolverGUI.java:149-150 | Any solution of the grid holds, in each empty cell, a digit that isValid admits there. |
| SudokuGrid.PlacedExtends | SudokuSolverGUI.java:151-154 | A result that keeps the digits of the grid after a placement also keeps the digits before it, and has the placed digit. |
| SudokuGrid.CompletesPlaced | SudokuSolverGUI.java:151-154 | A solution of the grid that has v at an empty cell is a solution of the grid with v written there. |
| SudokuPuzzles.Puzzles | SudokuSolverGUI.java:17-40 | There are exactly two built-in puzzles, both 9x9 grids of digits 0..9. |
| SudokuSearch.Search | SudokuSolverGUI.java:143-161 | No contract of its own. It defines what solve computes: the board unchanged when no cell is empty, otherwise the digit loop at the first empty cell. Its properties are `SearchSound`, `SearchComplete` and `EarlierDigitsFail`, and `Solver.Solve` is proved equal to it. |
| SudokuSearch.TryDigits | SudokuSolverGUI.java:149-158 | No contract of its own. It defines the digit loop: for num from `from` to 9, the first admissible digit whose sub-search succeeds gives the result, and None when there is none. `TryDigitsStep`, `TryDigitsPick` and `TryDigitsReaches` state its behaviour. |
| SudokuSearch.Zeros | SudokuSolverGUI.java:143-161 | No contract of its own. The number of empty cells is the termination measure of solve's recursion; `ZerosFill` and `ZerosFilled` state its properties. |
| SudokuSearch.CountZeros | SudokuSolverGUI.java:179-185 | The number of empty cells of a row is at most its length, and is 0 exactly when the row has no 0. |
| SudokuSearch.ZerosNone | SudokuSolverGUI.java:144-145 | The count of empty cells is 0 exactly when no row has a 0. |
| SudokuSearch.ZerosFilled | SudokuSolverGUI.java:144-145 | On a 9x9 grid the count of empty cells is 0 exactly when the grid is full. Together with `FirstEmptyIsFirst`, this is when findEmptyCell finds nothing. |
| SudokuSearch.CountZerosFill | SudokuSolverGUI.java:151 | Filling one 0 of a row leaves one 0 fewer. |
| SudokuSearch.ZerosReplaceRow | SudokuSolverGUI.java:151 | Replacing one row changes the count by the difference of the two rows' counts. |
| SudokuSearch.ZerosFill | SudokuSolverGUI.java:151-154 | Each placement before the recursive solve leaves one empty cell fewer, so the recursion terminates. |
| SudokuSearch.FirstZero | SudokuSolverGUI.java:181-183 | A column the inner scan returns holds a 0 and is at or after the start. |
| SudokuSearch.FirstZeroSkipsNone | SudokuSolverGUI.java:181-183 | The inner scan skips no 0, and finds none only when the rest of the row has no 0. |
| SudokuSearch.FirstEmptyFrom | SudokuSolverGUI.java:180-184 | A cell the scan from a given row on returns is empty, in range and in a row at or after the start. |
| SudokuSearch.FirstEmptyFromSkipsNone | SudokuSolverGUI.java:180-184 | The scan from a given row on skips no empty cell, and finds none only when those rows are full. |
| SudokuSearch.FirstEmpty | SudokuSolverGUI.java:179-185 | The cell findEmptyCell returns is in range and empty. |
| SudokuSearch.FirstEmptyIsFirst | SudokuSolverGUI.java:179-185 | Every cell before the one returned is filled in row-major order. None is returned exactly when the board is full. |
| SudokuSearch.TryDigitsStep | SudokuSolverGUI.java:149-158 | One turn of the digit loop: return the sub-search's result if the digit is admissible and the sub-search succeeds; otherwise go on with the next digit. |
| SudokuSearch.TryDigitsPick | SudokuSolverGUI.java:149-158 | A success of the digit loop comes from a digit at or after the start that was admissible and whose sub-search gave the result. |
| SudokuSearch.SearchSound | SudokuSolverGUI.java:143-161 | A grid solve returns is full and keeps every placed digit. When the givens were conflict-free digits, it is a solution. |
| SudokuSearch.TryDigitsReaches | SudokuSolverGUI.java:149-158 | The digit loop succeeds once any later digit is admissible and its sub-search succeeds. |
| SudokuSearch.SearchComplete | SudokuSolverGUI.java:143-161 | If the grid has any solution, solve succeeds. |
| SudokuSearch.TryDigitsFirst | SudokuSolverGUI.java:149-154 | The digit left in the tried cell is at least the loop's start, admissible there, and its sub-search produced the result. |
| SudokuSearch.EarlierDigitsFail | SudokuSolverGUI.java:149-158 | Every admissible digit smaller than the one kept was tried first and its sub-search failed. |
| SudokuSearch.FullGridReturned | SudokuSolverGUI.java:144-145 | A board with no empty cell is reported solved unchanged. |
| SudokuSearch.RepeatedGivensReportedSolved | SudokuSolverGUI.java:143-145 | solve does not check the givens: a full board of 1s conflicts everywhere and is still reported solved. |
| SudokuSolver.Solver.constructor | SudokuSolverGUI.java:51-54 | A new solver has a freshly allocated all-zero board and 27 empty sets, which track it. |
| SudokuSolver.Solver.ClearBoard | SudokuSolverGUI.java:113-129 | Every set is emptied and every cell set to 0; the invariant holds afterwards. |
| SudokuSolver.Solver.LoadPuzzle | SudokuSolverGUI.java:88-110 | After clearing, the board equals the puzzle and the sets hold exactly the given digits of each row, column and box. |
| SudokuSolver.Solver.LoadRandomPuzzle | SudokuSolverGUI.java:87-111 | The board becomes the chosen built-in puzzle, a grid of digits 0..9, tracked by the sets. |
| SudokuSolver.Solver.PlaceNumber | SudokuSolverGUI.java:163-169 | Exactly one cell is written, and the digit is added to its row, column and box sets (`Added`, the model of `HashSet.add`). From a valid state, into an empty cell and with a non-zero digit, the invariant is kept (by `TracksPlace`). |
| SudokuSolver.Solver.RemoveNumber | SudokuSolverGUI.java:171-177 | Exactly one cell is cleared, and the digit is removed from its row, column and box sets (`Removed`, the model of `HashSet.remove`). From a valid state in which the cell holds a non-zero digit that no peer repeats, the invariant is kept (by `TracksRemove`). |
| SudokuSolver.Solver.FindEmptyCell | SudokuSolverGUI.java:179-185 | The nested loops return the first empty cell in row-major order, or None, as FirstEmpty does. |
| SudokuSolver.Solver.IsValid | SudokuSolverGUI.java:187-191 | The result is true exactly when no peer of the cell holds the digit. |
| SudokuSolver.Solver.Solve | SudokuSolverGUI.java:143-161 | The result is true exactly when Search succeeds on the entry board; the board is then Search's result. On false, the board and all 27 sets are as on entry. The invariant is kept and the recursion is bounded by the empty-cell count. |
| SudokuSolver.Solver.TryDigit | SudokuSolverGUI.java:150-157 | One turn of the digit loop succeeds exactly when the digit is admissible and the search on the grid with it placed succeeds. A failed turn restores the board and all sets. |
| SudokuSolver.Solver.SolvePuzzle | SudokuSolverGUI.java:131-141 | "Solved" means a full board keeping every given, and a solution when the givens were conflict-free digits. "No solution" means the puzzle has no solution and the board is unchanged. |

## Left out

- The Swing user interface is not modelled. This covers the cell text fields and their colours, the buttons, the dialogs, and `updateCell`; none of them changes the solver's state.
- The pacing `delay(getSpeed())` after each place and remove is not modelled, because it only changes the timing. `getSpeed`'s parsing of the speed field is not modelled either.
- Running `solvePuzzle` on its own thread is not modelled. The model runs solve sequentially and has no concurrent clicks.
- `new Random().nextInt(puzzles.length)` becomes the `choice` parameter of `LoadRandomPuzzle`, constrained to the same range 0..1.
- In `loadRandomPuzzle`, a 0 is written into a cell that `clearBoard` has just set to 0. `LoadPuzzle` skips that write because it has no effect.
- SudokuPuzzles.Puzzles: states the shape and digit range of the built-in puzzles, but not that their givens are conflict-free; that property of the two literal grids is not proved.
- SudokuSolver.Solver.Solve: correctness of the result (a solution of the puzzle) holds only for conflict-free givens, as `SolvePuzzle` states. With repeated givens, solve can report success on a board that is not a solution; see `RepeatedGivensReportedSolved`. This matches the program, which never checks the givens. The program only loads the two built-in puzzles, whose givens do not repeat within any row, column or box when read off the grids, but the model does not prove that (see the `SudokuPuzzles.Puzzles` line above).
- Board values are unbounded integers. The program's ints never leave 0..9, so 32-bit overflow plays no part.
