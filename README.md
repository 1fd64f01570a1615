# Sudoku engine and move history, in Dafny

This project models the puzzle engine of a Java Sudoku game and proves properties of the model. The repository holds two copies of the game. The complete one lives under `com.sudoku`. An older, partial one lives under `src/`. Both are modelled where their logic differs.

- **Board** (`board.dfy`). These are the rules of `com.sudoku.model.SudokuGrid` as functions on an N-by-N value grid (N is 9 or 16, with blocks of 3 or 4):
  - the row, column and block scans of `isValidMove`, with their meaning;
  - consistency, and completions of a board;
  - the existence of a solved board of each size;
  - counts of filled cells;
  - `isSolved` as written, and the intended check;
  - the candidate lists and the first-found hint.
- **Model** (`model.dfy`). The classes `SudokuGrid` and `GameState`:
  - their `int[][]` and `boolean[][]` are `array2`s, mirrored by ghost values;
  - each scan is a method with loops, proved against the Board functions;
  - the backtracking generator, cell removal, marking of givens, the guarded and unguarded `setValue`, and both `loadState`s are methods that update the arrays in place;
  - the `GameState` constructor deep-copies the board.
- **LegacyBoard** (`legacy_board.dfy`). This is the fewest-candidates `getHint` of the older tree. It collects hints in row-major order and stable-sorts them by candidate count.
- **Controller** and **LegacyController**. These are the two `GameController`s, each with its undo and redo stacks of snapshots. The newer one snapshots after a legal move. The older one snapshots before the legality check, and its snapshots restore values only.
- **Timing** (`TimerLogic`). This is the seconds counter with Java `int` wrap-around, and its `mm:ss` text, which reads back as the count.
- **Hints** (`Hint`). This is the hint record and its `toString` message.
- **Codec** (`GridPanel`). This covers which typed characters a cell accepts, the value a character stands for, and a cell's text and editability.
- **Text** and **Wrappers**. These are decimal rendering and parsing, and `Option`/`Result`.

Randomness (`Collections.shuffle`, `Random.nextInt`) is modelled as an arbitrary choice, so every property holds whatever the random source returns. Exceptions thrown on purpose are modelled as `Result` failures.

## Model

| member | source | states |
|---|---|---|
| Model.SudokuGrid.constructor | src/main/java/com/sudoku/model/SudokuGrid.java:12-21 | a new board of an accepted size holds only zeros and has no givens |
| Model.SudokuGrid.Create | src/main/java/com/sudoku/model/SudokuGrid.java:12-15 | construction fails with the invalid-size error exactly when the size is neither 9 nor 16; otherwise the board is empty and has no givens |
| Model.SudokuGrid.IsValidInRow | src/main/java/com/sudoku/model/SudokuGrid.java:94-99 | the row scan succeeds exactly when no cell of the row holds the number |
| Model.SudokuGrid.IsValidInColumn | src/main/java/com/sudoku/model/SudokuGrid.java:101-106 | the column scan succeeds exactly when no cell of the column holds the number |
| Model.SudokuGrid.IsValidInSubgrid | src/main/java/com/sudoku/model/SudokuGrid.java:108-118 | the block scan succeeds exactly when no cell of the cell's block holds the number |
| Model.SudokuGrid.IsValidMove | src/main/java/com/sudoku/model/SudokuGrid.java:88-92 | the move check agrees with the legality predicate on every board |
| Board.LegalMeans | src/main/java/com/sudoku/model/SudokuGrid.java:88-118 | a move is legal exactly when the number is absent from the row, the column and the block |
| Board.PlaceLegalKeepsConsistent | src/main/java/com/sudoku/model/SudokuGrid.java:48-49 | writing a legal number into a consistent board keeps it consistent |
| Board.ClearingKeepsConsistent | src/main/java/com/sudoku/model/SudokuGrid.java:68-78 | clearing any cells of a consistent board keeps it consistent |
| Board.SetRestore | src/main/java/com/sudoku/model/SudokuGrid.java:49-53 | writing a cell's old value back undoes a write |
| Board.IllegalExcluded | src/main/java/com/sudoku/model/SudokuGrid.java:47-48 | a number that fails the move check at a cell appears there in no solved completion of the board |
| Board.AllExcludedUnsolvable | src/main/java/com/sudoku/model/SudokuGrid.java:46-56 | if every number of the list is excluded at the first empty cell, the board has no solved completion |
| Board.PatternSolved | src/main/java/com/sudoku/model/SudokuGrid.java:23-25 | the shifted-pattern board is a solved completion of the empty board, for both sizes |
| Board.EmptySolvable | src/main/java/com/sudoku/model/SudokuGrid.java:23-25 | the empty board of either size has a solved completion, so generation from it cannot fail |
| Model.SudokuGrid.ClearGrid | src/main/java/com/sudoku/model/SudokuGrid.java:30-35 | afterwards every value is 0 and no cell is a given |
| Model.SudokuGrid.ShuffledNumbers | src/main/java/com/sudoku/model/SudokuGrid.java:59-66 | the list is a permutation of 1..N, whatever swaps the shuffle picks |
| Board.ShuffleMembers | src/main/java/com/sudoku/model/SudokuGrid.java:59-66 | a permutation of 1..N holds exactly the numbers 1..N, each once |
| Model.SudokuGrid.GenerateSolution | src/main/java/com/sudoku/model/SudokuGrid.java:37-57 | the board stays consistent. On success it is full and the cells before the start are unchanged. On failure it is restored exactly, and no solved board extends it |
| Model.SudokuGrid.RemoveCells | src/main/java/com/sudoku/model/SudokuGrid.java:68-78 | exactly N*N - k filled cells are cleared, none when k >= N*N; each cell keeps its value or becomes 0; givens unchanged |
| Board.FilledCountClear | src/main/java/com/sudoku/model/SudokuGrid.java:73-75 | clearing one filled cell lowers the filled count by one |
| Board.FullCount | src/main/java/com/sudoku/model/SudokuGrid.java:68-69 | a full board has N*N filled cells |
| Model.SudokuGrid.MarkOriginalCells | src/main/java/com/sudoku/model/SudokuGrid.java:80-86 | values unchanged; a cell is a given exactly when it is non-zero |
| Model.SudokuGrid.GeneratePuzzle | src/main/java/com/sudoku/model/SudokuGrid.java:23-28 | the puzzle is consistent and has exactly the kept number of filled cells. The givens are the filled cells, and a solved completion exists |
| Board.SolvedMeans | src/main/java/com/sudoku/model/SudokuGrid.java:120-129 | the isSolved scan holds exactly when every cell is non-zero and passes the move check with its own value |
| Model.SudokuGrid.IsSolved | src/main/java/com/sudoku/model/SudokuGrid.java:120-129 | the method returns the scan's verdict on the current board |
| Board.NeverSolved | src/main/java/com/sudoku/model/SudokuGrid.java:94-129 | isSolved as written is false on every board |
| Board.SolutionRejectsRowDuplicate | src/main/java/com/sudoku/model/SudokuGrid.java:94-99 | a board with a repeated value in a row is not a solution |
| Board.CellPassesClearedMeans | src/main/java/com/sudoku/model/SudokuGrid.java:123 | with the cell cleared first, a filled cell passes the move check exactly when no other peer repeats its value |
| Board.SolvedClearedMeans | src/main/java/com/sudoku/model/SudokuGrid.java:120-129 | the corrected isSolved holds exactly on full, consistent boards |
| Board.PatternSolvedCleared | src/main/java/com/sudoku/model/SudokuGrid.java:120-129 | a solved board is accepted by the corrected check and rejected by the check as written |
| Board.Candidates | src/model/SudokuGrid.java:22-30 | the candidate list holds exactly the values 1..N that pass the move check, strictly ascending |
| Model.SudokuGrid.ValidNumbers | src/main/java/com/sudoku/model/SudokuGrid.java:135-140 | the candidate loop returns the candidate list of the cell |
| Board.FirstHint | src/main/java/com/sudoku/model/SudokuGrid.java:131-148 | a hint names an empty cell with candidates, carries all of them, and no earlier cell qualifies. There is no hint exactly when no empty cell has a candidate |
| Model.SudokuGrid.GetHint | src/main/java/com/sudoku/model/SudokuGrid.java:131-148 | the nested scan returns the first-found hint, and changes nothing |
| Model.SudokuGrid.SetValue | src/main/java/com/sudoku/model/SudokuGrid.java:154-161 | out-of-range indices fail with the position error and change nothing. A given is left as it is; any other cell takes the value, unchecked. Givens never change, and givens that were non-zero stay non-zero |
| Model.SudokuGrid.SetValueUnguarded | src/model/SudokuGrid.java:32-37 | out-of-range indices fail and change nothing; otherwise the cell takes the value even if it is a given |
| Model.SudokuGrid.LoadState | src/main/java/com/sudoku/model/SudokuGrid.java:171-179 | values and givens become the snapshot's |
| Model.SudokuGrid.LoadValues | src/model/SudokuGrid.java:39-44 | values become the snapshot's; givens unchanged |
| Model.GameState.constructor | src/model/GameState.java:11-23 | the snapshot holds fresh arrays equal to the board's values and givens, and the elapsed time verbatim |
| Model.SnapshotRoundTrip | src/main/java/com/sudoku/model/SudokuGrid.java:171-179 | loading a snapshot just taken of a board leaves its values and givens unchanged |
| Model.SnapshotIsDeep | src/model/GameState.java:13-22 | a later write to the board does not change an existing snapshot |
| LegacyBoard.HintsFrom | src/model/SudokuGrid.java:2-14 | the collected hints are exactly the empty cells with candidates, each with its full list, in strictly row-major order |
| LegacyBoard.SortByCount | src/model/SudokuGrid.java:17 | the sort returns a permutation of the hints, ordered by candidate count |
| LegacyBoard.SortedHead | src/model/SudokuGrid.java:17-19 | the head of the stable sort is the first hint with the fewest candidates |
| LegacyBoard.FewestBeatsAll | src/model/SudokuGrid.java:17-19 | the chosen hint has no more candidates than any empty cell with candidates, and strictly fewer than each such cell before it |
| LegacyBoard.FewestHint | src/model/SudokuGrid.java:1-20 | the older getHint is empty exactly when no empty cell has a candidate. Otherwise it names an empty cell with its full candidate list; no such cell has fewer candidates, and every such cell before it has more |
| Controller.GameController.constructor | src/main/java/com/sudoku/controller/GameController.java:19-26 | an empty 9-board with no givens, a clock stopped at zero, and empty stacks |
| Controller.GameController.SaveState | src/main/java/com/sudoku/controller/GameController.java:111-114 | a snapshot of the current values, givens and seconds is pushed, and the redo stack is cleared |
| Controller.GameController.UpdateCell | src/main/java/com/sudoku/controller/GameController.java:49-56 | an illegal value changes neither the board nor either stack. A legal one is written unless the cell is a given, then the post-move state is pushed and redo cleared. The clock is untouched |
| Controller.GameController.CheckWinCondition | src/main/java/com/sudoku/controller/GameController.java:58-63 | the clock is stopped exactly when the isSolved scan holds, and the result is that scan |
| Controller.GameController.Undo | src/main/java/com/sudoku/controller/GameController.java:116-126 | with nothing to undo nothing changes. Otherwise the current state goes onto redo and the top undo snapshot's values, givens and seconds are restored. The total stack size is kept |
| Controller.GameController.Redo | src/main/java/com/sudoku/controller/GameController.java:128-138 | the mirror image of Undo |
| Controller.GameController.StartNewGame | src/main/java/com/sudoku/controller/GameController.java:38-47 | a fresh generated 9-board and a running clock from zero. The new game is the only undo snapshot and redo is empty |
| Controller.GameController.LoadGame | src/main/java/com/sudoku/controller/GameController.java:90-109 | with nothing saved nothing changes. Otherwise the saved state is restored and becomes the only undo snapshot, with redo empty |
| Controller.FirstUndoKeepsMove | src/main/java/com/sudoku/controller/GameController.java:49-126 | the first undo after a legal move on a non-given cell leaves the post-move board |
| Controller.UndoThenRedo | src/main/java/com/sudoku/controller/GameController.java:116-138 | undo followed by redo restores the state and the contents of both stacks |
| LegacyController.LegacyController.constructor | src/controller/GameController.java:21-28 | an empty 9-board with no givens, a clock stopped at zero, and empty stacks |
| LegacyController.LegacyController.SaveState | src/controller/GameController.java:105-108 | the current values are pushed and the redo stack is cleared |
| LegacyController.LegacyController.UpdateCell | src/controller/GameController.java:44-58 | a given changes nothing. Otherwise the pre-move values are pushed and redo cleared, even for an illegal value. A legal value is written; an illegal one is reported and changes nothing |
| LegacyController.LegacyController.CheckSolution | src/controller/GameController.java:60-77 | the board is reported complete exactly when no cell is 0, and the clock is stopped exactly then |
| LegacyController.NoEmptyCellMeansFull | src/controller/GameController.java:60-69 | on values within 0..N, the completeness test is exactly fullness |
| LegacyController.OnesPassCheck | src/controller/GameController.java:60-77 | a board of all ones passes the completeness test but is not a solution |
| LegacyController.LegacyController.Undo | src/controller/GameController.java:87-94 | with nothing to undo nothing changes. Otherwise the current values go onto redo and the top snapshot's values are restored. Givens and clock unchanged; total stack size kept |
| LegacyController.LegacyController.Redo | src/controller/GameController.java:96-103 | the mirror image of Undo |
| LegacyController.LegacyController.StartNewGame | src/controller/GameController.java:35-42 | a generated puzzle on the same board, a running clock from zero, and both stacks empty |
| LegacyController.LegacyController.LoadGame | src/controller/GameController.java:136-151 | with nothing saved nothing changes. Otherwise the saved values and seconds are loaded and the clock runs. Givens and both stacks are kept |
| LegacyController.UndoTakesMoveBack | src/controller/GameController.java:44-103 | undo right after a legal move on a non-given cell restores the pre-move board (the returned board), and redo puts the move back, leaving the pre-move board as the only new undo entry |
| Timing.Increment | src/main/java/com/sudoku/model/TimerLogic.java:18-21 | a tick adds one second, and the largest int wraps to the smallest |
| Timing.Timer.constructor | src/main/java/com/sudoku/model/TimerLogic.java:11-15 | a new timer is at zero seconds and not running |
| Timing.Timer.Tick | src/main/java/com/sudoku/model/TimerLogic.java:18-21 | a tick advances the counter by one, with wrap-around |
| Timing.Timer.Reset | src/main/java/com/sudoku/model/TimerLogic.java:32-36 | reset stops the clock and zeroes the counter |
| Timing.Timer.SetElapsedSeconds | src/main/java/com/sudoku/model/TimerLogic.java:48-51 | the counter takes the given value |
| Timing.Timer.Start | src/main/java/com/sudoku/model/TimerLogic.java:24-26 | the clock runs and the counter is unchanged |
| Timing.Timer.Stop | src/main/java/com/sudoku/model/TimerLogic.java:28-30 | the clock stops and the counter is unchanged |
| Timing.Timer.ElapsedSeconds | src/main/java/com/sudoku/model/TimerLogic.java:44-46 | the reading is the current counter |
| Timing.SetThenTick | src/main/java/com/sudoku/model/TimerLogic.java:18-51 | below the largest int, after the counter is set to n the returned reading is n, and the reading after one more tick is n + 1 |
| Timing.DivRem | src/main/java/com/sudoku/model/TimerLogic.java:39-40 | Java's truncating quotient and remainder always recombine, and the remainder takes the sign of the dividend |
| Timing.FieldsOfTime | src/main/java/com/sudoku/model/TimerLogic.java:38-42 | for a non-negative count, minutes * 60 + seconds gives the count back, with seconds in 0..59 |
| Timing.ClockReadsBack | src/main/java/com/sudoku/model/TimerLogic.java:41 | two padded fields joined by ':' read back as minutes * 60 + seconds |
| Timing.FormattedTime | src/main/java/com/sudoku/model/TimerLogic.java:38-42 | for a non-negative count the text is two or more digits, ':', then two digits, and it reads back as the count |
| Text.Pad2ReadsBack | src/main/java/com/sudoku/model/TimerLogic.java:41 | "%02d" of a non-negative number gives two or more digits that read back as the number |
| Text.ParseNatText | src/main/java/com/sudoku/model/Hint.java:25-29 | the decimal text of a natural number reads back as that number |
| Hints.Message | src/main/java/com/sudoku/model/Hint.java:20-31 | the message always starts with "Try " and goes on after it |
| Hints.MessageForm | src/main/java/com/sudoku/model/Hint.java:20-31 | the message reads "Try one of " exactly when there is not exactly one candidate, and in that form the whole candidate list follows it |
| Hints.SingleCandidateShown | src/main/java/com/sudoku/model/Hint.java:23-25 | a single candidate is shown as its own decimal text right after "Try " |
| Hints.PositionShown | src/main/java/com/sudoku/model/Hint.java:20-31 | the message is "Try ", the candidate part, then " in position (r,c)", where r and c are decimal texts reading back as the 1-based row and column |
| Codec.IsValidInput | src/main/java/com/sudoku/view/GridPanel.java:73-81 | an accepted character always stands for a value, within 1..9 on a 9-board and within 1..15 on a 16-board |
| Codec.KeyValue | src/main/java/com/sudoku/view/GridPanel.java:61-65 | a character stands for a value exactly when it is a digit or an ASCII letter, and the value is within 0..35 |
| Codec.DigitKeyValue | src/main/java/com/sudoku/view/GridPanel.java:61-65 | a typed digit stands for its decimal value |
| Codec.LetterKeyValue | src/main/java/com/sudoku/view/GridPanel.java:61-65 | a lowercase letter stands for the same value as its uppercase form, 'a' for 10 up to 'z' for 35 |
| Codec.CellText | src/main/java/com/sudoku/view/GridPanel.java:89-96 | the text is empty exactly for 0. A value shown in decimal reads back as itself; on a 16-board a value above 9 is one non-digit character |
| Codec.AcceptedOnNine | src/main/java/com/sudoku/view/GridPanel.java:73-75 | a 9-board accepts exactly '1'..'9' |
| Codec.AcceptedOnSixteen | src/main/java/com/sudoku/view/GridPanel.java:76-80 | a 16-board accepts exactly '1'..'9' and A-F in either case |
| Codec.RoundTripNine | src/main/java/com/sudoku/view/GridPanel.java:61-96 | each value 1..9 of a 9-board displays as one accepted character that decodes back to it |
| Codec.RoundTripSixteen | src/main/java/com/sudoku/view/GridPanel.java:61-96 | each value 1..15 of a 16-board displays as one accepted character that decodes back to it |
| Board.FilledMaskGivensFilled | src/main/java/com/sudoku/model/SudokuGrid.java:80-86 | marking the filled cells as givens makes every given non-zero |
| Board.WriteKeepsGivensFilled | src/main/java/com/sudoku/model/SudokuGrid.java:154-161 | a write to a non-given cell keeps every given non-zero |
| Codec.EditableExactlyNonGivens | src/main/java/com/sudoku/view/GridPanel.java:89-98 | on a board whose givens are non-zero, as generation and guarded writes keep them, a cell is editable exactly when it is not a given |
| Codec.SixteenUntypeable | src/main/java/com/sudoku/view/GridPanel.java:73-96 | 16 displays as "G", which the filter rejects, and no accepted character decodes to 16 |
| Codec.RoundTripSixteenFixed | src/main/java/com/sudoku/view/GridPanel.java:76-80 | with 'G' also accepted, every value 1..16 round-trips, and nothing accepted decodes outside 1..16 |

## Left out

- The Swing user interface is not modelled: `SudokuGUI`, the layout and highlighting of both `GridPanel`s, the key listeners beyond the character codec, and the `JOptionPane` messages. Where a message depends on the state, the controller methods return the flag that decides it.
- `FileHandler` (object serialisation) and `Logger` (file I/O with timestamps) are not modelled. `loadGame` takes what the file lookup would have returned as an `Option<GameState>` parameter.
- The Swing `Timer` that calls the tick once a second is not modelled; `Timing.Timer` keeps only whether it runs, and `Tick` is an explicit method.
- `java.util.Random` and `Collections.shuffle` are not modelled as such: each random draw is an arbitrary choice, so the proved properties hold for every outcome.
- Model.SudokuGrid.RemoveCells: each step picks an arbitrary filled cell. The source also draws empty cells and skips them, so it ends only with probability 1; those skipped draws are not modelled.
- Model.SudokuGrid.RemoveCells: requires at least N*N - k filled cells, as after generation. The source would loop forever otherwise.
- `DifficultyLevel` is not modelled: it holds `double` rates and does not define the `getInitialCells()` the grid calls. The kept-cell count is an integer parameter instead.
- Model.SudokuGrid.IsValidMove: requires the cell to be on the board. Off the board the source mostly throws an `ArrayIndexOutOfBoundsException`, and so do `updateCell` in both controllers and `isOriginal`. One case does not throw: with the row on the board, the column off it and the number already in that row, the row scan fails first and `&&` skips the column scan, so `isValidMove` returns false and the newer `updateCell` does nothing. That case is not modelled.
- Model.SudokuGrid.LoadState and Model.SudokuGrid.LoadValues: require a snapshot of the board's own size. The source copies `size` entries per row. It throws on a smaller snapshot, and from a larger one it loads the top-left N-by-N corner; the larger case is not modelled.
- Controller.GameController.LoadGame and LegacyController.LegacyController.LoadGame: require a saved state of the board's size, for the same reasons; a larger saved state is not modelled.
- Codec.CellText: requires a value whose character cast lands below the surrogate range. The Java `(char)` cast truncates to 16 bits, which is not modelled.
- `Character.isDigit`, `getNumericValue` and `toUpperCase` are modelled on ASCII only.
- `List.toString` is modelled as `Text.ListText` for lists of ints.
- Controller.GameController.CheckWinCondition: the congratulation message is not modelled; the method returns whether it would be shown.
- The older tree constructs `new GameState(grid)` with one argument, but only the two-argument constructor exists. LegacyController passes the clock's seconds; its undo and redo never read them.
- The older `SudokuGrid` fragment has no `isValidMove`, `isOriginal` or `generatePuzzle`, so the older controller uses the `com.sudoku` ones.
- The older controller's `checkWinCondition` is called but not defined in that file. `LegacyController.LegacyController.UpdateCell` therefore leaves it out.
- The older controller's `loadGame` calls `timer.setElapsedTime` (src/controller/GameController.java:142), which the older `src/model/TimerLogic.java` does not define. LegacyController.LegacyController.LoadGame uses the newer `setElapsedSeconds` in its place.
- `getHint` and `provideHint` are not modelled as controller methods, because they only format a message; the hint itself is modelled.
- `src/view/GridPanel.java`, `src/model/Hint.java` and `src/model/TimerLogic.java` repeat logic that is modelled once here.
- `Math.sqrt` is not modelled: the block side is fixed at 3 for size 9 and 4 for size 16.

## Findings

| source | as written | input that shows it | evidently intended | confidence | as-written member | corrected member |
|---|---|---|---|---|---|---|
| src/main/java/com/sudoku/model/SudokuGrid.java:120-129 | each filled cell is checked with `isValidMove` against a board that still holds it, so the row scan always finds the cell's own value and `isSolved` is false on every board | any solved 9-board, e.g. the shifted pattern 1..9, 4..3, 7..6, ... | check each cell with the cell itself cleared, so that exactly full, consistent boards pass | not executed | Board.NeverSolved | Board.SolvedClearedMeans |
| src/main/java/com/sudoku/view/GridPanel.java:76-96 | on a 16-board the value 16 is shown as "G", but the input filter only accepts A-F | typing 'G' (or 'g') into a cell of a 16-board | accept 'G' as well, so that every value 1..16 can be entered. The defect is latent: the controller only builds 9-boards | not executed | Codec.SixteenUntypeable | Codec.RoundTripSixteenFixed |

The controllers keep the checks as written. This way the model of each controller matches what the program does: in the newer one the win check never fires. The 16-board defect cannot show in the game as shipped, since the controller only ever builds 9-boards (src/main/java/com/sudoku/controller/GameController.java:20 and :39); on a 16-board, 16 could never be typed.
