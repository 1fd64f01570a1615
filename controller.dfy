/**
 * com.sudoku.controller.GameController: the board, the game clock and two
 * stacks of GameState snapshots for undo and redo. The GUI calls are left
 * out; what the controller would show is returned instead where it depends
 * on the state.
 */
module Controller {
  import opened Wrappers
  import opened Board
  import opened Model
  import opened Timing

  /** What a snapshot holds: values, givens and elapsed seconds. */
  datatype Snapshot = Snapshot(cells: Grid, givens: Mask, seconds: int32)

  /** The contents of a snapshot object (its fields never change). */
  ghost function Contents(s: GameState): Snapshot {
    Snapshot(s.cells, s.givens, s.elapsedTime)
  }

  /** The contents of a stack of snapshots, bottom first. */
  ghost function Stack(ss: seq<GameState>): (r: seq<Snapshot>)
    ensures |r| == |ss| && forall k :: 0 <= k < |ss| ==> r[k] == Contents(ss[k])
  {
    if ss == [] then [] else Stack(ss[..|ss| - 1]) + [Contents(ss[|ss| - 1])]
  }

  class GameController {
    var grid: SudokuGrid
    const timer: Timer
    /** Stack<GameState>, bottom first; the top is the last element. */
    var undoStack: seq<GameState>
    var redoStack: seq<GameState>

    ghost predicate Valid()
      reads this, grid, grid.grid, grid.originalCells
      reads set s | s in undoStack + redoStack :: s.gridState
      reads set s | s in undoStack + redoStack :: s.originalCells
    {
      && grid.Valid()
      && forall s | s in undoStack + redoStack ::
           s.Valid() && |s.cells| == grid.size && s.gridState != grid.grid && s.originalCells != grid.originalCells
    }

    /** The state a snapshot taken now would hold. */
    ghost function Current(): Snapshot
      reads this, grid, timer
    {
      Snapshot(grid.cells, grid.givens, timer.seconds)
    }

    /** new GameController(): an empty 9-board, a stopped clock at zero and empty stacks. */
    constructor ()
      ensures Valid() && fresh(grid) && fresh(timer) && grid.size == 9
      ensures grid.cells == EmptyGrid(9) && grid.givens == EmptyMask(9) && timer.seconds == 0 && !timer.running
      ensures undoStack == [] && redoStack == []
    {
      grid := new SudokuGrid(9);
      timer := new Timer();
      undoStack := [];
      redoStack := [];
    }

    /** saveState: push a snapshot of the current state and clear the redo stack. */
    method SaveState()
      requires Valid()
      modifies this
      ensures Valid() && grid == old(grid)
      ensures Stack(undoStack) == old(Stack(undoStack)) + [Current()] && redoStack == []
    {
      var state := new GameState(grid, timer.seconds);
      undoStack := undoStack + [state];
      redoStack := [];
    }

    /**
     * checkWinCondition: stop the clock when isSolved holds. Returns whether
     * the congratulation would be shown. isSolved never holds (NeverSolved),
     * so neither happens.
     */
    method CheckWinCondition() returns (won: bool)
      requires Valid()
      modifies timer
      ensures won == Board.IsSolved(grid.cells)
      ensures timer.running == (old(timer.running) && !won) && timer.seconds == old(timer.seconds)
    {
      won := grid.IsSolved();
      if won {
        timer.Stop();
      }
    }

    /**
     * updateCell: a value failing isValidMove changes nothing; a legal one is
     * written by setValue (not on a given), then the post-move state is pushed
     * and the redo stack cleared. The clock is never stopped.
     */
    method UpdateCell(row: int, col: int, value: int)
      requires Valid() && InBounds(grid.size, row, col)
      modifies this, grid, grid.grid, timer
      ensures Valid() && grid == old(grid)
      ensures timer.running == old(timer.running) && timer.seconds == old(timer.seconds)
      ensures grid.givens == old(grid.givens)
      ensures !IsLegal(old(grid.cells), row, col, value) ==>
        grid.cells == old(grid.cells) && undoStack == old(undoStack) && redoStack == old(redoStack)
      ensures IsLegal(old(grid.cells), row, col, value) ==>
        && grid.cells == (if grid.givens[row][col] then old(grid.cells) else Set(old(grid.cells), row, col, value))
        && Stack(undoStack) == old(Stack(undoStack)) + [Current()] && redoStack == []
    {
      var legal := grid.IsValidMove(row, col, value);
      if legal {
        var _ := grid.SetValue(row, col, value);
        SaveState();
        var _ := CheckWinCondition();
        NeverSolved(grid.cells);
      }
    }

    /**
     * undo: with an empty undo stack nothing happens; otherwise the current
     * state goes onto the redo stack and the top undo snapshot is restored
     * (values, givens and seconds).
     */
    method Undo()
      requires Valid()
      modifies this, grid.grid, grid.originalCells, grid, timer
      ensures Valid() && grid == old(grid) && timer.running == old(timer.running)
      ensures |undoStack| + |redoStack| == old(|undoStack| + |redoStack|)
      ensures old(undoStack) == [] ==>
        undoStack == [] && redoStack == old(redoStack) && Current() == old(Current())
      ensures old(undoStack) != [] ==>
        && Stack(undoStack) == old(Stack(undoStack))[..|old(undoStack)| - 1]
        && Stack(redoStack) == old(Stack(redoStack)) + [old(Current())]
        && Current() == old(Stack(undoStack))[|old(undoStack)| - 1]
    {
      if undoStack != [] {
        var currentState := new GameState(grid, timer.seconds);
        redoStack := redoStack + [currentState];
        var previousState := undoStack[|undoStack| - 1];
        undoStack := undoStack[..|undoStack| - 1];
        grid.LoadState(previousState);
        timer.SetElapsedSeconds(previousState.elapsedTime);
      }
    }

    /** redo: the mirror image of undo. */
    method Redo()
      requires Valid()
      modifies this, grid.grid, grid.originalCells, grid, timer
      ensures Valid() && grid == old(grid) && timer.running == old(timer.running)
      ensures |undoStack| + |redoStack| == old(|undoStack| + |redoStack|)
      ensures old(redoStack) == [] ==>
        redoStack == [] && undoStack == old(undoStack) && Current() == old(Current())
      ensures old(redoStack) != [] ==>
        && Stack(redoStack) == old(Stack(redoStack))[..|old(redoStack)| - 1]
        && Stack(undoStack) == old(Stack(undoStack)) + [old(Current())]
        && Current() == old(Stack(redoStack))[|old(redoStack)| - 1]
    {
      if redoStack != [] {
        var currentState := new GameState(grid, timer.seconds);
        undoStack := undoStack + [currentState];
        var nextState := redoStack[|redoStack| - 1];
        redoStack := redoStack[..|redoStack| - 1];
        grid.LoadState(nextState);
        timer.SetElapsedSeconds(nextState.elapsedTime);
      }
    }

    /**
     * startNewGame with the kept-cell count of the difficulty: a new 9-board
     * with a generated puzzle, both stacks cleared, the clock reset and
     * started, and the new game pushed as the only undo snapshot.
     */
    method StartNewGame(cellsToKeep: int)
      requires Valid() && 0 <= cellsToKeep
      modifies this, timer
      ensures Valid() && fresh(grid) && grid.size == 9
      ensures Consistent(grid.cells) && grid.givens == FilledMask(grid.cells) && !Unsolvable(grid.cells)
      ensures FilledCount(grid.cells) == KeptCount(9, cellsToKeep)
      ensures timer.running && timer.seconds == 0
      ensures Stack(undoStack) == [Current()] && redoStack == []
    {
      grid := new SudokuGrid(9);
      grid.GeneratePuzzle(cellsToKeep);
      undoStack := [];
      redoStack := [];
      timer.Reset();
      timer.Start();
      SaveState();
    }

    /**
     * The state part of loadGame, given what FileHandler.loadGame found: with
     * nothing saved nothing changes; otherwise values, givens and seconds are
     * restored and the loaded game becomes the only undo snapshot.
     */
    method LoadGame(saved: Option<GameState>)
      requires Valid()
      requires saved.Some? ==> saved.value.Valid() && |saved.value.cells| == grid.size
      modifies this, grid.grid, grid.originalCells, grid, timer
      ensures Valid() && grid == old(grid) && timer.running == old(timer.running)
      ensures saved.None? ==>
        Current() == old(Current()) && undoStack == old(undoStack) && redoStack == old(redoStack)
      ensures saved.Some? ==>
        && Current() == Contents(saved.value)
        && Stack(undoStack) == [Contents(saved.value)] && redoStack == []
    {
      if saved.Some? {
        var state := saved.value;
        grid.LoadState(state);
        timer.SetElapsedSeconds(state.elapsedTime);
        undoStack := [];
        redoStack := [];
        SaveState();
      }
    }
  }

  /**
   * Snapshots are taken after a move, so the first undo after a legal move
   * on a non-given cell restores the post-move board, not the pre-move one.
   */
  method FirstUndoKeepsMove(c: GameController, row: int, col: int, value: int)
    requires c.Valid() && InBounds(c.grid.size, row, col)
    requires IsLegal(c.grid.cells, row, col, value) && !c.grid.givens[row][col]
    modifies c, c.grid, c.grid.grid, c.grid.originalCells, c.timer
    ensures c.Valid()
    ensures c.grid.cells == Set(old(c.grid.cells), row, col, value)
  {
    c.UpdateCell(row, col, value);
    c.Undo();
  }

  /** Undo followed by redo restores the state and both stacks' contents. */
  method UndoThenRedo(c: GameController)
    requires c.Valid() && c.undoStack != []
    modifies c, c.grid, c.grid.grid, c.grid.originalCells, c.timer
    ensures c.Valid()
    ensures c.Current() == old(c.Current())
    ensures Stack(c.undoStack) == old(Stack(c.undoStack)) && Stack(c.redoStack) == old(Stack(c.redoStack))
  {
    ghost var undo0 := Stack(c.undoStack);
    c.Undo();
    c.Redo();
    assert undo0 == undo0[..|undo0| - 1] + [undo0[|undo0| - 1]];
  }
}
