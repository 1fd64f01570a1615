/**
 * controller.GameController of the older tree. It differs from the newer
 * controller in when it snapshots and in what a snapshot restores: updateCell
 * snapshots BEFORE the move (and even before an illegal one), loadState
 * copies the values only, startNewGame leaves both stacks empty, and
 * loadGame keeps them. The GUI calls are left out.
 */
module LegacyController {
  import opened Wrappers
  import opened Board
  import opened Model
  import opened Timing

  /** The values a stack of snapshots would restore, bottom first. */
  ghost function ValuesOf(ss: seq<GameState>): (r: seq<Grid>)
    ensures |r| == |ss| && forall k :: 0 <= k < |ss| ==> r[k] == ss[k].cells
  {
    if ss == [] then [] else ValuesOf(ss[..|ss| - 1]) + [ss[|ss| - 1].cells]
  }

  /** What checkSolution accepts: no cell holds 0. */
  predicate NoEmptyCell(g: Grid)
    requires IsBoard(g)
  {
    forall i, j :: 0 <= i < |g| && 0 <= j < |g| ==> g[i][j] != 0
  }

  /** On a board whose values stay within 0..N, checkSolution's test is exactly fullness. */
  lemma NoEmptyCellMeansFull(g: Grid)
    requires IsBoard(g) && forall i, j :: 0 <= i < |g| && 0 <= j < |g| ==> 0 <= g[i][j] <= |g|
    ensures NoEmptyCell(g) <==> IsFull(g)
  {
  }

  /** The board of all ones has no empty cell, yet repeats a value in every row: checkSolution does not check the rules. */
  lemma OnesPassCheck()
    ensures var g := seq(9, _ => seq(9, _ => 1));
      IsBoard(g) && NoEmptyCell(g) && !IsCompleteSolution(g)
  {
    var g := seq(9, _ => seq(9, _ => 1));
    SolutionRejectsRowDuplicate(g, 0, 0, 1);
  }

  class LegacyController {
    const grid: SudokuGrid
    const timer: Timer
    /** Stack<GameState>, bottom first; the top is the last element. */
    var undoStack: seq<GameState>
    var redoStack: seq<GameState>

    ghost predicate Valid()
      reads this, grid, grid.grid, grid.originalCells
      reads set s | s in undoStack + redoStack :: s.gridState
      reads set s | s in undoStack + redoStack :: s.originalCells
    {
      && grid.Valid()
      && forall s | s in undoStack + redoStack ::
           s.Valid() && |s.cells| == grid.size && s.gridState != grid.grid
    }

    /** new GameController(): an empty 9-board, a stopped clock at zero and empty stacks. */
    constructor ()
      ensures Valid() && fresh(grid) && fresh(timer) && grid.size == 9
      ensures grid.cells == EmptyGrid(9) && grid.givens == EmptyMask(9) && timer.seconds == 0 && !timer.running
      ensures undoStack == [] && redoStack == []
    {
      grid := new SudokuGrid(9);
      timer := new Timer();
      undoStack := [];
      redoStack := [];
    }

    /** saveState: push a snapshot of the current board and clear the redo stack. */
    method SaveState()
      requires Valid()
      modifies this
      ensures Valid()
      ensures ValuesOf(undoStack) == old(ValuesOf(undoStack)) + [grid.cells] && redoStack == []
    {
      var state := new GameState(grid, timer.seconds);
      undoStack := undoStack + [state];
      redoStack := [];
    }

    /**
     * updateCell: a given is left alone; otherwise the board is snapshotted
     * first, then a value passing isValidMove is written by setValue, and any
     * other value only yields "Invalid move!" (its snapshot stays pushed).
     * The returned flag tells whether that message would be shown.
     */
    method UpdateCell(row: int, col: int, value: int) returns (invalid: bool)
      requires Valid() && InBounds(grid.size, row, col)
      modifies this, grid, grid.grid
      ensures Valid() && grid.givens == old(grid.givens)
      ensures grid.givens[row][col] ==>
        !invalid && grid.cells == old(grid.cells) && undoStack == old(undoStack) && redoStack == old(redoStack)
      ensures !grid.givens[row][col] ==>
        && invalid == !IsLegal(old(grid.cells), row, col, value)
        && grid.cells == (if invalid then old(grid.cells) else Set(old(grid.cells), row, col, value))
        && ValuesOf(undoStack) == old(ValuesOf(undoStack)) + [old(grid.cells)] && redoStack == []
    {
      if grid.originalCells[row, col] {
        return false;
      }
      SaveState();
      var legal := grid.IsValidMove(row, col, value);
      if legal {
        var _ := grid.SetValueUnguarded(row, col, value);
        invalid := false;
      } else {
        invalid := true;
      }
    }

    /**
     * checkSolution: the nested scan for an empty cell (its break leaves only
     * the inner loop); a full board stops the clock and congratulates. Only
     * emptiness is checked, not the rules.
     */
    method CheckSolution() returns (complete: bool)
      requires Valid()
      modifies timer
      ensures complete == NoEmptyCell(grid.cells)
      ensures timer.running == (old(timer.running) && !complete) && timer.seconds == old(timer.seconds)
    {
      complete := true;
      for i := 0 to grid.size
        invariant complete == forall x, y :: 0 <= x < i && 0 <= y < grid.size ==> grid.cells[x][y] != 0
      {
        var j := 0;
        while j < grid.size
          invariant 0 <= j <= grid.size
          invariant complete ==> forall x, y :: 0 <= x < i && 0 <= y < grid.size ==> grid.cells[x][y] != 0
          invariant complete ==> forall y :: 0 <= y < j ==> grid.cells[i][y] != 0
          invariant !complete ==> exists x, y :: 0 <= x <= i && 0 <= y < grid.size && grid.cells[x][y] == 0
        {
          if grid.grid[i, j] == 0 {
            complete := false;
            break;
          }
          j := j + 1;
        }
      }
      if complete {
        timer.Stop();
      }
    }

    /**
     * undo: with an empty undo stack nothing happens; otherwise the current
     * board goes onto the redo stack and the values of the top undo snapshot
     * are restored. The givens and the clock stay as they are.
     */
    method Undo()
      requires Valid()
      modifies this, grid, grid.grid
      ensures Valid() && grid.givens == old(grid.givens)
      ensures |undoStack| + |redoStack| == old(|undoStack| + |redoStack|)
      ensures old(undoStack) == [] ==>
        undoStack == [] && redoStack == old(redoStack) && grid.cells == old(grid.cells)
      ensures old(undoStack) != [] ==>
        && ValuesOf(undoStack) == old(ValuesOf(undoStack))[..|old(undoStack)| - 1]
        && ValuesOf(redoStack) == old(ValuesOf(redoStack)) + [old(grid.cells)]
        && grid.cells == old(ValuesOf(undoStack))[|old(undoStack)| - 1]
    {
      if undoStack != [] {
        var currentState := new GameState(grid, timer.seconds);
        redoStack := redoStack + [currentState];
        var state := undoStack[|undoStack| - 1];
        undoStack := undoStack[..|undoStack| - 1];
        grid.LoadValues(state.gridState, state.cells);
      }
    }

    /** redo: the mirror image of undo. */
    method Redo()
      requires Valid()
      modifies this, grid, grid.grid
      ensures Valid() && grid.givens == old(grid.givens)
      ensures |undoStack| + |redoStack| == old(|undoStack| + |redoStack|)
      ensures old(redoStack) == [] ==>
        redoStack == [] && undoStack == old(undoStack) && grid.cells == old(grid.cells)
      ensures old(redoStack) != [] ==>
        && ValuesOf(redoStack) == old(ValuesOf(redoStack))[..|old(redoStack)| - 1]
        && ValuesOf(undoStack) == old(ValuesOf(undoStack)) + [old(grid.cells)]
        && grid.cells == old(ValuesOf(redoStack))[|old(redoStack)| - 1]
    {
      if redoStack != [] {
        var currentState := new GameState(grid, timer.seconds);
        undoStack := undoStack + [currentState];
        var state := redoStack[|redoStack| - 1];
        redoStack := redoStack[..|redoStack| - 1];
        grid.LoadValues(state.gridState, state.cells);
      }
    }

    /**
     * startNewGame with the kept-cell count of the current difficulty: a new
     * puzzle on the same board object, the clock reset and started, and both
     * stacks empty (no snapshot of the new game is pushed).
     */
    method StartNewGame(cellsToKeep: int)
      requires Valid() && 0 <= cellsToKeep
      modifies this, grid, grid.grid, grid.originalCells, timer
      ensures Valid()
      ensures Consistent(grid.cells) && grid.givens == FilledMask(grid.cells) && !Unsolvable(grid.cells)
      ensures FilledCount(grid.cells) == KeptCount(grid.size, cellsToKeep)
      ensures timer.running && timer.seconds == 0
      ensures undoStack == [] && redoStack == []
    {
      undoStack := [];
      redoStack := [];
      grid.GeneratePuzzle(cellsToKeep);
      timer.Reset();
      timer.Start();
    }

    /**
     * The state part of loadGame, given what FileHandler.loadGame found: with
     * nothing saved nothing changes; otherwise the saved values (not its
     * givens) are loaded and the clock takes the saved seconds and starts.
     * The undo and redo stacks are kept.
     */
    method LoadGame(saved: Option<GameState>)
      requires Valid()
      requires saved.Some? ==> saved.value.Valid() && |saved.value.cells| == grid.size
      modifies this, grid, grid.grid, timer
      ensures Valid() && grid.givens == old(grid.givens)
      ensures undoStack == old(undoStack) && redoStack == old(redoStack)
      ensures saved.None? ==>
        grid.cells == old(grid.cells) && timer.seconds == old(timer.seconds) && timer.running == old(timer.running)
      ensures saved.Some? ==>
        grid.cells == saved.value.cells && timer.seconds == saved.value.elapsedTime && timer.running
    {
      if saved.Some? {
        var state := saved.value;
        grid.LoadValues(state.gridState, state.cells);
        timer.SetElapsedSeconds(state.elapsedTime);
        timer.Start();
      }
    }
  }

  /**
   * Snapshots are taken before a move, so undo right after a legal move on a
   * non-given cell takes the move back, and redo puts it back again.
   */
  method UndoTakesMoveBack(c: LegacyController, row: int, col: int, value: int) returns (ghost afterUndo: Grid)
    requires c.Valid() && InBounds(c.grid.size, row, col)
    requires IsLegal(c.grid.cells, row, col, value) && !c.grid.givens[row][col]
    modifies c, c.grid, c.grid.grid
    ensures c.Valid()
    ensures afterUndo == old(c.grid.cells)
    ensures c.grid.cells == Set(old(c.grid.cells), row, col, value)
    ensures ValuesOf(c.undoStack) == old(ValuesOf(c.undoStack)) + [old(c.grid.cells)] && c.redoStack == []
  {
    var _ := c.UpdateCell(row, col, value);
    c.Undo();
    afterUndo := c.grid.cells;
    c.Redo();
  }
}
