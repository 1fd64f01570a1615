/**
 * com.sudoku.model.SudokuGrid, the board object both controllers mutate, and
 * model.GameState, the deep-copied snapshot of it that the undo and redo
 * stacks hold. The two classes refer to each other, so they share a module.
 *
 * The board keeps its int[][] values and boolean[][] givens as two N-by-N
 * arrays; the ghost fields cells and givens mirror them as values, and every
 * method states its effect on those mirrors in terms of the functions of
 * module Board.
 */
module Model {
  import opened Wrappers
  import opened Hints
  import opened Board
  import opened Timing

  /** The IllegalArgumentException the constructor and setValue throw. */
  datatype GridError = InvalidGridSize | InvalidCellPosition

  /** The array a holds exactly the values of g. */
  ghost predicate HoldsGrid(a: array2<int>, g: Grid)
    reads a
  {
    a.Length0 == |g| && (forall i :: 0 <= i < |g| ==> |g[i]| == a.Length1) &&
    forall i, j :: 0 <= i < a.Length0 && 0 <= j < a.Length1 ==> a[i, j] == g[i][j]
  }

  /** The array a holds exactly the flags of m. */
  ghost predicate HoldsMask(a: array2<bool>, m: Mask)
    reads a
  {
    a.Length0 == |m| && (forall i :: 0 <= i < |m| ==> |m[i]| == a.Length1) &&
    forall i, j :: 0 <= i < a.Length0 && 0 <= j < a.Length1 ==> a[i, j] == m[i][j]
  }

  /** The count of kept cells after removeCells(k) on a full board of n * n cells. */
  function KeptCount(n: int, k: int): int {
    if n * n - k > 0 then k else n * n
  }

  class SudokuGrid {
    const size: int
    const subgridSize: int
    const grid: array2<int>
    const originalCells: array2<bool>
    /** The values of grid, as a value. */
    ghost var cells: Grid
    /** The flags of originalCells (the givens), as a value. */
    ghost var givens: Mask

    ghost predicate Valid()
      reads this, grid, originalCells
    {
      && ValidSize(size) && subgridSize == SubgridSize(size)
      && IsBoard(cells) && |cells| == size && IsSquare(givens, size)
      && HoldsGrid(grid, cells) && grid.Length1 == size
      && HoldsMask(originalCells, givens) && originalCells.Length1 == size
    }

    /** new SudokuGrid(size) for a size the constructor accepts: an empty board without givens. */
    constructor (size: int)
      requires ValidSize(size)
      ensures Valid() && fresh(grid) && fresh(originalCells)
      ensures this.size == size && cells == EmptyGrid(size) && givens == EmptyMask(size)
    {
      this.size := size;
      subgridSize := SubgridSize(size);
      grid := new int[size, size]((i, j) => 0);
      originalCells := new bool[size, size]((i, j) => false);
      cells := EmptyGrid(size);
      givens := EmptyMask(size);
    }

    /** new SudokuGrid(size), throwing for every size but 9 and 16. */
    static method Create(size: int) returns (r: Result<SudokuGrid, GridError>)
      ensures r.Failure? <==> !ValidSize(size)
      ensures r.Failure? ==> r.error == InvalidGridSize
      ensures r.Success? ==>
        && r.value.Valid() && fresh(r.value) && fresh(r.value.grid) && fresh(r.value.originalCells)
        && r.value.size == size && r.value.cells == EmptyGrid(size) && r.value.givens == EmptyMask(size)
    {
      if size != 9 && size != 16 {
        return Failure(InvalidGridSize);
      }
      var g := new SudokuGrid(size);
      return Success(g);
    }

    // -------------------------------------------------------------------
    // The read-only scans
    // -------------------------------------------------------------------

    /** isValidInRow: num occurs nowhere in the row. */
    method IsValidInRow(row: int, num: int) returns (ok: bool)
      requires Valid() && 0 <= row < size
      ensures ok <==> NotInRow(cells, row, num)
    {
      for j := 0 to size
        invariant forall k :: 0 <= k < j ==> cells[row][k] != num
      {
        if grid[row, j] == num {
          return false;
        }
      }
      return true;
    }

    /** isValidInColumn: num occurs nowhere in the column. */
    method IsValidInColumn(col: int, num: int) returns (ok: bool)
      requires Valid() && 0 <= col < size
      ensures ok <==> NotInColumn(cells, col, num)
    {
      for i := 0 to size
        invariant forall k :: 0 <= k < i ==> cells[k][col] != num
      {
        if grid[i, col] == num {
          return false;
        }
      }
      return true;
    }

    /** isValidInSubgrid: num occurs nowhere in the block starting at ((row/s)*s, (col/s)*s). */
    method IsValidInSubgrid(row: int, col: int, num: int) returns (ok: bool)
      requires Valid() && InBounds(size, row, col)
      ensures ok <==> NotInSubgrid(cells, row, col, num)
    {
      var startRow := (row / subgridSize) * subgridSize;
      var startCol := (col / subgridSize) * subgridSize;
      BlockOriginOf(size, row, col);
      for i := 0 to subgridSize
        invariant forall x, y | startRow <= x < startRow + i && startCol <= y < startCol + subgridSize ::
          cells[x][y] != num
      {
        for j := 0 to subgridSize
          invariant forall x, y | startRow <= x < startRow + i && startCol <= y < startCol + subgridSize ::
            cells[x][y] != num
          invariant forall x, y | x == startRow + i && startCol <= y < startCol + j :: cells[x][y] != num
        {
          if grid[startRow + i, startCol + j] == num {
            return false;
          }
        }
      }
      return true;
    }

    /** isValidMove: the row, column and block scans, in that order, as predicate IsLegal states them. */
    method IsValidMove(row: int, col: int, num: int) returns (ok: bool)
      requires Valid() && InBounds(size, row, col)
      ensures ok == IsLegal(cells, row, col, num)
    {
      LegalMeans(cells, row, col, num);
      ok := IsValidInRow(row, num);
      if ok {
        ok := IsValidInColumn(col, num);
      }
      if ok {
        ok := IsValidInSubgrid(row, col, num);
      }
    }

    /** isSolved: the row-major scan that stops at the first empty or illegal cell. */
    method IsSolved() returns (solved: bool)
      requires Valid()
      ensures solved == Board.IsSolved(cells)
    {
      for i := 0 to size
        invariant SolvedBefore(cells, i, 0)
      {
        for j := 0 to size
          invariant SolvedBefore(cells, i, j)
        {
          var legal := false;
          if grid[i, j] != 0 {
            legal := IsValidMove(i, j, grid[i, j]);
          }
          if !legal {
            assert !CellPasses(cells, i, j);
            SolvedMeans(cells);
            return false;
          }
        }
      }
      return true;
    }

    /** The candidate loop of getHint: the values 1..N that pass isValidMove at (row, col). */
    method ValidNumbers(row: int, col: int) returns (validNumbers: seq<int>)
      requires Valid() && InBounds(size, row, col)
      ensures validNumbers == Candidates(cells, row, col)
    {
      validNumbers := [];
      for num := 1 to size + 1
        invariant validNumbers == CandidatesBelow(cells, row, col, num)
      {
        var legal := IsValidMove(row, col, num);
        if legal {
          validNumbers := validNumbers + [num];
        }
      }
    }

    /** getHint: the first empty cell in row-major order with a candidate, as FirstHint states it. */
    method GetHint() returns (hint: Option<Hint>)
      requires Valid()
      ensures hint == FirstHint(cells)
    {
      for i := 0 to size
        invariant FirstHintFrom(cells, i, 0) == FirstHint(cells)
      {
        for j := 0 to size
          invariant FirstHintFrom(cells, i, j) == FirstHint(cells)
        {
          if grid[i, j] == 0 {
            var validNumbers := ValidNumbers(i, j);
            if validNumbers != [] {
              return Some(Hint(i, j, validNumbers));
            }
          }
        }
      }
      return None;
    }

    // -------------------------------------------------------------------
    // Generation
    // -------------------------------------------------------------------

    /** clearGrid: every value 0 and every flag false. */
    method ClearGrid()
      requires Valid()
      modifies this, grid, originalCells
      ensures Valid() && cells == EmptyGrid(size) && givens == EmptyMask(size)
    {
      for i := 0 to size
        invariant forall x, y :: 0 <= x < i && 0 <= y < size ==> grid[x, y] == 0 && !originalCells[x, y]
      {
        for j := 0 to size
          invariant forall x, y :: 0 <= x < i && 0 <= y < size ==> grid[x, y] == 0 && !originalCells[x, y]
          invariant forall y :: 0 <= y < j ==> grid[i, y] == 0 && !originalCells[i, y]
        {
          grid[i, j] := 0;
          originalCells[i, j] := false;
        }
      }
      cells := EmptyGrid(size);
      givens := EmptyMask(size);
    }

    /** getShuffledNumbers: the list 1..N, then shuffled by swapping each position with an arbitrary earlier one. */
    method ShuffledNumbers() returns (numbers: seq<int>)
      requires Valid()
      ensures IsShuffle(numbers, size)
    {
      numbers := [];
      for v := 1 to size + 1
        invariant numbers == OneTo(v - 1)
      {
        numbers := numbers + [v];
      }
      var i := |numbers| - 1;
      while i > 0
        invariant 0 <= i < |numbers| == size
        invariant IsShuffle(numbers, size)
      {
        var k :| 0 <= k <= i;
        numbers := numbers[i := numbers[k]][k := numbers[i]];
        i := i - 1;
      }
    }

    /**
     * generateSolution(row, col): fill the cells from (row, col) on by
     * backtracking over a shuffled candidate order. Either the board is
     * completed, keeping the earlier cells, or it is restored and no solved
     * board extends it.
     */
    method GenerateSolution(row: int, col: int) returns (ok: bool)
      requires Valid() && 0 <= row < size && 0 <= col <= size
      requires Consistent(cells) && PrefixFilled(cells, row, col)
      modifies this, grid
      decreases size - row, size - col
      ensures Valid() && givens == old(givens)
      ensures Consistent(cells)
      ensures ok ==> IsFull(cells) && SameBefore(cells, old(cells), row, col)
      ensures !ok ==> cells == old(cells) && Unsolvable(old(cells))
    {
      var r, c := row, col;
      if c >= size {
        PrefixWrap(cells, r);
        r, c := r + 1, 0;
      }
      if r >= size {
        PrefixComplete(cells, r);
        return true;
      }
      ghost var entry := cells;
      assert entry[r][c] == 0;
      var numbers := ShuffledNumbers();
      ShuffleMembers(numbers, size);
      for k := 0 to |numbers|
        invariant Valid() && givens == old(givens) && cells == entry
        invariant forall t :: 0 <= t < k ==> Excluded(entry, r, c, numbers[t])
      {
        var num := numbers[k];
        assert num in numbers;
        var legal := IsValidMove(r, c, num);
        if legal {
          grid[r, c] := num;
          cells := Set(cells, r, c, num);
          PlaceLegalKeepsConsistent(entry, r, c, num);
          PrefixPlace(entry, r, c, num);
          ok := GenerateSolution(r, c + 1);
          if ok {
            SameBeforeStep(cells, entry, row, col, r, c, num);
            return true;
          }
          ExtensionExcluded(entry, r, c, num);
          grid[r, c] := 0;
          SetRestore(entry, r, c, num);
          cells := Set(cells, r, c, 0);
        } else {
          IllegalExcluded(entry, r, c, num);
        }
      }
      AllExcludedUnsolvable(entry, r, c, numbers);
      return false;
    }

    /**
     * removeCells(cellsToKeep): clear filled cells until cellsToKeep remain
     * (or none is cleared when cellsToKeep >= N * N). Each round clears an
     * arbitrary filled cell.
     */
    method RemoveCells(cellsToKeep: int)
      requires Valid() && FilledCount(cells) >= size * size - cellsToKeep
      modifies this, grid
      ensures Valid() && givens == old(givens)
      ensures FilledCount(cells) == old(FilledCount(cells)) - (size * size - KeptCount(size, cellsToKeep))
      ensures forall i, j :: 0 <= i < size && 0 <= j < size ==> cells[i][j] == old(cells)[i][j] || cells[i][j] == 0
    {
      var cellsToRemove := size * size - cellsToKeep;
      while cellsToRemove > 0
        invariant Valid() && givens == old(givens)
        invariant FilledCount(cells) == old(FilledCount(cells)) - (size * size - cellsToKeep - cellsToRemove)
        invariant cellsToRemove > 0 ==> FilledCount(cells) >= cellsToRemove
        invariant cellsToRemove >= 0 || cellsToRemove == size * size - cellsToKeep
        invariant forall i, j :: 0 <= i < size && 0 <= j < size ==> cells[i][j] == old(cells)[i][j] || cells[i][j] == 0
        decreases cellsToRemove
      {
        FilledCountWitness(cells);
        var row, col :| 0 <= row < size && 0 <= col < size && grid[row, col] != 0;
        FilledCountClear(cells, row, col);
        grid[row, col] := 0;
        cells := Set(cells, row, col, 0);
        cellsToRemove := cellsToRemove - 1;
      }
    }

    /** markOriginalCells: a cell is a given exactly when it is filled. */
    method MarkOriginalCells()
      requires Valid()
      modifies this, originalCells
      ensures Valid() && cells == old(cells) && givens == FilledMask(cells)
    {
      for i := 0 to size
        invariant cells == old(cells)
        invariant forall x, y :: 0 <= x < i && 0 <= y < size ==> originalCells[x, y] == (grid[x, y] != 0)
      {
        for j := 0 to size
          invariant cells == old(cells)
          invariant forall x, y :: 0 <= x < i && 0 <= y < size ==> originalCells[x, y] == (grid[x, y] != 0)
          invariant forall y :: 0 <= y < j ==> originalCells[i, y] == (grid[i, y] != 0)
        {
          originalCells[i, j] := grid[i, j] != 0;
        }
      }
      givens := FilledMask(cells);
    }

    /**
     * generatePuzzle with the kept-cell count of the difficulty level: a
     * fresh solved board (generation cannot fail, see EmptySolvable), carved
     * down to cellsToKeep filled cells, which become the givens. The givens
     * are consistent and a solved board extends them.
     */
    method GeneratePuzzle(cellsToKeep: int)
      requires Valid() && 0 <= cellsToKeep
      modifies this, grid, originalCells
      ensures Valid()
      ensures Consistent(cells) && FilledCount(cells) == KeptCount(size, cellsToKeep)
      ensures givens == FilledMask(cells)
      ensures !Unsolvable(cells)
    {
      ClearGrid();
      EmptySolvable(size);
      var ok := GenerateSolution(0, 0);
      assert ok;
      ghost var solution := cells;
      FullCount(solution);
      RemoveCells(cellsToKeep);
      ClearingKeepsConsistent(solution, cells);
      MarkOriginalCells();
      assert IsCompletionOf(solution, cells);
    }

    // -------------------------------------------------------------------
    // Writes and restores
    // -------------------------------------------------------------------

    /** setValue: throws off the board; writes any value to a cell that is not a given. */
    method SetValue(row: int, col: int, value: int) returns (r: Result<(), GridError>)
      requires Valid()
      modifies this, grid
      ensures Valid() && givens == old(givens)
      ensures r.Failure? <==> !InBounds(size, row, col)
      ensures r.Failure? ==> r.error == InvalidCellPosition && cells == old(cells)
      ensures r.Success? ==> cells == if givens[row][col] then old(cells) else Set(old(cells), row, col, value)
      ensures GivensFilled(old(cells), givens) ==> GivensFilled(cells, givens)
    {
      if row < 0 || row >= size || col < 0 || col >= size {
        return Failure(InvalidCellPosition);
      }
      if !originalCells[row, col] {
        grid[row, col] := value;
        cells := Set(cells, row, col, value);
      }
      return Success(());
    }

    /** setValue of the older tree: throws off the board, otherwise overwrites even a given. */
    method SetValueUnguarded(row: int, col: int, value: int) returns (r: Result<(), GridError>)
      requires Valid()
      modifies this, grid
      ensures Valid() && givens == old(givens)
      ensures r.Failure? <==> !InBounds(size, row, col)
      ensures r.Failure? ==> r.error == InvalidCellPosition && cells == old(cells)
      ensures r.Success? ==> cells == Set(old(cells), row, col, value)
    {
      if row < 0 || row >= size || col < 0 || col >= size {
        return Failure(InvalidCellPosition);
      }
      grid[row, col] := value;
      cells := Set(cells, row, col, value);
      return Success(());
    }

    /** loadState: copy the values and the givens of a snapshot of the same size, row by row. */
    method LoadState(state: GameState)
      requires Valid() && state.Valid() && |state.cells| == size
      modifies this, grid, originalCells
      ensures Valid() && cells == state.cells && givens == state.givens
    {
      for i := 0 to size
        invariant state.Valid()
        invariant forall x, y :: 0 <= x < i && 0 <= y < size ==>
          grid[x, y] == state.cells[x][y] && originalCells[x, y] == state.givens[x][y]
      {
        for j := 0 to size
          invariant state.Valid()
          invariant forall x, y :: 0 <= x < i && 0 <= y < size ==>
            grid[x, y] == state.cells[x][y] && originalCells[x, y] == state.givens[x][y]
          invariant forall y :: 0 <= y < j ==> grid[i, y] == state.cells[i][y]
        {
          grid[i, j] := state.gridState[i, j];
        }
        for j := 0 to size
          invariant state.Valid()
          invariant forall x, y :: 0 <= x < i && 0 <= y < size ==>
            grid[x, y] == state.cells[x][y] && originalCells[x, y] == state.givens[x][y]
          invariant forall y :: 0 <= y < size ==> grid[i, y] == state.cells[i][y]
          invariant forall y :: 0 <= y < j ==> originalCells[i, y] == state.givens[i][y]
        {
          originalCells[i, j] := state.originalCells[i, j];
        }
      }
      cells := state.cells;
      givens := state.givens;
    }

    /** loadState of the older tree: copy the values of a same-size snapshot; the givens stay. */
    method LoadValues(values: array2<int>, ghost g: Grid)
      requires Valid() && HoldsGrid(values, g) && |g| == size && values.Length1 == size
      modifies this, grid
      ensures Valid() && cells == g && givens == old(givens)
    {
      for i := 0 to size
        invariant givens == old(givens) && HoldsGrid(values, g)
        invariant forall x, y :: 0 <= x < i && 0 <= y < size ==> grid[x, y] == g[x][y]
      {
        for j := 0 to size
          invariant givens == old(givens) && HoldsGrid(values, g)
          invariant forall x, y :: 0 <= x < i && 0 <= y < size ==> grid[x, y] == g[x][y]
          invariant forall y :: 0 <= y < j ==> grid[i, y] == g[i][y]
        {
          grid[i, j] := values[i, j];
        }
      }
      cells := g;
    }
  }

  /** model.GameState: deep copies of the values and givens of a board, with the elapsed seconds. */
  class GameState {
    const gridState: array2<int>
    const originalCells: array2<bool>
    const elapsedTime: int32
    ghost const cells: Grid
    ghost const givens: Mask

    ghost predicate Valid()
      reads gridState, originalCells
    {
      && IsBoard(cells) && IsSquare(givens, |cells|)
      && HoldsGrid(gridState, cells) && gridState.Length1 == |cells|
      && HoldsMask(originalCells, givens) && originalCells.Length1 == |cells|
    }

    /** new GameState(grid, elapsedTime): copy every value and flag into fresh arrays. */
    constructor (grid: SudokuGrid, elapsedTime: int32)
      requires grid.Valid()
      ensures Valid() && fresh(gridState) && fresh(originalCells)
      ensures cells == grid.cells && givens == grid.givens && this.elapsedTime == elapsedTime
    {
      var size := grid.size;
      var values := new int[size, size];
      var mask := new bool[size, size];
      for i := 0 to size
        invariant forall x, y :: 0 <= x < i && 0 <= y < size ==>
          values[x, y] == grid.cells[x][y] && mask[x, y] == grid.givens[x][y]
      {
        for j := 0 to size
          invariant forall x, y :: 0 <= x < i && 0 <= y < size ==>
            values[x, y] == grid.cells[x][y] && mask[x, y] == grid.givens[x][y]
          invariant forall y :: 0 <= y < j ==> values[i, y] == grid.cells[i][y] && mask[i, y] == grid.givens[i][y]
        {
          values[i, j] := grid.grid[i, j];
          mask[i, j] := grid.originalCells[i, j];
        }
      }
      gridState := values;
      originalCells := mask;
      this.elapsedTime := elapsedTime;
      cells := grid.cells;
      givens := grid.givens;
    }
  }

  /** Restoring a board from a snapshot just taken of it changes neither its values nor its givens. */
  method SnapshotRoundTrip(grid: SudokuGrid, elapsedTime: int32)
    requires grid.Valid()
    modifies grid, grid.grid, grid.originalCells
    ensures grid.Valid() && grid.cells == old(grid.cells) && grid.givens == old(grid.givens)
  {
    var state := new GameState(grid, elapsedTime);
    grid.LoadState(state);
  }

  /** A snapshot is a deep copy: writing to the board afterwards leaves the snapshot as it was. */
  method SnapshotIsDeep(grid: SudokuGrid, elapsedTime: int32, row: int, col: int, value: int)
    returns (state: GameState)
    requires grid.Valid() && InBounds(grid.size, row, col)
    modifies grid, grid.grid
    ensures state.Valid() && grid.Valid()
    ensures grid.cells == Set(old(grid.cells), row, col, value) && state.cells == old(grid.cells)
  {
    state := new GameState(grid, elapsedTime);
    var _ := grid.SetValueUnguarded(row, col, value);
  }
}
