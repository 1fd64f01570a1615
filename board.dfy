/**
 * The read-only rules of com.sudoku.model.SudokuGrid over a value grid:
 * the legality check behind isValidMove, the isSolved scan, the candidate
 * list of a cell and the first-found hint of getHint.
 *
 * A grid is N rows of N ints, N in {9, 16}; 0 is an empty cell. Values are
 * not range-checked (setValue writes any int), so nothing here assumes 0..N.
 */
module Board {
  import opened Wrappers
  import opened Hints

  type Grid = seq<seq<int>>
  type Mask = seq<seq<bool>>

  /** The only sizes the SudokuGrid constructor accepts. */
  predicate ValidSize(n: int) {
    n == 9 || n == 16
  }

  /** The side of a subgrid, (int) Math.sqrt(size). */
  function SubgridSize(n: int): (s: int)
    requires ValidSize(n)
    ensures 0 < s && s * s == n
  {
    if n == 9 then 3 else 4
  }

  predicate IsSquare<T>(g: seq<seq<T>>, n: int) {
    |g| == n && forall i :: 0 <= i < n ==> |g[i]| == n
  }

  predicate IsBoard(g: Grid) {
    ValidSize(|g|) && IsSquare(g, |g|)
  }

  predicate InBounds(n: int, r: int, c: int) {
    0 <= r < n && 0 <= c < n
  }

  /** Row-major order of cells: (r1, c1) is scanned before (r2, c2). */
  predicate Before(r1: int, c1: int, r2: int, c2: int) {
    r1 < r2 || (r1 == r2 && c1 < c2)
  }

  /** Both cells lie in the same s-by-s block. */
  predicate SameSubgrid(n: int, r1: int, c1: int, r2: int, c2: int)
    requires ValidSize(n)
  {
    var s := SubgridSize(n);
    r1 / s == r2 / s && c1 / s == c2 / s
  }

  /** Two cells that share a row, a column or a block (a cell is its own peer). */
  predicate Peers(n: int, r1: int, c1: int, r2: int, c2: int)
    requires ValidSize(n)
  {
    r1 == r2 || c1 == c2 || SameSubgrid(n, r1, c1, r2, c2)
  }

  /** The scan of isValidInRow from column j on: no cell (row, j..N-1) holds num. */
  predicate RowFreeFrom(g: Grid, row: int, num: int, j: int)
    requires IsBoard(g) && 0 <= row < |g| && 0 <= j <= |g|
    decreases |g| - j
  {
    j == |g| || (g[row][j] != num && RowFreeFrom(g, row, num, j + 1))
  }

  /** The scan of isValidInColumn from row i on. */
  predicate ColumnFreeFrom(g: Grid, col: int, num: int, i: int)
    requires IsBoard(g) && 0 <= col < |g| && 0 <= i <= |g|
    decreases |g| - i
  {
    i == |g| || (g[i][col] != num && ColumnFreeFrom(g, col, num, i + 1))
  }

  /** A block origin: a multiple of the subgrid side whose block lies inside the grid. */
  predicate IsBlockOrigin(n: int, r0: int, c0: int)
    requires ValidSize(n)
  {
    0 <= r0 && r0 + SubgridSize(n) <= n && 0 <= c0 && c0 + SubgridSize(n) <= n
  }

  /** The nested scan of isValidInSubgrid over the block at (r0, c0), from offset (i, j) on. */
  predicate BlockFreeFrom(g: Grid, r0: int, c0: int, num: int, i: int, j: int)
    requires IsBoard(g) && IsBlockOrigin(|g|, r0, c0)
    requires 0 <= i <= SubgridSize(|g|) && 0 <= j <= SubgridSize(|g|)
    decreases SubgridSize(|g|) - i, SubgridSize(|g|) - j
  {
    var s := SubgridSize(|g|);
    if i == s then true
    else if j == s then BlockFreeFrom(g, r0, c0, num, i + 1, 0)
    else g[r0 + i][c0 + j] != num && BlockFreeFrom(g, r0, c0, num, i, j + 1)
  }

  /** The first row (or column) of the block holding row (or column) r: (r / s) * s. */
  function BlockStart(n: int, r: int): int
    requires ValidSize(n)
  {
    (r / SubgridSize(n)) * SubgridSize(n)
  }

  /**
   * isValidMove(row, col, num): the row scan, then the column scan, then the
   * block scan, each stopping at the first cell that holds num.
   */
  predicate IsLegal(g: Grid, row: int, col: int, num: int)
    requires IsBoard(g) && InBounds(|g|, row, col)
  {
    BlockOriginOf(|g|, row, col);
    RowFreeFrom(g, row, num, 0) && ColumnFreeFrom(g, col, num, 0) &&
    BlockFreeFrom(g, BlockStart(|g|, row), BlockStart(|g|, col), num, 0, 0)
  }

  /** The block start of an in-range cell is a block origin, and its block is the cells of the same block index. */
  lemma BlockOriginOf(n: int, row: int, col: int)
    requires ValidSize(n) && InBounds(n, row, col)
    ensures IsBlockOrigin(n, BlockStart(n, row), BlockStart(n, col))
    ensures forall i :: 0 <= i < n ==>
      (i / SubgridSize(n) == row / SubgridSize(n) <==> BlockStart(n, row) <= i < BlockStart(n, row) + SubgridSize(n))
    ensures forall j :: 0 <= j < n ==>
      (j / SubgridSize(n) == col / SubgridSize(n) <==> BlockStart(n, col) <= j < BlockStart(n, col) + SubgridSize(n))
  {
  }

  // The reference meaning of the three scans: num occurs nowhere in the row,
  // the column or the block of the cell.

  predicate NotInRow(g: Grid, row: int, num: int)
    requires IsBoard(g) && 0 <= row < |g|
  {
    forall j :: 0 <= j < |g| ==> g[row][j] != num
  }

  predicate NotInColumn(g: Grid, col: int, num: int)
    requires IsBoard(g) && 0 <= col < |g|
  {
    forall i :: 0 <= i < |g| ==> g[i][col] != num
  }

  predicate NotInSubgrid(g: Grid, row: int, col: int, num: int)
    requires IsBoard(g)
  {
    forall i, j :: 0 <= i < |g| && 0 <= j < |g| && SameSubgrid(|g|, row, col, i, j) ==> g[i][j] != num
  }

  lemma {:induction false} RowFreeMeans(g: Grid, row: int, num: int, j: int)
    requires IsBoard(g) && 0 <= row < |g| && 0 <= j <= |g|
    decreases |g| - j
    ensures RowFreeFrom(g, row, num, j) <==> forall k :: j <= k < |g| ==> g[row][k] != num
  {
    if j < |g| {
      RowFreeMeans(g, row, num, j + 1);
    }
  }

  lemma {:induction false} ColumnFreeMeans(g: Grid, col: int, num: int, i: int)
    requires IsBoard(g) && 0 <= col < |g| && 0 <= i <= |g|
    decreases |g| - i
    ensures ColumnFreeFrom(g, col, num, i) <==> forall k :: i <= k < |g| ==> g[k][col] != num
  {
    if i < |g| {
      ColumnFreeMeans(g, col, num, i + 1);
    }
  }

  lemma {:induction false} BlockFreeMeans(g: Grid, r0: int, c0: int, num: int, i: int, j: int)
    requires IsBoard(g) && IsBlockOrigin(|g|, r0, c0)
    requires 0 <= i <= SubgridSize(|g|) && 0 <= j <= SubgridSize(|g|)
    decreases SubgridSize(|g|) - i, SubgridSize(|g|) - j
    ensures BlockFreeFrom(g, r0, c0, num, i, j) <==>
      forall x, y | r0 <= x < r0 + SubgridSize(|g|) && c0 <= y < c0 + SubgridSize(|g|) &&
        !Before(x - r0, y - c0, i, j) :: g[x][y] != num
  {
    var s := SubgridSize(|g|);
    if i < s {
      if j == s {
        BlockFreeMeans(g, r0, c0, num, i + 1, 0);
      } else {
        BlockFreeMeans(g, r0, c0, num, i, j + 1);
      }
    }
  }

  /** isValidMove holds iff num occurs nowhere in the row, the column and the block of (row, col). */
  lemma LegalMeans(g: Grid, row: int, col: int, num: int)
    requires IsBoard(g) && InBounds(|g|, row, col)
    ensures IsLegal(g, row, col, num) <==>
      NotInRow(g, row, num) && NotInColumn(g, col, num) && NotInSubgrid(g, row, col, num)
  {
    var n, s := |g|, SubgridSize(|g|);
    BlockOriginOf(n, row, col);
    var r0, c0 := BlockStart(n, row), BlockStart(n, col);
    RowFreeMeans(g, row, num, 0);
    ColumnFreeMeans(g, col, num, 0);
    BlockFreeMeans(g, r0, c0, num, 0, 0);
    assert BlockFreeFrom(g, r0, c0, num, 0, 0) <==> NotInSubgrid(g, row, col, num);
  }

  /** No two distinct peer cells hold the same non-zero value. */
  predicate Consistent(g: Grid)
    requires IsBoard(g)
  {
    forall r1, c1, r2, c2 |
      0 <= r1 < |g| && 0 <= c1 < |g| && 0 <= r2 < |g| && 0 <= c2 < |g| &&
      (r1 != r2 || c1 != c2) && Peers(|g|, r1, c1, r2, c2) && g[r1][c1] != 0
      :: g[r1][c1] != g[r2][c2]
  }

  /** Every cell holds a value in 1..N. */
  predicate IsFull(g: Grid)
    requires IsBoard(g)
  {
    forall i, j :: 0 <= i < |g| && 0 <= j < |g| ==> 1 <= g[i][j] <= |g|
  }

  /** f is a solved board that keeps every filled cell of g. */
  ghost predicate IsCompletionOf(f: Grid, g: Grid)
    requires IsBoard(g)
  {
    IsBoard(f) && |f| == |g| && IsFull(f) && Consistent(f) &&
    forall i, j :: 0 <= i < |g| && 0 <= j < |g| && g[i][j] != 0 ==> f[i][j] == g[i][j]
  }

  /** g with the cell (r, c) set to v. */
  function Set(g: Grid, r: int, c: int, v: int): (h: Grid)
    requires IsBoard(g) && InBounds(|g|, r, c)
    ensures IsBoard(h) && |h| == |g|
    ensures forall i, j :: 0 <= i < |g| && 0 <= j < |g| ==> h[i][j] == if i == r && j == c then v else g[i][j]
  {
    g[r := g[r][c := v]]
  }

  /** Writing back the old value of a cell undoes a write. */
  lemma SetRestore(g: Grid, r: int, c: int, v: int)
    requires IsBoard(g) && InBounds(|g|, r, c)
    ensures Set(Set(g, r, c, v), r, c, g[r][c]) == g
  {
    assert g[r][c := v][c := g[r][c]] == g[r];
  }

  /** The all-empty N-by-N grid, as a fresh SudokuGrid holds it. */
  function EmptyGrid(n: int): (g: Grid)
    requires ValidSize(n)
    ensures IsBoard(g) && |g| == n
    ensures forall i, j :: InBounds(n, i, j) ==> g[i][j] == 0
  {
    seq(n, i => seq(n, j => 0))
  }

  /** The all-false N-by-N mask. */
  function EmptyMask(n: int): (m: Mask)
    requires ValidSize(n)
    ensures IsSquare(m, n)
    ensures forall i, j :: InBounds(n, i, j) ==> !m[i][j]
  {
    seq(n, i => seq(n, j => false))
  }

  /** The givens markOriginalCells derives: exactly the non-empty cells. */
  function FilledMask(g: Grid): (m: Mask)
    requires IsBoard(g)
    ensures IsSquare(m, |g|)
    ensures forall i, j :: 0 <= i < |g| && 0 <= j < |g| ==> (m[i][j] <==> g[i][j] != 0)
  {
    seq(|g|, i requires 0 <= i < |g| => seq(|g|, j requires 0 <= j < |g| => g[i][j] != 0))
  }

  /** Every given holds a value: markOriginalCells sets this up and the guarded setValue keeps it. */
  predicate GivensFilled(g: Grid, m: Mask)
    requires IsBoard(g) && IsSquare(m, |g|)
  {
    forall i, j :: 0 <= i < |g| && 0 <= j < |g| && m[i][j] ==> g[i][j] != 0
  }

  /** The givens markOriginalCells derives all hold values. */
  lemma FilledMaskGivensFilled(g: Grid)
    requires IsBoard(g)
    ensures GivensFilled(g, FilledMask(g))
  {
  }

  /** A write to a cell that is not a given, whatever the value, keeps every given filled. */
  lemma WriteKeepsGivensFilled(g: Grid, m: Mask, r: int, c: int, v: int)
    requires IsBoard(g) && IsSquare(m, |g|) && InBounds(|g|, r, c) && GivensFilled(g, m) && !m[r][c]
    ensures GivensFilled(Set(g, r, c, v), m)
  {
  }

  // ---------------------------------------------------------------------
  // Consistency is what backtracking keeps
  // ---------------------------------------------------------------------

  /** Writing a value that passes isValidMove keeps the board consistent. */
  lemma PlaceLegalKeepsConsistent(g: Grid, r: int, c: int, v: int)
    requires IsBoard(g) && InBounds(|g|, r, c) && Consistent(g) && IsLegal(g, r, c, v)
    ensures Consistent(Set(g, r, c, v))
  {
    var h := Set(g, r, c, v);
    var n := |g|;
    LegalMeans(g, r, c, v);
    forall r1, c1, r2, c2 |
      InBounds(n, r1, c1) && InBounds(n, r2, c2) && (r1 != r2 || c1 != c2) &&
      Peers(n, r1, c1, r2, c2) && h[r1][c1] != 0
      ensures h[r1][c1] != h[r2][c2]
    {
      if r1 == r && c1 == c {
        // the new value meets a peer that isValidMove has already checked
        assert h[r2][c2] == g[r2][c2] != v;
      } else if r2 == r && c2 == c {
        assert h[r1][c1] == g[r1][c1] != v;
      } else {
        assert h[r1][c1] == g[r1][c1] && h[r2][c2] == g[r2][c2];
      }
    }
  }

  /** Emptying cells (each cell kept or set to 0) keeps the board consistent. */
  lemma ClearingKeepsConsistent(g: Grid, h: Grid)
    requires IsBoard(g) && IsBoard(h) && |h| == |g| && Consistent(g)
    requires forall i, j :: 0 <= i < |g| && 0 <= j < |g| ==> h[i][j] == g[i][j] || h[i][j] == 0
    ensures Consistent(h)
  {
  }

  // ---------------------------------------------------------------------
  // Completions: what backtracking may conclude when it fails
  // ---------------------------------------------------------------------

  /** No solved board keeps v at (r, c) together with every filled cell of g. */
  ghost predicate Excluded(g: Grid, r: int, c: int, v: int)
    requires IsBoard(g) && InBounds(|g|, r, c)
  {
    forall f :: IsCompletionOf(f, g) ==> f[r][c] != v
  }

  /** No solved board keeps every filled cell of g. */
  ghost predicate Unsolvable(g: Grid)
    requires IsBoard(g)
  {
    forall f :: !IsCompletionOf(f, g)
  }

  /** A value isValidMove rejects at an empty cell is in no completion of the board. */
  lemma IllegalExcluded(g: Grid, r: int, c: int, v: int)
    requires IsBoard(g) && InBounds(|g|, r, c) && g[r][c] == 0 && v != 0
    requires !IsLegal(g, r, c, v)
    ensures Excluded(g, r, c, v)
  {
    var n := |g|;
    LegalMeans(g, r, c, v);
    var i, j :| 0 <= i < n && 0 <= j < n && (i == r || j == c || SameSubgrid(n, r, c, i, j)) && g[i][j] == v;
    assert i != r || j != c;
    assert SameSubgrid(n, r, c, i, j) ==> SameSubgrid(n, i, j, r, c);
    assert Peers(n, i, j, r, c);
    forall f | IsCompletionOf(f, g)
      ensures f[r][c] != v
    {
      assert |f| == n && |f[i]| == n && |f[r]| == n;
      assert f[i][j] == v;
    }
  }

  /** When the board extended by v at (r, c) has no completion, v is excluded at (r, c). */
  lemma ExtensionExcluded(g: Grid, r: int, c: int, v: int)
    requires IsBoard(g) && InBounds(|g|, r, c) && g[r][c] == 0
    requires Unsolvable(Set(g, r, c, v))
    ensures Excluded(g, r, c, v)
  {
    forall f | IsCompletionOf(f, g)
      ensures f[r][c] != v
    {
      assert IsCompletionOf(f, Set(g, r, c, f[r][c]));
    }
  }

  /** The values 1..n in ascending order: the list getShuffledNumbers builds before shuffling. */
  function OneTo(n: nat): (r: seq<int>)
    ensures |r| == n && forall i :: 0 <= i < n ==> r[i] == i + 1
  {
    seq(n, i => i + 1)
  }

  /** p is a permutation of 1..n. */
  predicate IsShuffle(p: seq<int>, n: nat) {
    multiset(p) == multiset(OneTo(n))
  }

  /** A permutation of 1..n holds exactly the values 1..n. */
  lemma ShuffleMembers(p: seq<int>, n: nat)
    requires IsShuffle(p, n)
    ensures forall x :: x in p <==> 1 <= x <= n
  {
    forall x
      ensures x in p <==> 1 <= x <= n
    {
      assert x in p <==> x in multiset(OneTo(n));
      if 1 <= x <= n {
        assert OneTo(n)[x - 1] == x;
      }
    }
  }

  /** When every value 1..N is excluded at a cell, the board has no completion. */
  lemma AllExcludedUnsolvable(g: Grid, r: int, c: int, p: seq<int>)
    requires IsBoard(g) && InBounds(|g|, r, c) && IsShuffle(p, |g|)
    requires forall t :: 0 <= t < |p| ==> Excluded(g, r, c, p[t])
    ensures Unsolvable(g)
  {
    ShuffleMembers(p, |g|);
    forall f | IsCompletionOf(f, g)
      ensures f[r][c] in p
    {
      assert 1 <= f[r][c] <= |g|;
    }
  }

  /** Cells before (row, col) in row-major order hold 1..N, the others are empty. */
  predicate PrefixFilled(g: Grid, row: int, col: int)
    requires IsBoard(g)
  {
    forall i, j :: 0 <= i < |g| && 0 <= j < |g| ==>
      if Before(i, j, row, col) then 1 <= g[i][j] <= |g| else g[i][j] == 0
  }

  /** g and h agree on every cell before (row, col). */
  predicate SameBefore(g: Grid, h: Grid, row: int, col: int)
    requires IsBoard(g) && IsBoard(h) && |h| == |g|
  {
    forall i, j :: 0 <= i < |g| && 0 <= j < |g| && Before(i, j, row, col) ==> g[i][j] == h[i][j]
  }

  /** Stepping past the end of row row is the start of row row + 1. */
  lemma PrefixWrap(g: Grid, row: int)
    requires IsBoard(g) && PrefixFilled(g, row, |g|)
    ensures PrefixFilled(g, row + 1, 0)
  {
  }

  /** Placing a value 1..N at the first empty cell extends the filled prefix by that cell. */
  lemma PrefixPlace(g: Grid, r: int, c: int, v: int)
    requires IsBoard(g) && InBounds(|g|, r, c) && PrefixFilled(g, r, c) && 1 <= v <= |g|
    ensures PrefixFilled(Set(g, r, c, v), r, c + 1)
  {
  }

  /** A prefix reaching past the last row is the whole board. */
  lemma PrefixComplete(g: Grid, row: int)
    requires IsBoard(g) && row >= |g| && PrefixFilled(g, row, 0)
    ensures IsFull(g)
  {
  }

  /**
   * A board that agrees with g extended by v at (r, c) on every cell before
   * (r, c + 1) agrees with g before (row, col), where (r, c) is (row, col)
   * after the wrap to the next row.
   */
  lemma SameBeforeStep(f: Grid, g: Grid, row: int, col: int, r: int, c: int, v: int)
    requires IsBoard(g) && IsBoard(f) && |f| == |g| && InBounds(|g|, r, c)
    requires (r == row && c == col) || (col >= |g| && r == row + 1 && c == 0)
    requires SameBefore(f, Set(g, r, c, v), r, c + 1)
    ensures SameBefore(f, g, row, col)
  {
  }

  // ---------------------------------------------------------------------
  // A solved board exists for both sizes, so generation never fails
  // ---------------------------------------------------------------------

  /** The shifted-row pattern: row r is 1..N rotated by (r mod s) * s + r / s. */
  function Pattern(n: int): (g: Grid)
    requires ValidSize(n)
    ensures IsBoard(g) && |g| == n
    ensures forall r, c :: 0 <= r < n && 0 <= c < n ==> g[r][c] == Shift(n, r, c) + 1
  {
    seq(n, r => seq(n, c => Shift(n, r, c) + 1))
  }

  function Shift(n: int, r: int, c: int): int
    requires ValidSize(n)
  {
    (Offset(n, r) + c) % n
  }

  /** The rotation of row r: its index within its band times s, plus its band. */
  function Offset(n: int, r: int): int
    requires ValidSize(n)
  {
    var s := SubgridSize(n);
    (r % s) * s + r / s
  }

  /** Different values less than N apart differ modulo N. */
  lemma ModDistinct(n: int, a: int, b: int)
    requires ValidSize(n) && a != b && a - b < n && b - a < n
    ensures a % n != b % n
  {
    if n == 9 {
      assert a % 9 != b % 9;
    } else {
      assert a % 16 != b % 16;
    }
  }

  /** Distinct rows have distinct rotations, each in 0..N-1. */
  lemma OffsetInjective(n: int, r1: int, r2: int)
    requires ValidSize(n) && 0 <= r1 < n && 0 <= r2 < n
    ensures 0 <= Offset(n, r1) < n && 0 <= Offset(n, r2) < n
    ensures r1 != r2 ==> Offset(n, r1) != Offset(n, r2)
  {
    var s := SubgridSize(n);
    var q1, m1, q2, m2 := r1 / s, r1 % s, r2 / s, r2 % s;
    if n == 9 {
      assert r1 == 3 * q1 + m1 && r2 == 3 * q2 + m2;
      assert 0 <= q1 < 3 && 0 <= q2 < 3 && 0 <= m1 < 3 && 0 <= m2 < 3;
      assert Offset(n, r1) == 3 * m1 + q1 && Offset(n, r2) == 3 * m2 + q2;
    } else {
      assert r1 == 4 * q1 + m1 && r2 == 4 * q2 + m2;
      assert 0 <= q1 < 4 && 0 <= q2 < 4 && 0 <= m1 < 4 && 0 <= m2 < 4;
      assert Offset(n, r1) == 4 * m1 + q1 && Offset(n, r2) == 4 * m2 + q2;
    }
  }

  /** Two cells of one block in different rows: their unreduced shifts differ by 1..N-1. */
  lemma BlockOffsets(n: int, r1: int, c1: int, r2: int, c2: int)
    requires ValidSize(n) && InBounds(n, r1, c1) && InBounds(n, r2, c2)
    requires r1 != r2 && SameSubgrid(n, r1, c1, r2, c2)
    ensures var d := (Offset(n, r1) + c1) - (Offset(n, r2) + c2); d != 0 && -n < d < n
  {
    var s := SubgridSize(n);
    var q, m1, m2 := r1 / s, r1 % s, r2 % s;
    var p, d1, d2 := c1 / s, c1 % s, c2 % s;
    if n == 9 {
      assert r1 == 3 * q + m1 && r2 == 3 * q + m2 && c1 == 3 * p + d1 && c2 == 3 * p + d2;
      assert Offset(n, r1) == 3 * m1 + q && Offset(n, r2) == 3 * m2 + q;
    } else {
      assert r1 == 4 * q + m1 && r2 == 4 * q + m2 && c1 == 4 * p + d1 && c2 == 4 * p + d2;
      assert Offset(n, r1) == 4 * m1 + q && Offset(n, r2) == 4 * m2 + q;
    }
  }

  /** Two distinct peer cells of the pattern hold different values. */
  lemma PatternDistinct(n: int, r1: int, c1: int, r2: int, c2: int)
    requires ValidSize(n) && InBounds(n, r1, c1) && InBounds(n, r2, c2)
    requires (r1 != r2 || c1 != c2) && Peers(n, r1, c1, r2, c2)
    ensures Shift(n, r1, c1) != Shift(n, r2, c2)
  {
    OffsetInjective(n, r1, r2);
    if r1 != r2 && c1 != c2 {
      BlockOffsets(n, r1, c1, r2, c2);
    }
    ModDistinct(n, Offset(n, r1) + c1, Offset(n, r2) + c2);
  }

  /** The pattern is a completion of the empty board. */
  lemma PatternSolved(n: int)
    requires ValidSize(n)
    ensures IsCompletionOf(Pattern(n), EmptyGrid(n))
  {
    var p := Pattern(n);
    forall r1, c1, r2, c2 |
      0 <= r1 < n && 0 <= c1 < n && 0 <= r2 < n && 0 <= c2 < n &&
      (r1 != r2 || c1 != c2) && Peers(n, r1, c1, r2, c2) && p[r1][c1] != 0
      ensures p[r1][c1] != p[r2][c2]
    {
      PatternDistinct(n, r1, c1, r2, c2);
    }
  }

  /** Both board sizes have a solved board, so the empty board is never unsolvable. */
  lemma EmptySolvable(n: int)
    requires ValidSize(n)
    ensures !Unsolvable(EmptyGrid(n))
  {
    PatternSolved(n);
  }

  // ---------------------------------------------------------------------
  // Counting filled cells, for removeCells
  // ---------------------------------------------------------------------

  /** The number of non-empty cells of a row. */
  function RowFilled(r: seq<int>): nat {
    if r == [] then 0 else RowFilled(r[..|r| - 1]) + (if r[|r| - 1] != 0 then 1 else 0)
  }

  /** The number of non-empty cells of a grid. */
  function FilledCount(g: Grid): nat {
    if g == [] then 0 else FilledCount(g[..|g| - 1]) + RowFilled(g[|g| - 1])
  }

  lemma {:induction false} RowFilledClear(r: seq<int>, j: int)
    requires 0 <= j < |r| && r[j] != 0
    ensures RowFilled(r[j := 0]) == RowFilled(r) - 1
  {
    var m := |r| - 1;
    if j < m {
      assert r[j := 0][..m] == r[..m][j := 0];
      RowFilledClear(r[..m], j);
    } else {
      assert r[j := 0][..m] == r[..m];
    }
  }

  /** Emptying a filled cell lowers the count by one. */
  lemma {:induction false} FilledCountClear(g: Grid, i: int, j: int)
    requires 0 <= i < |g| && 0 <= j < |g[i]| && g[i][j] != 0
    ensures FilledCount(g[i := g[i][j := 0]]) == FilledCount(g) - 1
  {
    var m := |g| - 1;
    var h := g[i := g[i][j := 0]];
    if i < m {
      assert h[..m] == g[..m][i := g[i][j := 0]];
      FilledCountClear(g[..m], i, j);
    } else {
      assert h[..m] == g[..m];
      RowFilledClear(g[i], j);
    }
  }

  lemma {:induction false} RowFilledWitness(r: seq<int>)
    requires RowFilled(r) > 0
    ensures exists j :: 0 <= j < |r| && r[j] != 0
  {
    var m := |r| - 1;
    if r[m] == 0 {
      RowFilledWitness(r[..m]);
      var j :| 0 <= j < m && r[..m][j] != 0;
      assert r[j] != 0;
    }
  }

  /** A positive count has a filled cell behind it. */
  lemma {:induction false} FilledCountWitness(g: Grid)
    requires FilledCount(g) > 0
    ensures exists i, j :: 0 <= i < |g| && 0 <= j < |g[i]| && g[i][j] != 0
  {
    var m := |g| - 1;
    if RowFilled(g[m]) > 0 {
      RowFilledWitness(g[m]);
      var j :| 0 <= j < |g[m]| && g[m][j] != 0;
      assert g[m][j] != 0;
    } else {
      FilledCountWitness(g[..m]);
      var i, j :| 0 <= i < m && 0 <= j < |g[..m][i]| && g[..m][i][j] != 0;
      assert g[i][j] != 0;
    }
  }

  lemma {:induction false} RowFilledFull(r: seq<int>)
    requires forall j :: 0 <= j < |r| ==> r[j] != 0
    ensures RowFilled(r) == |r|
  {
    if r != [] {
      RowFilledFull(r[..|r| - 1]);
    }
  }

  lemma {:induction false} FilledCountRows(g: Grid, n: int)
    requires forall i, j :: 0 <= i < |g| && 0 <= j < |g[i]| ==> g[i][j] != 0
    requires forall i :: 0 <= i < |g| ==> |g[i]| == n
    ensures FilledCount(g) == |g| * n
  {
    if g != [] {
      var m := |g| - 1;
      FilledCountRows(g[..m], n);
      RowFilledFull(g[m]);
    }
  }

  /** A full N-by-N board has N * N filled cells. */
  lemma FullCount(g: Grid)
    requires IsBoard(g) && IsFull(g)
    ensures FilledCount(g) == |g| * |g|
  {
    FilledCountRows(g, |g|);
  }

  // ---------------------------------------------------------------------
  // isSolved as written, and what it was evidently meant to check
  // ---------------------------------------------------------------------

  /** One cell of the isSolved scan: non-empty and passing isValidMove with its own value. */
  predicate CellPasses(g: Grid, i: int, j: int)
    requires IsBoard(g) && InBounds(|g|, i, j)
  {
    g[i][j] != 0 && IsLegal(g, i, j, g[i][j])
  }

  /**
   * The isSolved scan up to (row, col): every cell before it in row-major
   * order passes. (row, N) is the end of row row; (N, 0) is the end of the grid.
   */
  predicate SolvedBefore(g: Grid, row: int, col: int)
    requires IsBoard(g) && ((0 <= row < |g| && 0 <= col <= |g|) || (row == |g| && col == 0))
    decreases row, col
  {
    if col > 0 then SolvedBefore(g, row, col - 1) && CellPasses(g, row, col - 1)
    else if row > 0 then SolvedBefore(g, row - 1, |g|)
    else true
  }

  /** isSolved as written: the scan passes every cell of the board. */
  predicate IsSolved(g: Grid)
    requires IsBoard(g)
  {
    SolvedBefore(g, |g|, 0)
  }

  lemma {:induction false} SolvedBeforeMeans(g: Grid, row: int, col: int)
    requires IsBoard(g) && ((0 <= row < |g| && 0 <= col <= |g|) || (row == |g| && col == 0))
    decreases row, col
    ensures SolvedBefore(g, row, col) <==>
      forall i, j :: 0 <= i < |g| && 0 <= j < |g| && Before(i, j, row, col) ==> CellPasses(g, i, j)
  {
    if col > 0 {
      SolvedBeforeMeans(g, row, col - 1);
    } else if row > 0 {
      SolvedBeforeMeans(g, row - 1, |g|);
    }
  }

  /** isSolved holds exactly when every cell is filled and passes isValidMove with its own value. */
  lemma SolvedMeans(g: Grid)
    requires IsBoard(g)
    ensures IsSolved(g) <==> forall i, j :: 0 <= i < |g| && 0 <= j < |g| ==> CellPasses(g, i, j)
  {
    SolvedBeforeMeans(g, |g|, 0);
  }

  /**
   * isSolved returns false on every board: the row scan of the first cell
   * meets the cell itself, so a filled cell never passes.
   */
  lemma NeverSolved(g: Grid)
    requires IsBoard(g)
    ensures !IsSolved(g)
  {
    SolvedMeans(g);
    assert g[0][0] == 0 || !RowFreeFrom(g, 0, g[0][0], 0);
    assert !CellPasses(g, 0, 0);
  }

  /** The intended win condition: every cell filled and no peer repeats a value. */
  predicate IsCompleteSolution(g: Grid)
    requires IsBoard(g)
  {
    IsFull(g) && Consistent(g)
  }

  /** A duplicate in a row is never a solution. */
  lemma SolutionRejectsRowDuplicate(g: Grid, r: int, c1: int, c2: int)
    requires IsBoard(g) && InBounds(|g|, r, c1) && InBounds(|g|, r, c2) && c1 != c2
    requires g[r][c1] == g[r][c2]
    ensures !IsCompleteSolution(g)
  {
    if g[r][c1] != 0 {
      assert Peers(|g|, r, c1, r, c2);
    }
  }

  /** No peer of (i, j) other than the cell itself holds v. */
  predicate PeersFree(g: Grid, i: int, j: int, v: int)
    requires IsBoard(g)
  {
    forall r, c | 0 <= r < |g| && 0 <= c < |g| && (r != i || c != j) && Peers(|g|, i, j, r, c) :: g[r][c] != v
  }

  /** The evidently intended per-cell test of isSolved: filled, and legal once the cell itself is cleared. */
  predicate CellPassesCleared(g: Grid, i: int, j: int)
    requires IsBoard(g) && InBounds(|g|, i, j)
  {
    g[i][j] != 0 && IsLegal(Set(g, i, j, 0), i, j, g[i][j])
  }

  /** The evidently intended isSolved: every cell passes the test with itself cleared. */
  predicate IsSolvedCleared(g: Grid)
    requires IsBoard(g)
  {
    forall i, j :: 0 <= i < |g| && 0 <= j < |g| ==> CellPassesCleared(g, i, j)
  }

  /** A filled cell passes the cleared test exactly when no other peer repeats its value. */
  lemma CellPassesClearedMeans(g: Grid, i: int, j: int)
    requires IsBoard(g) && InBounds(|g|, i, j)
    ensures CellPassesCleared(g, i, j) <==> g[i][j] != 0 && PeersFree(g, i, j, g[i][j])
  {
    var n, v, h := |g|, g[i][j], Set(g, i, j, 0);
    LegalMeans(h, i, j, v);
    if v != 0 {
      if PeersFree(g, i, j, v) {
        forall c | 0 <= c < n ensures h[i][c] != v {
          if c != j { assert Peers(n, i, j, i, c); }
        }
        forall r | 0 <= r < n ensures h[r][j] != v {
          if r != i { assert Peers(n, i, j, r, j); }
        }
        forall r, c | 0 <= r < n && 0 <= c < n && SameSubgrid(n, i, j, r, c) ensures h[r][c] != v {
          if r != i || c != j { assert Peers(n, i, j, r, c); }
        }
      }
      if IsLegal(h, i, j, v) {
        forall r, c | 0 <= r < n && 0 <= c < n && (r != i || c != j) && Peers(n, i, j, r, c)
          ensures g[r][c] != v
        {
          assert h[r][c] == g[r][c];
          if r == i {
            assert h[i][c] != v;
          } else if c == j {
            assert h[r][j] != v;
          } else {
            assert SameSubgrid(n, i, j, r, c);
          }
        }
      }
    }
  }

  /**
   * On a board whose values lie in 0..N the corrected isSolved holds exactly
   * on complete solutions; in particular it holds on the pattern board, which
   * the scan as written rejects.
   */
  lemma SolvedClearedMeans(g: Grid)
    requires IsBoard(g) && forall i, j :: 0 <= i < |g| && 0 <= j < |g| ==> 0 <= g[i][j] <= |g|
    ensures IsSolvedCleared(g) <==> IsCompleteSolution(g)
  {
    forall i, j | 0 <= i < |g| && 0 <= j < |g|
      ensures CellPassesCleared(g, i, j) <==> g[i][j] != 0 && PeersFree(g, i, j, g[i][j])
    {
      CellPassesClearedMeans(g, i, j);
    }
  }

  /** The pattern board is accepted by the corrected isSolved and rejected by the scan as written. */
  lemma PatternSolvedCleared(n: int)
    requires ValidSize(n)
    ensures IsSolvedCleared(Pattern(n)) && !IsSolved(Pattern(n))
  {
    PatternSolved(n);
    SolvedClearedMeans(Pattern(n));
    NeverSolved(Pattern(n));
  }

  // ---------------------------------------------------------------------
  // Candidates and the first-found hint
  // ---------------------------------------------------------------------

  /** The values 1..v-1 that pass isValidMove at (row, col), in the order the candidate loop appends them. */
  function CandidatesBelow(g: Grid, row: int, col: int, v: int): (r: seq<int>)
    requires IsBoard(g) && InBounds(|g|, row, col) && 1 <= v <= |g| + 1
    ensures forall x :: x in r <==> 1 <= x < v && IsLegal(g, row, col, x)
    ensures forall i, j :: 0 <= i < j < |r| ==> r[i] < r[j]
    ensures forall i :: 0 <= i < |r| ==> r[i] < v
  {
    if v == 1 then []
    else CandidatesBelow(g, row, col, v - 1) + (if IsLegal(g, row, col, v - 1) then [v - 1] else [])
  }

  /** The candidate list of a cell: every value 1..N passing isValidMove, ascending. */
  function Candidates(g: Grid, row: int, col: int): (r: seq<int>)
    requires IsBoard(g) && InBounds(|g|, row, col)
    ensures forall x :: x in r <==> 1 <= x <= |g| && IsLegal(g, row, col, x)
    ensures forall i, j :: 0 <= i < j < |r| ==> r[i] < r[j]
  {
    CandidatesBelow(g, row, col, |g| + 1)
  }

  /** A cell a hint may name: empty, with at least one candidate. */
  predicate HintCell(g: Grid, r: int, c: int)
    requires IsBoard(g) && InBounds(|g|, r, c)
  {
    g[r][c] == 0 && Candidates(g, r, c) != []
  }

  /** The scan of getHint from (row, col) on, in row-major order; col == N stands for the next row. */
  function FirstHintFrom(g: Grid, row: int, col: int): (h: Option<Hint>)
    requires IsBoard(g) && 0 <= row <= |g| && 0 <= col <= |g|
    decreases |g| - row, |g| - col
    ensures h.Some? ==>
      && InBounds(|g|, h.value.row, h.value.col)
      && !Before(h.value.row, h.value.col, row, col)
      && HintCell(g, h.value.row, h.value.col)
      && h.value.validNumbers == Candidates(g, h.value.row, h.value.col)
      && forall i, j | 0 <= i < |g| && 0 <= j < |g| && !Before(i, j, row, col) &&
           Before(i, j, h.value.row, h.value.col) :: !HintCell(g, i, j)
    ensures h.None? ==>
      forall i, j :: 0 <= i < |g| && 0 <= j < |g| && !Before(i, j, row, col) ==> !HintCell(g, i, j)
  {
    if row == |g| then None
    else if col == |g| then FirstHintFrom(g, row + 1, 0)
    else if HintCell(g, row, col) then Some(Hint(row, col, Candidates(g, row, col)))
    else FirstHintFrom(g, row, col + 1)
  }

  /**
   * getHint: the first empty cell in row-major order that has a candidate,
   * with all its candidates; none when no such cell exists.
   */
  function FirstHint(g: Grid): (h: Option<Hint>)
    requires IsBoard(g)
    ensures h.Some? ==>
      && InBounds(|g|, h.value.row, h.value.col)
      && HintCell(g, h.value.row, h.value.col)
      && h.value.validNumbers == Candidates(g, h.value.row, h.value.col)
      && forall i, j :: 0 <= i < |g| && 0 <= j < |g| && Before(i, j, h.value.row, h.value.col) ==> !HintCell(g, i, j)
    ensures h.None? <==> forall i, j :: 0 <= i < |g| && 0 <= j < |g| ==> !HintCell(g, i, j)
  {
    FirstHintFrom(g, 0, 0)
  }
}
