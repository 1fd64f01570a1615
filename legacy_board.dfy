/**
 * The hint rule of the older model.SudokuGrid: collect a hint for every
 * empty cell that has a candidate, in row-major order, stable-sort the list
 * by candidate count, and offer the head. Its findValidNumbers is the same
 * candidate loop as the newer tree's, so it is Board.Candidates, and
 * legality is the same isValidMove.
 */
module LegacyBoard {
  import opened Wrappers
  import opened Hints
  import opened Board

  /** The hints the nested loops of getHint collect from (row, col) on; col == N stands for the next row. */
  function HintsFrom(g: Grid, row: int, col: int): (hs: seq<Hint>)
    requires IsBoard(g) && 0 <= row <= |g| && 0 <= col <= |g|
    decreases |g| - row, |g| - col
    ensures forall k :: 0 <= k < |hs| ==>
      && InBounds(|g|, hs[k].row, hs[k].col) && !Before(hs[k].row, hs[k].col, row, col)
      && HintCell(g, hs[k].row, hs[k].col) && hs[k].validNumbers == Candidates(g, hs[k].row, hs[k].col)
    ensures forall k, l :: 0 <= k < l < |hs| ==> Before(hs[k].row, hs[k].col, hs[l].row, hs[l].col)
    ensures forall i, j :: 0 <= i < |g| && 0 <= j < |g| && !Before(i, j, row, col) && HintCell(g, i, j) ==>
      Hint(i, j, Candidates(g, i, j)) in hs
  {
    if row == |g| then []
    else if col == |g| then HintsFrom(g, row + 1, 0)
    else if HintCell(g, row, col) then [Hint(row, col, Candidates(g, row, col))] + HintsFrom(g, row, col + 1)
    else HintsFrom(g, row, col + 1)
  }

  /** The number of candidates of a hint, the sort key. */
  function Count(h: Hint): nat {
    |h.validNumbers|
  }

  /** One step of a stable insertion sort: h goes after every element whose count is not larger. */
  function Insert(s: seq<Hint>, h: Hint): (r: seq<Hint>)
    ensures |r| == |s| + 1 && multiset(r) == multiset(s) + multiset{h}
    ensures r[0] == if s != [] && Count(s[0]) <= Count(h) then s[0] else h
  {
    if s == [] then [h]
    else if Count(s[0]) > Count(h) then [h] + s
    else
      assert s == [s[0]] + s[1..];
      [s[0]] + Insert(s[1..], h)
  }

  predicate SortedByCount(s: seq<Hint>) {
    forall i, j :: 0 <= i < j < |s| ==> Count(s[i]) <= Count(s[j])
  }

  lemma {:induction false} InsertSorted(s: seq<Hint>, h: Hint)
    requires SortedByCount(s)
    ensures SortedByCount(Insert(s, h))
  {
    if s != [] && Count(s[0]) <= Count(h) {
      InsertSorted(s[1..], h);
      var r := Insert(s, h);
      assert r == [s[0]] + Insert(s[1..], h);
      forall i, j | 0 <= i < j < |r|
        ensures Count(r[i]) <= Count(r[j])
      {
        if i == 0 {
          assert r[j] in multiset(s[1..]) + multiset{h};
        }
      }
    }
  }

  /** List.sort with comparingInt(size): a stable sort by candidate count. */
  function SortByCount(hs: seq<Hint>): (r: seq<Hint>)
    ensures |r| == |hs| && multiset(r) == multiset(hs) && SortedByCount(r)
  {
    if hs == [] then []
    else
      var r := Insert(SortByCount(hs[..|hs| - 1]), hs[|hs| - 1]);
      InsertSorted(SortByCount(hs[..|hs| - 1]), hs[|hs| - 1]);
      assert hs == hs[..|hs| - 1] + [hs[|hs| - 1]];
      r
  }

  /** The position of the first hint with the fewest candidates. */
  function FewestIndex(hs: seq<Hint>): (k: nat)
    requires hs != []
    ensures k < |hs|
    ensures forall i :: 0 <= i < |hs| ==> Count(hs[k]) <= Count(hs[i])
    ensures forall i :: 0 <= i < k ==> Count(hs[i]) > Count(hs[k])
  {
    if |hs| == 1 then 0
    else
      var k := FewestIndex(hs[..|hs| - 1]);
      if Count(hs[|hs| - 1]) < Count(hs[k]) then |hs| - 1 else k
  }

  /** The head of the stable sort is the first hint with the fewest candidates. */
  lemma {:induction false} SortedHead(hs: seq<Hint>)
    requires hs != []
    ensures SortByCount(hs)[0] == hs[FewestIndex(hs)]
  {
    if |hs| > 1 {
      SortedHead(hs[..|hs| - 1]);
    }
  }

  /** Against one other empty cell with candidates: the chosen hint has no more candidates, and fewer if that cell comes first. */
  lemma FewestBeats(g: Grid, i: int, j: int)
    requires IsBoard(g) && InBounds(|g|, i, j) && HintCell(g, i, j)
    ensures HintsFrom(g, 0, 0) != []
    ensures var hs := HintsFrom(g, 0, 0); var k := FewestIndex(hs);
      && Count(hs[k]) <= |Candidates(g, i, j)|
      && (Before(i, j, hs[k].row, hs[k].col) ==> Count(hs[k]) < |Candidates(g, i, j)|)
  {
    var hs := HintsFrom(g, 0, 0);
    assert Hint(i, j, Candidates(g, i, j)) in hs;
    var k := FewestIndex(hs);
    var l :| 0 <= l < |hs| && hs[l] == Hint(i, j, Candidates(g, i, j));
    if Before(i, j, hs[k].row, hs[k].col) {
      assert !Before(hs[k].row, hs[k].col, hs[l].row, hs[l].col);
      assert l < k;
    }
  }

  /** Every empty cell with candidates loses to the first fewest hint: none has fewer, and any before it has more. */
  lemma FewestBeatsAll(g: Grid)
    requires IsBoard(g) && HintsFrom(g, 0, 0) != []
    ensures var hs := HintsFrom(g, 0, 0); var h := hs[FewestIndex(hs)];
      && (forall i, j :: 0 <= i < |g| && 0 <= j < |g| && HintCell(g, i, j) ==>
            |h.validNumbers| <= |Candidates(g, i, j)|)
      && (forall i, j | 0 <= i < |g| && 0 <= j < |g| && HintCell(g, i, j) && Before(i, j, h.row, h.col) ::
            |h.validNumbers| < |Candidates(g, i, j)|)
  {
    var hs := HintsFrom(g, 0, 0);
    forall i, j | 0 <= i < |g| && 0 <= j < |g| && HintCell(g, i, j)
      ensures Count(hs[FewestIndex(hs)]) <= |Candidates(g, i, j)|
      ensures Before(i, j, hs[FewestIndex(hs)].row, hs[FewestIndex(hs)].col) ==>
        Count(hs[FewestIndex(hs)]) < |Candidates(g, i, j)|
    {
      FewestBeats(g, i, j);
    }
  }

  /**
   * getHint of the older tree: the head of the hint list sorted by candidate
   * count. It is none exactly when no empty cell has a candidate; otherwise
   * it names such a cell with all its candidates, no such cell has fewer,
   * and every such cell before it has more.
   */
  function FewestHint(g: Grid): (r: Option<Hint>)
    requires IsBoard(g)
    ensures r.None? <==> forall i, j :: 0 <= i < |g| && 0 <= j < |g| ==> !HintCell(g, i, j)
    ensures r.Some? ==> var h := r.value;
      && InBounds(|g|, h.row, h.col) && HintCell(g, h.row, h.col)
      && h.validNumbers == Candidates(g, h.row, h.col)
      && (forall i, j :: 0 <= i < |g| && 0 <= j < |g| && HintCell(g, i, j) ==>
            |h.validNumbers| <= |Candidates(g, i, j)|)
      && (forall i, j | 0 <= i < |g| && 0 <= j < |g| && HintCell(g, i, j) && Before(i, j, h.row, h.col) ::
            |h.validNumbers| < |Candidates(g, i, j)|)
  {
    var hs := HintsFrom(g, 0, 0);
    if hs == [] then None
    else
      assert HintCell(g, hs[0].row, hs[0].col);
      SortedHead(hs);
      FewestBeatsAll(g);
      Some(SortByCount(hs)[0])
  }
}
