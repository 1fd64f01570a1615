/**
 * The cell-text codec of com.sudoku.view.GridPanel: which typed characters
 * a cell accepts, the value a typed character stands for, and the text and
 * editability of a cell. ASCII only; the Swing widgets are outside the model.
 */
module Codec {
  import opened Wrappers
  import opened Text
  import opened Board

  predicate IsLetter(c: char) {
    'a' <= c <= 'z' || 'A' <= c <= 'Z'
  }

  /** Character.toUpperCase on ASCII. */
  function Upper(c: char): (u: char)
    ensures 'a' <= c <= 'z' ==> u as int == c as int - 32
    ensures !('a' <= c <= 'z') ==> u == c
  {
    if 'a' <= c <= 'z' then (c as int - 32) as char else c
  }

  /** isValidInput: size 9 takes '1'..'9'; size 16 also takes A-F in either case; other sizes take nothing. */
  predicate IsValidInput(size: int, c: char): (ok: bool)
    ensures ok ==> KeyValue(c).Some?
    ensures ok && size == 9 ==> 1 <= KeyValue(c).value <= 9
    ensures ok && size == 16 ==> 1 <= KeyValue(c).value <= 15
  {
    if size == 9 then IsDigit(c) && c != '0'
    else if size == 16 then (IsDigit(c) && c != '0') || ('A' <= Upper(c) <= 'F')
    else false
  }

  /** The value keyTyped passes to updateCell: a digit's value, or upper(c) - 'A' + 10 for a letter. */
  function KeyValue(c: char): (r: Option<int>)
    ensures r.Some? <==> IsDigit(c) || IsLetter(c)
    ensures r.Some? ==> 0 <= r.value <= 35
  {
    if IsDigit(c) then Some(DigitValue(c))
    else if IsLetter(c) then Some(Upper(c) as int - 'A' as int + 10)
    else None
  }

  /** A digit stands for its decimal value. */
  lemma DigitKeyValue(c: char)
    requires IsDigit(c)
    ensures KeyValue(c) == Some(ParseDigits([c]))
  {
    assert [c][..0] == [];
  }

  /** Letters are read without regard to case: 'a'..'z' stand for the same values as 'A'..'Z', 10 for 'a' up to 35 for 'z'. */
  lemma LetterKeyValue(c: char)
    requires 'a' <= c <= 'z'
    ensures KeyValue(c) == KeyValue(Upper(c)) == Some(c as int - 'a' as int + 10)
  {
  }

  /** The (char) cast of updateGrid stays below the surrogate range. */
  predicate LetterCastable(v: int) {
    'A' as int + v - 10 < 0xD800 && 'A' as int + v - 10 >= 0
  }

  /** updateGrid's text of a cell: "" when empty, decimal on a 9-board or up to 9, else the letter 'A' + v - 10. */
  function CellText(size: int, v: int): (t: string)
    requires size == 9 || v <= 9 || LetterCastable(v)
    ensures t == "" <==> v == 0
    ensures size != 9 && v > 9 ==> |t| == 1 && !IsDigit(t[0])
    ensures 0 < v && (size == 9 || v <= 9) ==> AllDigits(t) && ParseDigits(t) == v
  {
    if v == 0 then ""
    else if size == 9 || v <= 9 then
      if v > 0 then ParseNatText(v); IntText(v) else IntText(v)
    else [('A' as int + v - 10) as char]
  }

  /** updateGrid's editability: an empty cell, or a cell that is not a given. */
  predicate Editable(v: int, given: bool) {
    v == 0 || !given
  }

  /** On a 9-board exactly the characters '1'..'9' are accepted. */
  lemma AcceptedOnNine(c: char)
    ensures IsValidInput(9, c) <==> '1' <= c <= '9'
  {
  }

  /** On a 16-board the accepted characters are '1'..'9', 'a'..'f' and 'A'..'F'. */
  lemma AcceptedOnSixteen(c: char)
    ensures IsValidInput(16, c) <==> '1' <= c <= '9' || 'a' <= c <= 'f' || 'A' <= c <= 'F'
  {
  }

  /** On a 9-board, every value 1..9 shows as one accepted character that decodes back to it. */
  lemma RoundTripNine(v: int)
    requires 1 <= v <= 9
    ensures var t := CellText(9, v); |t| == 1 && IsValidInput(9, t[0]) && KeyValue(t[0]) == Some(v)
  {
    assert CellText(9, v) == [DigitChar(v)];
  }

  /** On a 16-board, every value 1..15 shows as one accepted character that decodes back to it. */
  lemma RoundTripSixteen(v: int)
    requires 1 <= v <= 15
    ensures var t := CellText(16, v); |t| == 1 && IsValidInput(16, t[0]) && KeyValue(t[0]) == Some(v)
  {
    if v <= 9 {
      assert CellText(16, v) == [DigitChar(v)];
    }
  }

  /**
   * On a board whose givens all hold values, as after generatePuzzle and any
   * number of guarded setValue calls, a cell is editable exactly when it is
   * not a given: the cells the view lets the player type into are exactly
   * the cells setValue writes.
   */
  lemma EditableExactlyNonGivens(g: Grid, m: Mask, r: int, c: int)
    requires IsBoard(g) && IsSquare(m, |g|) && InBounds(|g|, r, c) && GivensFilled(g, m)
    ensures Editable(g[r][c], m[r][c]) <==> !m[r][c]
  {
  }

  // ---------------------------------------------------------------------
  // The value 16 of a 16-board cannot be entered
  // ---------------------------------------------------------------------

  /**
   * As written: 16 is shown as "G", which the input filter rejects, and no
   * accepted character decodes to 16.
   */
  lemma SixteenUntypeable(c: char)
    ensures CellText(16, 16) == "G" && !IsValidInput(16, 'G')
    ensures IsValidInput(16, c) ==> KeyValue(c) != Some(16)
  {
  }

  /** The evidently intended filter: a 16-board also takes 'G' (either case), the letter its own display uses for 16. */
  predicate IsValidInputFixed(size: int, c: char) {
    if size == 16 then IsValidInput(16, c) || Upper(c) == 'G' else IsValidInput(size, c)
  }

  /** With the fixed filter every value 1..16 of a 16-board round-trips through its text, and nothing above 16 is accepted. */
  lemma RoundTripSixteenFixed(v: int, c: char)
    requires 1 <= v <= 16
    ensures var t := CellText(16, v); |t| == 1 && IsValidInputFixed(16, t[0]) && KeyValue(t[0]) == Some(v)
    ensures IsValidInputFixed(16, c) ==> KeyValue(c).Some? && 1 <= KeyValue(c).value <= 16
  {
    if v <= 9 {
      assert CellText(16, v) == [DigitChar(v)];
    }
  }
}
