/** com.sudoku.model.Hint: an immutable (row, col, candidates) record and its message. */
module Hints {
  import opened Text

  /** The record; its getters are its fields. */
  datatype Hint = Hint(row: int, col: int, validNumbers: seq<int>)

  /** The candidate part of toString: the value itself, or "one of [a, b, ...]". */
  function CandidateText(vs: seq<int>): string {
    if |vs| == 1 then IntText(vs[0]) else "one of " + ListText(vs)
  }

  /** The position part of toString, 1-based. */
  function PositionText(row: int, col: int): string {
    " in position (" + IntText(row + 1) + "," + IntText(col + 1) + ")"
  }

  /** toString: "Try <candidates> in position (row+1,col+1)". */
  function Message(h: Hint): (m: string)
    ensures |m| > 4 && m[..4] == "Try "
  {
    "Try " + CandidateText(h.validNumbers) + PositionText(h.row, h.col)
  }

  /** The text of an int never starts with a letter. */
  lemma IntTextLead(n: int)
    ensures |IntText(n)| >= 1 && (IntText(n)[0] == '-' || IsDigit(IntText(n)[0]))
  {
  }

  /**
   * The fifth character tells the two forms apart: "Try one of [...]" exactly
   * when the list does not hold a single candidate, and in that form the
   * whole candidate list follows "Try one of ".
   */
  lemma MessageForm(h: Hint)
    ensures |Message(h)| > 4
    ensures Message(h)[4] == 'o' <==> |h.validNumbers| != 1
    ensures |h.validNumbers| != 1 ==> var l := ListText(h.validNumbers);
      |Message(h)| >= 11 + |l| && Message(h)[..11] == "Try one of " && Message(h)[11..11 + |l|] == l
  {
    if |h.validNumbers| == 1 {
      IntTextLead(h.validNumbers[0]);
      assert Message(h)[4] == IntText(h.validNumbers[0])[0];
    } else {
      assert Message(h) == "Try one of " + ListText(h.validNumbers) + PositionText(h.row, h.col);
    }
  }

  /** A single candidate v is shown as its own decimal text right after "Try ", and reads back as v. */
  lemma SingleCandidateShown(h: Hint, v: nat)
    requires h.validNumbers == [v]
    ensures var m := Message(h); var t := NatText(v);
      |m| >= 4 + |t| && m[..4] == "Try " && m[4..4 + |t|] == t && AllDigits(t) && ParseDigits(t) == v
  {
    ParseNatText(v);
    var t := NatText(v);
    assert Message(h) == "Try " + t + PositionText(h.row, h.col);
  }

  /**
   * The message is "Try ", the candidate part, then " in position (r,c)"
   * where r and c are decimal texts reading back as row + 1 and col + 1:
   * positions are reported 1-based.
   */
  lemma PositionShown(h: Hint)
    requires h.row >= 0 && h.col >= 0
    ensures var r, c := NatText(h.row + 1), NatText(h.col + 1);
      && Message(h) == "Try " + CandidateText(h.validNumbers) + PositionText(h.row, h.col)
      && PositionText(h.row, h.col) == " in position (" + r + "," + c + ")"
      && AllDigits(r) && AllDigits(c) && ParseDigits(r) == h.row + 1 && ParseDigits(c) == h.col + 1
  {
    ParseNatText(h.row + 1);
    ParseNatText(h.col + 1);
  }
}
