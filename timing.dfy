/**
 * com.sudoku.model.TimerLogic: the elapsed-seconds counter behind the game
 * clock and its "mm:ss" rendering. The Swing timer that calls Tick once a
 * second is outside the model; only whether it runs is kept.
 */
module Timing {
  import opened Text

  /** Java's int. */
  newtype int32 = x: int | -0x8000_0000 <= x < 0x8000_0000

  /** seconds++ on a Java int: the largest value wraps to the smallest. */
  function Increment(s: int32): (t: int32)
    ensures s < 0x7fff_ffff ==> t as int == s as int + 1
    ensures s == 0x7fff_ffff ==> t == -0x8000_0000
  {
    if s == 0x7fff_ffff then -0x8000_0000 else s + 1
  }

  /** Java's a / b for b > 0: the quotient rounded toward zero. */
  function JavaDiv(a: int, b: int): int
    requires b > 0
  {
    if a >= 0 then a / b else -((-a) / b)
  }

  /** Java's a % b for b > 0: the remainder takes the sign of a. */
  function JavaRem(a: int, b: int): int
    requires b > 0
  {
    if a >= 0 then a % b else -((-a) % b)
  }

  /** Java's / and % always recombine, and the remainder lies strictly within (-b, b) with the sign of a. */
  lemma DivRem(a: int, b: int)
    requires b > 0
    ensures JavaDiv(a, b) * b + JavaRem(a, b) == a
    ensures a >= 0 ==> 0 <= JavaRem(a, b) < b
    ensures a < 0 ==> -b < JavaRem(a, b) <= 0
  {
  }

  /** The minutes field of getFormattedTime. */
  function Minutes(s: int32): int {
    JavaDiv(s as int, 60)
  }

  /** The seconds field of getFormattedTime. */
  function SecondsField(s: int32): int {
    JavaRem(s as int, 60)
  }

  /** Reads "m...m:ss" back as a number of seconds. */
  function ParseClock(t: string): int
    requires |t| >= 3 && AllDigits(t[..|t| - 3]) && AllDigits(t[|t| - 2..])
  {
    ParseDigits(t[..|t| - 3]) * 60 + ParseDigits(t[|t| - 2..])
  }

  /** For a non-negative count the fields are whole minutes and 0..59 seconds that add back up to it. */
  lemma FieldsOfTime(s: int32)
    requires s >= 0
    ensures Minutes(s) * 60 + SecondsField(s) == s as int
    ensures 0 <= SecondsField(s) < 60 && 0 <= Minutes(s)
  {
    DivRem(s as int, 60);
  }

  /** Padded minutes, ':' and padded seconds below 60 read back as minutes * 60 + seconds. */
  lemma ClockReadsBack(m: nat, r: nat)
    requires r < 60
    ensures var t := Pad2(m) + ":" + Pad2(r);
      && |t| >= 5 && t[|t| - 3] == ':'
      && AllDigits(t[..|t| - 3]) && AllDigits(t[|t| - 2..])
      && ParseClock(t) == m * 60 + r
  {
    Pad2ReadsBack(m);
    Pad2ReadsBack(r);
    assert |Pad2(r)| == 2 by {
      if r >= 10 {
        assert NatText(r) == NatText(r / 10) + [DigitChar(r % 10)];
      }
    }
    var t := Pad2(m) + ":" + Pad2(r);
    assert t[..|t| - 3] == Pad2(m);
    assert t[|t| - 2..] == Pad2(r);
  }

  /**
   * getFormattedTime: String.format("%02d:%02d", seconds / 60, seconds % 60).
   * For a non-negative count the text is "mm:ss" (two or more minute digits)
   * and reads back as the count.
   */
  function FormattedTime(s: int32): (t: string)
    ensures s >= 0 ==>
      && |t| >= 5 && t[|t| - 3] == ':'
      && AllDigits(t[..|t| - 3]) && AllDigits(t[|t| - 2..])
      && ParseClock(t) == s as int
  {
    var m, r := Minutes(s), SecondsField(s);
    if s >= 0 then
      FieldsOfTime(s);
      ClockReadsBack(m, r);
      Pad2(m) + ":" + Pad2(r)
    else
      Pad2(m) + ":" + Pad2(r)
  }

  /** TimerLogic: the seconds counter and whether the Swing timer is running. */
  class Timer {
    var seconds: int32
    var running: bool

    /** new TimerLogic(listener): zero seconds, not yet started. */
    constructor ()
      ensures seconds == 0 && !running
    {
      seconds := 0;
      running := false;
    }

    /** The timer callback: seconds++ (with Java int wrap-around). */
    method Tick()
      modifies this
      ensures seconds == Increment(old(seconds)) && running == old(running)
    {
      seconds := Increment(seconds);
    }

    method Start()
      modifies this
      ensures running && seconds == old(seconds)
    {
      running := true;
    }

    method Stop()
      modifies this
      ensures !running && seconds == old(seconds)
    {
      running := false;
    }

    /** reset: stop the timer and zero the counter. */
    method Reset()
      modifies this
      ensures !running && seconds == 0
    {
      Stop();
      seconds := 0;
    }

    /** setElapsedSeconds: the counter takes the given value; the timer keeps running or not. */
    method SetElapsedSeconds(n: int32)
      modifies this
      ensures seconds == n && running == old(running)
    {
      seconds := n;
    }

    /** getElapsedSeconds. */
    function ElapsedSeconds(): (s: int32)
      reads this
      ensures s == seconds
    {
      seconds
    }
  }

  /** Setting a count and reading it back gives that count; a tick afterwards adds exactly one second. */
  method SetThenTick(t: Timer, n: int32) returns (read: int32, readAfterTick: int32)
    requires n < 0x7fff_ffff
    modifies t
    ensures read == n && readAfterTick == n + 1
  {
    t.SetElapsedSeconds(n);
    read := t.ElapsedSeconds();
    t.Tick();
    readAfterTick := t.ElapsedSeconds();
  }
}
