/**
 * Decimal text of Java ints, as Integer.toString, String.valueOf(int) and
 * StringBuilder.append(int) produce it, the "%02d" format, and a digit parser
 * used to state round trips. ASCII only.
 */
module Text {

  predicate IsDigit(c: char) {
    '0' <= c <= '9'
  }

  predicate AllDigits(s: string) {
    forall i :: 0 <= i < |s| ==> IsDigit(s[i])
  }

  function DigitChar(d: int): (c: char)
    requires 0 <= d < 10
    ensures IsDigit(c)
  {
    ('0' as int + d) as char
  }

  function DigitValue(c: char): (d: int)
    requires IsDigit(c)
    ensures 0 <= d < 10
  {
    c as int - '0' as int
  }

  /** Decimal digits of n, most significant first, without leading zeros. */
  function NatText(n: nat): (s: string)
    ensures 1 <= |s| && AllDigits(s)
    ensures s[0] == '0' ==> n == 0 && s == "0"
  {
    if n < 10 then [DigitChar(n)] else NatText(n / 10) + [DigitChar(n % 10)]
  }

  /** Java's decimal rendering of an int: a minus sign, then the digits of its magnitude. */
  function IntText(n: int): string {
    if n < 0 then "-" + NatText(-n) else NatText(n)
  }

  /** The value of a string of decimal digits (leading zeros allowed). */
  function ParseDigits(s: string): nat
    requires AllDigits(s)
  {
    if s == [] then 0 else ParseDigits(s[..|s| - 1]) * 10 + DigitValue(s[|s| - 1])
  }

  lemma {:induction false} ParseNatText(n: nat)
    ensures ParseDigits(NatText(n)) == n
  {
    if n >= 10 {
      var s := NatText(n);
      assert s[..|s| - 1] == NatText(n / 10);
      ParseNatText(n / 10);
    }
  }

  lemma {:induction false} LeadingZero(s: string)
    requires AllDigits(s)
    ensures AllDigits("0" + s) && ParseDigits("0" + s) == ParseDigits(s)
  {
    if s != [] {
      assert ("0" + s)[..|"0" + s| - 1] == "0" + s[..|s| - 1];
      LeadingZero(s[..|s| - 1]);
    }
  }

  /** String.format("%02d", n): at least two characters, zero-padded on the left. */
  function Pad2(n: int): string {
    if 0 <= n < 10 then "0" + NatText(n) else IntText(n)
  }

  /** For a non-negative n the padded text is two or more digits that read back as n. */
  lemma Pad2ReadsBack(n: nat)
    ensures 2 <= |Pad2(n)| && AllDigits(Pad2(n)) && ParseDigits(Pad2(n)) == n
  {
    ParseNatText(n);
    if n < 10 {
      LeadingZero(NatText(n));
    } else {
      assert NatText(n) == NatText(n / 10) + [DigitChar(n % 10)];
    }
  }

  /** The elements of a list joined by ", ". */
  function JoinInts(xs: seq<int>): string {
    if xs == [] then ""
    else if |xs| == 1 then IntText(xs[0])
    else IntText(xs[0]) + ", " + JoinInts(xs[1..])
  }

  /** Java's List.toString for a list of Integers: "[1, 2, 3]". */
  function ListText(xs: seq<int>): string {
    "[" + JoinInts(xs) + "]"
  }
}
