/**
 * Decimal rendering of non-negative integers, as `String(n)` produces it for
 * a non-negative integral number up to 2^53 (beyond that JavaScript prints
 * the shortest digits that read back as the same double, and from 10^21 on
 * an exponent form), and left padding as `padStart` does it.
 * `Parse` is the reading-back partner used to state the round trips.
 */
module Decimal {

  predicate IsDigit(c: char) {
    '0' <= c <= '9'
  }

  /** The character of a single decimal digit. */
  function DigitChar(d: nat): (c: char)
    requires d < 10
    ensures IsDigit(c)
    ensures c as int - '0' as int == d
  {
    (d + '0' as int) as char
  }

  /** The value of a digit character. */
  function DigitValue(c: char): (d: nat)
    requires IsDigit(c)
    ensures d < 10
    ensures DigitChar(d) == c
  {
    c as int - '0' as int
  }

  /** Number of decimal digits of `n`, counting `0` as one digit. */
  function DigitCount(n: nat): (k: nat)
    ensures k >= 1
    ensures n < 10 <==> k == 1
  {
    if n < 10 then 1 else 1 + DigitCount(n / 10)
  }

  /** `String(n)` for a non-negative integer up to 2^53: shortest decimal, no sign. */
  function Show(n: nat): (s: string)
    ensures |s| == DigitCount(n)
    ensures AllDigits(s)
    ensures n >= 10 ==> s[0] != '0'
  {
    if n < 10 then [DigitChar(n)] else Show(n / 10) + [DigitChar(n % 10)]
  }

  predicate AllDigits(s: string) {
    forall i :: 0 <= i < |s| ==> IsDigit(s[i])
  }

  /** Reads a string of digits back as a number; leading zeros are allowed. */
  function Parse(s: string): nat
    requires AllDigits(s)
  {
    if |s| == 0 then 0 else 10 * Parse(s[..|s| - 1]) + DigitValue(s[|s| - 1])
  }

  /** `Parse` ignores leading zeros. */
  lemma {:induction false} ParseLeadingZero(s: string)
    requires AllDigits(s)
    ensures AllDigits(['0'] + s)
    ensures Parse(['0'] + s) == Parse(s)
  {
    var t := ['0'] + s;
    assert AllDigits(t);
    if |s| > 0 {
      assert t[..|t| - 1] == ['0'] + s[..|s| - 1];
      ParseLeadingZero(s[..|s| - 1]);
    }
  }

  /** `Show` and `Parse` are inverse: the rendering denotes the number. */
  lemma {:induction false} ParseShow(n: nat)
    ensures Parse(Show(n)) == n
  {
    if n >= 10 {
      var s := Show(n);
      assert s[..|s| - 1] == Show(n / 10);
      ParseShow(n / 10);
    }
  }

  /** `Show` is injective: different numbers render differently. */
  lemma ShowInjective(m: nat, n: nat)
    requires Show(m) == Show(n)
    ensures m == n
  {
    ParseShow(m);
    ParseShow(n);
  }

  /** `s.padStart(width, fill)`: prefixes copies of `fill` up to `width` characters. */
  function PadStart(s: string, width: nat, fill: char): (r: string)
    ensures |s| >= width ==> r == s
    ensures |s| < width ==> |r| == width
    ensures |s| < width ==> r[width - |s|..] == s
    ensures forall i :: 0 <= i < |r| - |s| ==> r[i] == fill
    decreases width - |s|
  {
    if |s| >= width then s else PadStart([fill] + s, width, fill)
  }
}
