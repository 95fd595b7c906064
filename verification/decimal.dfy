/**
 * Decimal rendering of integers, as a JavaScript template literal
 * (`${n}`) writes an integral number: digits without leading zeros,
 * preceded by '-' when the number is negative.
 */
module Decimal {

  predicate IsDigit(c: char) {
    '0' <= c <= '9'
  }

  function DigitChar(d: nat): (c: char)
    requires d < 10
    ensures IsDigit(c)
  {
    (48 + d) as char
  }

  function DigitValue(c: char): (d: nat)
    requires IsDigit(c)
    ensures d < 10
  {
    (c as int) - 48
  }

  /** The decimal digits of `n`, most significant first. */
  function NatToString(n: nat): (s: string)
    ensures |s| >= 1
    ensures forall i :: 0 <= i < |s| ==> IsDigit(s[i])
    ensures s[0] == '0' ==> n == 0 && s == "0"
    decreases n
  {
    if n < 10 then [DigitChar(n)] else NatToString(n / 10) + [DigitChar(n % 10)]
  }

  /** What `${n}` gives for an integral JavaScript number `n`. */
  function IntToString(n: int): (s: string)
    ensures |s| >= 1
    ensures s[0] == '-' <==> n < 0
    ensures forall i :: 0 < i < |s| ==> IsDigit(s[i])
    ensures |s| > 1 && s[0] == '-' ==> s[1] != '0'
    ensures var digits := if n < 0 then s[1..] else s;
      |digits| >= 1 && (forall i :: 0 <= i < |digits| ==> IsDigit(digits[i]))
      && (digits[0] == '0' ==> digits == "0")
      && DigitsValue(digits) == (if n < 0 then -n else n)
  {
    NatToStringRoundTrip(if n < 0 then -n else n);
    if n < 0 then "-" + NatToString(-n) else NatToString(n)
  }

  /** The number a string of decimal digits denotes. */
  function DigitsValue(s: string): nat
    requires forall i :: 0 <= i < |s| ==> IsDigit(s[i])
  {
    if s == [] then 0 else DigitsValue(s[..|s| - 1]) * 10 + DigitValue(s[|s| - 1])
  }

  /** Reading the rendered digits back gives the number: the rendering loses nothing. */
  lemma {:induction false} NatToStringRoundTrip(n: nat)
    ensures DigitsValue(NatToString(n)) == n
    decreases n
  {
    var s := NatToString(n);
    if n >= 10 {
      NatToStringRoundTrip(n / 10);
      assert s[..|s| - 1] == NatToString(n / 10);
    }
  }

  /** Distinct numbers are rendered as distinct strings. */
  lemma NatToStringInjective(a: nat, b: nat)
    requires NatToString(a) == NatToString(b)
    ensures a == b
  {
    NatToStringRoundTrip(a);
    NatToStringRoundTrip(b);
  }

  /** Distinct integers, signs included, are rendered as distinct strings. */
  lemma IntToStringInjective(a: int, b: int)
    requires IntToString(a) == IntToString(b)
    ensures a == b
  {
    var s := IntToString(a);
    if a < 0 && b < 0 {
      assert NatToString(-a) == s[1..] == NatToString(-b);
      NatToStringInjective(-a, -b);
    } else if a >= 0 && b >= 0 {
      NatToStringInjective(a, b);
    }
  }

  /** The length of the run of digits a string starts with. */
  function DigitRun(w: string): (n: nat)
    ensures n <= |w|
  {
    if w == [] || !IsDigit(w[0]) then 0 else 1 + DigitRun(w[1..])
  }

  /** Digits followed by a non-digit: the run is exactly the digits. */
  lemma {:induction false} DigitRunOf(p: string, s: string)
    requires forall i :: 0 <= i < |p| ==> IsDigit(p[i])
    requires |s| > 0 && !IsDigit(s[0])
    ensures DigitRun(p + s) == |p|
  {
    if p != [] {
      assert (p + s)[1..] == p[1..] + s;
      DigitRunOf(p[1..], s);
    }
  }

  /**
   * Two strings, each a run of digits followed by a non-digit, are equal
   * only when their digit runs are equal and so are their rests.
   */
  lemma DigitsPrefixSplit(p1: string, s1: string, p2: string, s2: string)
    requires forall i :: 0 <= i < |p1| ==> IsDigit(p1[i])
    requires forall i :: 0 <= i < |p2| ==> IsDigit(p2[i])
    requires |s1| > 0 && !IsDigit(s1[0])
    requires |s2| > 0 && !IsDigit(s2[0])
    requires p1 + s1 == p2 + s2
    ensures p1 == p2 && s1 == s2
  {
    var w := p1 + s1;
    DigitRunOf(p1, s1);
    DigitRunOf(p2, s2);
    assert p1 == w[..|p1|] == p2;
    assert s1 == w[|p1|..] == s2;
  }
}
