/**
 * Decimal rendering of integers, as a JavaScript template literal prints an
 * integral number (`${n}`), and the reading of a leading decimal number back
 * out of a string, so that the texts the screens show can be related to the
 * counts they display.
 */
module Decimal {

  predicate IsDigit(c: char)
  {
    '0' <= c <= '9'
  }

  predicate AllDigits(s: string)
  {
    forall i :: 0 <= i < |s| ==> IsDigit(s[i])
  }

  function DigitChar(d: nat): (c: char)
    requires d < 10
    ensures IsDigit(c) && DigitValue(c) == d
  {
    (48 + d) as char
  }

  function DigitValue(c: char): (d: nat)
    requires IsDigit(c)
    ensures d < 10
  {
    c as int - 48
  }

  /** The shortest decimal numeral of `n`, most significant digit first. */
  function NatToString(n: nat): (s: string)
    ensures |s| > 0 && AllDigits(s)
    ensures n < 10 <==> |s| == 1
    ensures |s| > 1 ==> s[0] != '0'
  {
    if n < 10 then [DigitChar(n)]
    else
      var high := NatToString(n / 10);
      assert |high| == 1 ==> high[0] == DigitChar(n / 10) && DigitValue(high[0]) != 0;
      high + [DigitChar(n % 10)]
  }

  /**
   * `${i}` for an integral number of magnitude below 10^21 (larger ones are
   * printed in exponent form): a minus sign before the magnitude when negative.
   */
  function IntToString(i: int): (s: string)
    ensures |s| > 0
    ensures i >= 0 <==> IsDigit(s[0])
    ensures i >= 0 ==> s == NatToString(i) && AllDigits(s) && DigitsValue(s) == i
    ensures i < 0 ==> s[0] == '-' && s[1..] == NatToString(-i)
    ensures i < 0 ==> AllDigits(s[1..]) && DigitsValue(s[1..]) == -i
  {
    if i < 0 then
      NatToStringRoundTrip(-i);
      "-" + NatToString(-i)
    else
      NatToStringRoundTrip(i);
      NatToString(i)
  }

  /** The value of a string of decimal digits (0 for the empty string). */
  function DigitsValue(s: string): nat
    requires AllDigits(s)
  {
    if s == [] then 0 else DigitsValue(s[..|s| - 1]) * 10 + DigitValue(s[|s| - 1])
  }

  /** The maximal run of digits at the start of `s`. */
  function LeadingDigits(s: string): (d: string)
    ensures |d| <= |s| && d == s[..|d|] && AllDigits(d)
    ensures |d| < |s| ==> !IsDigit(s[|d|])
  {
    if s == [] || !IsDigit(s[0]) then [] else [s[0]] + LeadingDigits(s[1..])
  }

  /** The number written at the start of `s`. */
  function LeadingNumber(s: string): nat
  {
    DigitsValue(LeadingDigits(s))
  }

  /** Reading a rendered natural number gives the number back. */
  lemma {:induction false} NatToStringRoundTrip(n: nat)
    ensures DigitsValue(NatToString(n)) == n
  {
    var s := NatToString(n);
    if n >= 10 {
      NatToStringRoundTrip(n / 10);
      assert s[..|s| - 1] == NatToString(n / 10);
    }
  }

  /** A run of digits followed by a non-digit (or nothing) is exactly the leading run. */
  lemma {:induction false} LeadingDigitsOfDigits(d: string, rest: string)
    requires AllDigits(d)
    requires rest == [] || !IsDigit(rest[0])
    ensures LeadingDigits(d + rest) == d
  {
    if d != [] {
      assert (d + rest)[1..] == d[1..] + rest;
      LeadingDigitsOfDigits(d[1..], rest);
    }
  }

  /** The number rendered at the start of a text is read back from that text. */
  lemma LeadingNumberOfRendered(n: nat, rest: string)
    requires rest == [] || !IsDigit(rest[0])
    ensures LeadingNumber(NatToString(n) + rest) == n
  {
    LeadingDigitsOfDigits(NatToString(n), rest);
    NatToStringRoundTrip(n);
  }
}
