/** Decimal text of integers: how JavaScript renders a number with `n + ""`
    or in a template literal, and how `parseInt` reads a run of ASCII digits back. */
module Decimal {

  predicate IsDigit(c: char) {
    '0' <= c <= '9'
  }

  predicate IsDigits(s: string) {
    forall i :: 0 <= i < |s| ==> IsDigit(s[i])
  }

  function DigitChar(d: nat): (c: char)
    requires d < 10
    ensures IsDigit(c) && c as int - '0' as int == d
  {
    ('0' as int + d) as char
  }

  function DigitValue(c: char): (d: nat)
    requires IsDigit(c)
    ensures d < 10 && DigitChar(d) == c
  {
    c as int - '0' as int
  }

  /** The value `parseInt` gives a string of decimal digits, most significant first. */
  function DigitsValue(s: string): nat
    requires IsDigits(s)
  {
    if s == [] then 0 else DigitsValue(s[..|s| - 1]) * 10 + DigitValue(s[|s| - 1])
  }

  /** The decimal text of a non-negative integer: digits only, no leading zero. */
  function NatString(n: nat): (s: string)
    ensures |s| >= 1 && IsDigits(s)
    ensures s[0] == '0' ==> n == 0 && |s| == 1
  {
    if n < 10 then [DigitChar(n)] else NatString(n / 10) + [DigitChar(n % 10)]
  }

  /** The decimal text of any integer: a minus sign in front of a negative one. */
  function IntString(i: int): (s: string)
    ensures |s| >= 1
    ensures forall k :: 0 <= k < |s| ==> IsDigit(s[k]) || s[k] == '-'
    ensures i >= 0 ==> IsDigits(s) && DigitsValue(s) == i
    ensures i < 0 ==> s[0] == '-' && IsDigits(s[1..]) && DigitsValue(s[1..]) == -i
    ensures s[0] == '0' ==> i == 0 && |s| == 1
    ensures i < 0 ==> |s| >= 2 && s[1] != '0'
  {
    if i < 0 then
      NatStringValue(-i);
      "-" + NatString(-i)
    else
      NatStringValue(i);
      NatString(i)
  }

  /** Reading the decimal text of `n` back gives `n`. */
  lemma {:induction false} NatStringValue(n: nat)
    ensures DigitsValue(NatString(n)) == n
  {
    if n >= 10 {
      var s := NatString(n);
      assert s[..|s| - 1] == NatString(n / 10);
      NatStringValue(n / 10);
    }
  }

  function Pow10(k: nat): (p: nat)
    ensures p >= 1
  {
    if k == 0 then 1 else 10 * Pow10(k - 1)
  }

  /** A number below 10^k has at most k digits. */
  lemma {:induction false} NatStringLength(n: nat, k: nat)
    requires 1 <= k && n < Pow10(k)
    ensures |NatString(n)| <= k
  {
    if n >= 10 {
      assert k >= 2;
      NatStringLength(n / 10, k - 1);
    }
  }

  /** A leading zero does not change what `parseInt` reads. */
  lemma {:induction false} LeadingZeroValue(s: string)
    requires IsDigits(s)
    ensures IsDigits("0" + s) && DigitsValue("0" + s) == DigitsValue(s)
  {
    if s != [] {
      var t := "0" + s;
      assert t[..|t| - 1] == "0" + s[..|s| - 1];
      LeadingZeroValue(s[..|s| - 1]);
    }
  }
}
