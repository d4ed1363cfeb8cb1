/** Decimal digit strings, as accepted by the `Retry-After` pattern `^[\d]+$`
    (restricted to ASCII digits) and read by `int(...)`. */
module Digits {

  predicate IsDigit(c: char) {
    '0' <= c <= '9'
  }

  /** A non-empty string of ASCII digits. */
  predicate IsDigitString(s: string) {
    |s| > 0 && forall i :: 0 <= i < |s| ==> IsDigit(s[i])
  }

  function DigitValue(c: char): (d: nat)
    requires IsDigit(c)
    ensures d < 10
  {
    c as int - '0' as int
  }

  function DigitChar(d: nat): (c: char)
    requires d < 10
    ensures IsDigit(c) && DigitValue(c) == d
  {
    ('0' as int + d) as char
  }

  function Pow10(n: nat): (p: nat)
    ensures p >= 1
  {
    if n == 0 then 1 else 10 * Pow10(n - 1)
  }

  /** `int(s)` for a string of digits, read most significant digit first
      (leading zeros are allowed and ignored): a value that fits in `|s|`
      decimal digits, whose last digit is the last character. */
  function ParseDecimal(s: string): (n: nat)
    requires forall i :: 0 <= i < |s| ==> IsDigit(s[i])
    ensures n < Pow10(|s|)
    ensures s != [] ==> n % 10 == DigitValue(s[|s| - 1])
    decreases |s|
  {
    if s == [] then 0
    else 10 * ParseDecimal(s[..|s| - 1]) + DigitValue(s[|s| - 1])
  }

  /** The decimal spelling of `n` without leading zeros, as a server writes
      a `Retry-After` value. */
  function ShowDecimal(n: nat): (s: string)
    ensures IsDigitString(s)
    ensures |s| > 1 ==> s[0] != '0'
    decreases n
  {
    if n < 10 then [DigitChar(n)]
    else ShowDecimal(n / 10) + [DigitChar(n % 10)]
  }

  /** Reading back a written number gives that number. */
  lemma {:induction false} ParseShowRoundTrip(n: nat)
    ensures ParseDecimal(ShowDecimal(n)) == n
    decreases n
  {
    var s := ShowDecimal(n);
    if n >= 10 {
      ParseShowRoundTrip(n / 10);
      assert s[..|s| - 1] == ShowDecimal(n / 10);
    }
  }

  /** Leading zeros do not change the value read. */
  lemma {:induction false} ParseIgnoresLeadingZero(s: string)
    requires forall i :: 0 <= i < |s| ==> IsDigit(s[i])
    ensures ParseDecimal("0" + s) == ParseDecimal(s)
    decreases |s|
  {
    if s != [] {
      var t := "0" + s;
      assert t[..|t| - 1] == "0" + s[..|s| - 1];
      assert t[|t| - 1] == s[|s| - 1];
      ParseIgnoresLeadingZero(s[..|s| - 1]);
    }
  }
}
