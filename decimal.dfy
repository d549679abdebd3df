/** Decimal text of JavaScript numbers that are integers: `Number.prototype.toString()`,
    `String.prototype.padStart` and reading a run of decimal digits back. */
module Decimal {

  predicate IsDigit(c: char) {
    '0' <= c <= '9'
  }

  predicate IsDigits(s: string) {
    forall i | 0 <= i < |s| :: IsDigit(s[i])
  }

  function DigitChar(d: nat): (c: char)
    requires d < 10
    ensures IsDigit(c)
  {
    "0123456789"[d]
  }

  function DigitValue(c: char): (d: nat)
    requires IsDigit(c)
    ensures d < 10
  {
    c as int - '0' as int
  }

  /** `n.toString()` for a non-negative integer below 10^21 (from there on JavaScript writes
      exponent notation): shortest decimal form, no leading zero. */
  function DecimalDigits(n: nat): (s: string)
    ensures |s| >= 1 && IsDigits(s)
    ensures |s| > 1 ==> s[0] != '0'
    decreases n
  {
    if n < 10 then [DigitChar(n)] else DecimalDigits(n / 10) + [DigitChar(n % 10)]
  }

  /** `i.toString()` for an integer of magnitude below 10^21: a minus sign before the digits of `-i`. */
  function IntToString(i: int): (s: string)
    ensures |s| >= 1
    ensures i >= 0 <==> IsDigits(s)
    ensures i >= 0 ==> DecimalValue(s) == i
    ensures i < 0 ==> s[0] == '-' && IsDigits(s[1..]) && DecimalValue(s[1..]) == -i
  {
    if i < 0 then
      DecimalRoundTrip(-i);
      MinusSign(DecimalDigits(-i));
      ['-'] + DecimalDigits(-i)
    else
      DecimalRoundTrip(i);
      DecimalDigits(i)
  }

  /** A minus sign before digits: not all digits, and the digits follow the sign. */
  lemma MinusSign(d: string)
    requires IsDigits(d)
    ensures !IsDigits(['-'] + d)
    ensures (['-'] + d)[0] == '-' && (['-'] + d)[1..] == d
  {
    assert !IsDigit((['-'] + d)[0]);
  }

  /** The number a run of decimal digits denotes (the empty run denotes 0). */
  function DecimalValue(s: string): nat
    requires IsDigits(s)
    decreases |s|
  {
    if s == [] then 0 else DecimalValue(s[..|s| - 1]) * 10 + DigitValue(s[|s| - 1])
  }

  /** `s.padStart(width, fill)`: fill characters in front until at least `width` long. */
  function PadStart(s: string, width: nat, fill: char): (r: string)
    ensures |r| == if |s| < width then width else |s|
    ensures r[|r| - |s|..] == s
    ensures forall i | 0 <= i < |r| - |s| :: r[i] == fill
  {
    if |s| < width then seq(width - |s|, _ => fill) + s else s
  }

  /** Reading back the digits `toString` writes gives the number. */
  lemma {:induction false} DecimalRoundTrip(n: nat)
    ensures DecimalValue(DecimalDigits(n)) == n
    decreases n
  {
    if n >= 10 {
      DecimalRoundTrip(n / 10);
      var s := DecimalDigits(n);
      assert s[..|s| - 1] == DecimalDigits(n / 10);
    }
  }

  /** A leading zero does not change the value. */
  lemma {:induction false} LeadingZero(s: string)
    requires IsDigits(s)
    ensures IsDigits("0" + s) && DecimalValue("0" + s) == DecimalValue(s)
    decreases |s|
  {
    var z := "0" + s;
    if s != [] {
      LeadingZero(s[..|s| - 1]);
      assert z[..|z| - 1] == "0" + s[..|s| - 1];
    }
  }

  /** Padding digits with zeros does not change the value they denote. */
  lemma {:induction false} ZeroPadValue(s: string, width: nat)
    requires IsDigits(s)
    ensures IsDigits(PadStart(s, width, '0'))
    ensures DecimalValue(PadStart(s, width, '0')) == DecimalValue(s)
    decreases width
  {
    if |s| < width {
      var r := PadStart(s, width, '0');
      var r' := PadStart(s, width - 1, '0');
      assert r == "0" + r';
      ZeroPadValue(s, width - 1);
      LeadingZero(r');
    }
  }

  /** `toString` writes at most two digits exactly for numbers below 100. */
  lemma TwoDigitsBelowHundred(n: nat)
    ensures |DecimalDigits(n)| <= 2 <==> n < 100
  {
    if n >= 10 {
      assert DecimalDigits(n) == DecimalDigits(n / 10) + [DigitChar(n % 10)];
      if n >= 100 {
        assert DecimalDigits(n / 10) == DecimalDigits(n / 100) + [DigitChar(n / 10 % 10)];
      }
    }
  }
}
