/** Zero-padded decimal rendering of natural numbers, as used for the
    year, month, day and hour segments of a partition path, together with
    the parser that undoes it. */
module Decimal {

  predicate IsDigit(c: char) {
    '0' <= c <= '9'
  }

  predicate AllDigits(s: string) {
    forall i :: 0 <= i < |s| ==> IsDigit(s[i])
  }

  function DigitChar(d: nat): (c: char)
    requires d < 10
    ensures IsDigit(c)
  {
    (('0' as int) + d) as char
  }

  function DigitValue(c: char): (d: nat)
    requires IsDigit(c)
    ensures d < 10 && DigitChar(d) == c
  {
    (c as int) - ('0' as int)
  }

  function Pow10(k: nat): (p: nat)
    ensures p >= 1
  {
    if k == 0 then 1 else 10 * Pow10(k - 1)
  }

  /** The shortest decimal rendering of `n` (no leading zeros). */
  function Digits(n: nat): (s: string)
    ensures 1 <= |s|
    ensures AllDigits(s)
    ensures |s| > 1 ==> s[0] != '0'
  {
    if n < 10 then [DigitChar(n)] else Digits(n / 10) + [DigitChar(n % 10)]
  }

  /** Reads a string of decimal digits as a number; leading zeros are allowed. */
  function ParseDecimal(s: string): nat
    requires AllDigits(s)
  {
    if s == [] then 0 else ParseDecimal(s[..|s| - 1]) * 10 + DigitValue(s[|s| - 1])
  }

  function Zeros(k: nat): (s: string)
    ensures |s| == k
    ensures forall i :: 0 <= i < k ==> s[i] == '0'
  {
    if k == 0 then [] else ['0'] + Zeros(k - 1)
  }

  /** `n` in decimal, left-padded with zeros to at least `width` characters:
      the formatting verb `%0<width>d` on a non-negative number. */
  function ZeroPad(n: nat, width: nat): (s: string)
    ensures AllDigits(s)
    ensures |s| == if |Digits(n)| < width then width else |Digits(n)|
    ensures 1 <= width && n < Pow10(width) ==> |s| == width
    ensures ParseDecimal(s) == n
  {
    var d := Digits(n);
    var padded := Zeros(if |d| < width then width - |d| else 0) + d;
    DigitsRoundTrip(n);
    LeadingZeros(if |d| < width then width - |d| else 0, d);
    if 1 <= width && n < Pow10(width) then DigitsWidth(n, width); padded else padded
  }

  /** Parsing undoes rendering. */
  lemma {:induction false} DigitsRoundTrip(n: nat)
    ensures ParseDecimal(Digits(n)) == n
  {
    if n >= 10 {
      DigitsRoundTrip(n / 10);
      var s := Digits(n);
      assert s[..|s| - 1] == Digits(n / 10);
    }
  }

  /** Leading zeros do not change the value read. */
  lemma {:induction false} LeadingZero(s: string)
    requires AllDigits(s)
    ensures AllDigits(['0'] + s)
    ensures ParseDecimal(['0'] + s) == ParseDecimal(s)
  {
    var z := ['0'] + s;
    if s != [] {
      assert z[..|z| - 1] == ['0'] + s[..|s| - 1];
      LeadingZero(s[..|s| - 1]);
    }
  }

  lemma {:induction false} LeadingZeros(k: nat, s: string)
    requires AllDigits(s)
    ensures AllDigits(Zeros(k) + s)
    ensures ParseDecimal(Zeros(k) + s) == ParseDecimal(s)
  {
    if k > 0 {
      LeadingZeros(k - 1, s);
      LeadingZero(Zeros(k - 1) + s);
      assert Zeros(k) + s == ['0'] + (Zeros(k - 1) + s);
    } else {
      assert Zeros(k) + s == s;
    }
  }

  /** A number below 10^k needs at most k digits. */
  lemma {:induction false} DigitsWidth(n: nat, k: nat)
    requires 1 <= k && n < Pow10(k)
    ensures |Digits(n)| <= k
  {
    assert Pow10(1) == 10;
    if n >= 10 {
      assert n / 10 < Pow10(k - 1);
      DigitsWidth(n / 10, k - 1);
    }
  }
}
