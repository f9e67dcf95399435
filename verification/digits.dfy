/**
 * Decimal digit strings: the zero-padded rendering used by the `%Y`, `%m`,
 * `%d` directives of `strftime` and by the `{:02d}` format specifier, and the
 * parsing that reads such a string back.
 */
module Digits {

  predicate IsDigit(c: char) {
    '0' <= c <= '9'
  }

  predicate AllDigits(s: string) {
    forall i :: 0 <= i < |s| ==> IsDigit(s[i])
  }

  function Pow10(n: nat): (p: nat)
    ensures p >= 1
  {
    if n == 0 then 1 else 10 * Pow10(n - 1)
  }

  function DigitChar(d: nat): (c: char)
    requires d < 10
    ensures IsDigit(c) && c as int - '0' as int == d
  {
    ('0' as int + d) as char
  }

  function DigitValue(c: char): (d: nat)
    requires IsDigit(c)
    ensures d < 10 && DigitChar(d) == c
  {
    c as int - '0' as int
  }

  /** `n` written in decimal on exactly `width` digits, padded with leading zeros. */
  function ZeroPad(n: nat, width: nat): (s: string)
    requires n < Pow10(width)
    ensures |s| == width && AllDigits(s)
    decreases width
  {
    if width == 0 then "" else ZeroPad(n / 10, width - 1) + [DigitChar(n % 10)]
  }

  /** The number a string of decimal digits denotes (most significant first). */
  function ParseDecimal(s: string): (v: nat)
    requires AllDigits(s)
    ensures v < Pow10(|s|)
  {
    if s == [] then 0 else 10 * ParseDecimal(s[..|s| - 1]) + DigitValue(s[|s| - 1])
  }

  /** Reading a zero-padded rendering back gives the number that was rendered. */
  lemma {:induction false} ParseZeroPad(n: nat, width: nat)
    requires n < Pow10(width)
    ensures ParseDecimal(ZeroPad(n, width)) == n
    decreases width
  {
    if width > 0 {
      var s := ZeroPad(n, width);
      assert s[..|s| - 1] == ZeroPad(n / 10, width - 1);
      ParseZeroPad(n / 10, width - 1);
    }
  }

  /** Rendering the value of a digit string on its own width gives the string back. */
  lemma {:induction false} ZeroPadParse(s: string)
    requires AllDigits(s)
    ensures ZeroPad(ParseDecimal(s), |s|) == s
  {
    if s != [] {
      var init, last := s[..|s| - 1], s[|s| - 1];
      ZeroPadParse(init);
      var v, p, d := ParseDecimal(s), ParseDecimal(init), DigitValue(last);
      assert v == 10 * p + d && d < 10;
      assert v / 10 == p && v % 10 == d;
      calc {
        ZeroPad(v, |s|);
        ZeroPad(p, |init|) + [DigitChar(d)];
        init + [last];
        s;
      }
    }
  }
}
