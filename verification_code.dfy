/**
 * The verification code of the sign-up handler (src/app/api/sign-up/route.ts:30):
 * the integer 100000 + draw, for a uniform draw in [0, 900000), rendered as its
 * decimal string. The floating-point draw is replaced by its integer part.
 */
module VerificationCode {

  const CodeBase: nat := 100000
  const CodeSpan: nat := 900000

  predicate IsDigits(s: string) {
    forall i :: 0 <= i < |s| ==> '0' <= s[i] <= '9'
  }

  function DigitChar(d: nat): (c: char)
    requires d < 10
    ensures '0' <= c <= '9' && c as int - '0' as int == d
  {
    ('0' as int + d) as char
  }

  function DigitValue(c: char): (d: nat)
    requires '0' <= c <= '9'
    ensures d < 10 && DigitChar(d) == c
  {
    c as int - '0' as int
  }

  function Pow10(k: nat): nat {
    if k == 0 then 1 else 10 * Pow10(k - 1)
  }

  /** The decimal rendering of a natural number, without leading zeros. */
  function DecimalString(n: nat): (s: string)
    ensures |s| >= 1 && IsDigits(s)
    ensures n > 0 ==> s[0] != '0'
  {
    if n < 10 then [DigitChar(n)] else DecimalString(n / 10) + [DigitChar(n % 10)]
  }

  /** The value of a string of decimal digits, most significant first. */
  function ParseDecimal(s: string): (n: nat)
    requires IsDigits(s)
  {
    if s == [] then 0 else 10 * ParseDecimal(s[..|s| - 1]) + DigitValue(s[|s| - 1])
  }

  /** Reading the decimal rendering back gives the number. */
  lemma {:induction false} ParseDecimalString(n: nat)
    ensures ParseDecimal(DecimalString(n)) == n
  {
    var s := DecimalString(n);
    if n >= 10 {
      assert s[..|s| - 1] == DecimalString(n / 10);
      ParseDecimalString(n / 10);
    }
  }

  /** A number between 10^k and 10^(k+1) has exactly k + 1 decimal digits. */
  lemma {:induction false} DecimalLength(n: nat, k: nat)
    requires Pow10(k) <= n < Pow10(k + 1)
    ensures |DecimalString(n)| == k + 1
  {
    if k > 0 {
      assert Pow10(k) == 10 * Pow10(k - 1);
      assert Pow10(k + 1) == 10 * Pow10(k);
      DecimalLength(n / 10, k - 1);
    }
  }

  /**
   * The code stored and mailed for a draw: exactly six decimal digits whose value is
   * 100000 + draw, hence between 100000 and 999999.
   */
  function Code(draw: nat): (code: string)
    requires draw < CodeSpan
    ensures |code| == 6 && IsDigits(code)
    ensures ParseDecimal(code) == CodeBase + draw
    ensures CodeBase <= ParseDecimal(code) <= CodeBase + CodeSpan - 1
  {
    assert Pow10(5) == CodeBase && Pow10(6) == CodeBase + CodeSpan;
    DecimalLength(CodeBase + draw, 5);
    ParseDecimalString(CodeBase + draw);
    DecimalString(CodeBase + draw)
  }
}
