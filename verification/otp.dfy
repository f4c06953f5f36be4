/** The one-time code of the password-reset flow: a draw from the random
    source turned into a decimal string. The source's comment calls it a
    4-digit code; the arithmetic yields 5 digits. */
module Otp {

  predicate IsDigit(c: char) {
    '0' <= c <= '9'
  }

  predicate AllDigits(s: string) {
    forall i :: 0 <= i < |s| ==> IsDigit(s[i])
  }

  function DigitChar(d: nat): (c: char)
    requires d < 10
    ensures IsDigit(c)
  {
    ('0' as int + d) as char
  }

  function DigitValue(c: char): (d: nat)
    requires IsDigit(c)
    ensures d < 10
  {
    c as int - '0' as int
  }

  function Pow10(k: nat): (p: nat)
    ensures p >= 1
  {
    if k == 0 then 1 else 10 * Pow10(k - 1)
  }

  /** `Number.prototype.toString()` on a non-negative integer: decimal
      digits, most significant first, no leading zero. */
  function Decimal(n: nat): (s: string)
    ensures |s| >= 1 && AllDigits(s)
  {
    if n < 10 then [DigitChar(n)] else Decimal(n / 10) + [DigitChar(n % 10)]
  }

  /** Reads a digit string back as a number (the inverse of `Decimal`). */
  function ParseDecimal(s: string): nat
    requires AllDigits(s)
  {
    if |s| == 0 then 0
    else ParseDecimal(s[..|s| - 1]) * 10 + DigitValue(s[|s| - 1])
  }

  lemma {:induction false} ParseDecimalOfDecimal(n: nat)
    ensures ParseDecimal(Decimal(n)) == n
  {
    var s := Decimal(n);
    if n >= 10 {
      ParseDecimalOfDecimal(n / 10);
      assert s[..|s| - 1] == Decimal(n / 10);
    }
  }

  /** A number in [10^k, 10^(k+1)) has exactly k+1 decimal digits. */
  lemma {:induction false} DecimalLength(n: nat, k: nat)
    requires Pow10(k) <= n < Pow10(k + 1)
    ensures |Decimal(n)| == k + 1
  {
    if k > 0 {
      DecimalLength(n / 10, k - 1);
    }
  }

  /** Smallest and largest code, and the number of distinct draws. */
  const MinCode := 10000
  const MaxCode := 99999
  const Draws := 90000

  /** `Math.floor(10000 + Math.random() * 90000).toString()`, with the
      floating-point draw replaced by `r = floor(Math.random() * 90000)`. */
  function GenerateOtp(r: nat): (otp: string)
    requires r < Draws
    ensures |otp| == 5 && AllDigits(otp)
    ensures MinCode <= ParseDecimal(otp) <= MaxCode
    ensures ParseDecimal(otp) == MinCode + r
  {
    var code := MinCode + r;
    DecimalLength(code, 4);
    ParseDecimalOfDecimal(code);
    Decimal(code)
  }

  /** Distinct draws give distinct codes. */
  lemma GenerateOtpInjective(r1: nat, r2: nat)
    requires r1 < Draws && r2 < Draws
    ensures GenerateOtp(r1) == GenerateOtp(r2) <==> r1 == r2
  {
  }
}
