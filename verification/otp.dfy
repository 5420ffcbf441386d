/** The one-time code generator of utils/email.ts. `Math.random()` is
    replaced by the integer `draw = floor(Math.random() * 900000)`. */
module Otp {
  import opened Text

  const OtpLow: nat := 100000
  const OtpSpan: nat := 900000
  /** Codes expire ten minutes after they are issued. */
  const OtpLifetimeMs: nat := 10 * 60 * 1000

  /** The shape of every generated code: six decimal digits, the first not zero. */
  predicate IsOtpShaped(code: string) {
    |code| == 6 && AllDigits(code) && code[0] != '0'
  }

  /** `Math.floor(100000 + Math.random() * 900000).toString()`. */
  function GenerateOtp(draw: int): (code: string)
    requires 0 <= draw < OtpSpan
    ensures IsOtpShaped(code)
    ensures DecimalValue(code) == OtpLow + draw
  {
    var n := OtpLow + draw;
    assert Pow10(5) == 100000 by {
      assert Pow10(2) == 100;
      assert Pow10(4) == 10000;
    }
    assert Pow10(6) == 1000000;
    DecimalLength(n, 6);
    Decimal(n)
  }

  /** Distinct draws give distinct codes. */
  lemma GenerateOtpInjective(d1: int, d2: int)
    requires 0 <= d1 < OtpSpan && 0 <= d2 < OtpSpan
    requires GenerateOtp(d1) == GenerateOtp(d2)
    ensures d1 == d2
  {
  }

  /** The generator reaches every six-digit code without a leading zero, so
      its range is exactly the codes in [100000, 999999]; "000123" and the
      other codes with a leading zero are never produced. */
  lemma {:induction false} GenerateOtpCoversShape(code: string)
    requires IsOtpShaped(code)
    ensures 0 <= DecimalValue(code) - OtpLow < OtpSpan
    ensures GenerateOtp(DecimalValue(code) - OtpLow) == code
  {
    DecimalValueLowerBound(code);
    DecimalOfValue(code);
  }
}
