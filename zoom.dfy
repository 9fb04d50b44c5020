/** The zoom draw shared by every sampler:
    `zoom_factor = 1.0 / 10.0_f64.powi(exp) * mantissa`. */
module Zoom {
  /** `10.0_f64.powi(e)` over exact reals. */
  function Pow10(e: nat): (r: real)
    ensures r >= 1.0
    ensures e >= 1 ==> r >= 10.0
  {
    if e == 0 then 1.0 else 10.0 * Pow10(e - 1)
  }

  lemma {:induction false} Pow10Monotone(a: nat, b: nat)
    requires a <= b
    ensures Pow10(a) <= Pow10(b)
    decreases b - a
  {
    if a < b {
      Pow10Monotone(a, b - 1);
    }
  }

  /** The samplers' `1.0 / 10.0_f64.powi(exp) * mantissa`, divided first
      and then scaled, as written. */
  function ZoomFactor(exp: nat, mantissa: real): real {
    var scale := 1.0 / Pow10(exp);
    scale * mantissa
  }

  /** With the exponent at least 1 and at most `maxExp`, and the mantissa in
      [1.0, 9.0], the zoom factor lies in [10^-maxExp, 0.9]. */
  lemma ZoomFactorRange(exp: nat, maxExp: nat, mantissa: real)
    requires 1 <= exp <= maxExp && 1.0 <= mantissa <= 9.0
    ensures 1.0 / Pow10(maxExp) <= ZoomFactor(exp, mantissa) <= 0.9
  {
    Pow10Monotone(exp, maxExp);
    ScaledMantissa(Pow10(exp), Pow10(maxExp), mantissa);
  }

  /** For 10 <= p <= q and m in [1, 9]: 1/q <= (1/p) * m <= 0.9. */
  lemma ScaledMantissa(p: real, q: real, m: real)
    requires 10.0 <= p <= q && 1.0 <= m <= 9.0
    ensures 1.0 / q <= 1.0 / p * m <= 0.9
  {
    var inv := 1.0 / p;
    assert 0.0 < 1.0 / q <= inv <= 0.1;
    assert inv <= inv * m;
    assert inv * m <= inv * 9.0;
  }
}
