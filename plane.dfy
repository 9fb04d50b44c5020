/** The complex plane as the renderers see it: `num::Complex<f64>` idealised
    to exact reals, the linear interpolation the samplers use
    (`get_relative_point`) and the affine pixel-to-point map (`pixel_to_point`). */
module Plane {
  datatype Complex = Complex(re: real, im: real)

  /** `z * z + c` in complex arithmetic (over exact reals the two cross
      terms of `z * z` add up to `2 * re * im`). */
  function SquarePlus(z: Complex, c: Complex): Complex {
    var x := z.re;
    var y := z.im;
    Complex(x * x - y * y + c.re, 2.0 * x * y + c.im)
  }

  /** `Complex::norm_sqr`: the squared modulus. */
  function NormSqr(z: Complex): real {
    z.re * z.re + z.im * z.im
  }

  /** `get_relative_point(pixel, length, (start, end))`: where `pixel` falls
      on the segment from `start` (pixel 0) to `end` (pixel `length`).
      Every caller passes a non-zero constant output size as `length`. The
      interpolation puts `start` at pixel 0 and `end` at pixel `length`. */
  function GetRelativePoint(pixel: real, length: real, span: (real, real)): (point: real)
    requires length != 0.0
    ensures pixel == 0.0 ==> point == span.0
    ensures pixel == length ==> point == span.1
  {
    assert pixel == length ==> pixel / length == 1.0;
    span.0 + (pixel / length) * (span.1 - span.0)
  }

  /** A pixel inside `[0, length]` lands inside the segment. */
  lemma GetRelativePointWithin(pixel: real, length: real, start: real, end: real)
    requires 0.0 < length && 0.0 <= pixel <= length
    ensures var x := GetRelativePoint(pixel, length, (start, end));
      (start <= end ==> start <= x <= end) && (end <= start ==> end <= x <= start)
  {
    var t := pixel / length;
    assert 0.0 <= t <= 1.0;
    assert GetRelativePoint(pixel, length, (start, end)) == start + t * (end - start);
    ProductSign(t, end - start);
    ProductSign(1.0 - t, end - start);
    assert (end - start) - t * (end - start) == (1.0 - t) * (end - start);
  }

  /** Sign facts about a product with a non-negative factor. */
  lemma ProductSign(k: real, x: real)
    requires 0.0 <= k
    ensures 0.0 <= x ==> 0.0 <= k * x
    ensures x <= 0.0 ==> k * x <= 0.0
    ensures 0.0 < k ==> (x == 0.0 <==> k * x == 0.0) && (0.0 < x <==> 0.0 < k * x) && (x < 0.0 <==> k * x < 0.0)
  {
  }

  /** The samplers interpolate `lower_right` from the `upper_left` value they
      have just updated. Compared with interpolating both from the original
      span, the second value moves by exactly `(a/L) * (e - s) * (1 - b/L)`. */
  lemma SequentialInterpolationShift(a: real, b: real, length: real, s: real, e: real)
    requires length != 0.0
    ensures var first := GetRelativePoint(a, length, (s, e));
      GetRelativePoint(b, length, (first, e)) - GetRelativePoint(b, length, (s, e))
        == (a / length) * (e - s) * (1.0 - b / length)
  {
    var t, u, d := a / length, b / length, e - s;
    var first := s + t * d;
    assert e - first == d * (1.0 - t);
    calc {
      GetRelativePoint(b, length, (first, e)) - GetRelativePoint(b, length, (s, e));
      first + u * (d * (1.0 - t)) - (s + u * d);
      t * d - u * d * t;
      t * d * (1.0 - u);
    }
  }

  /** Hence the sequential and the simultaneous readings agree only when the
      first pixel is 0, the second is `length`, or the span is a point. */
  lemma SequentialInterpolationAgreesIff(a: real, b: real, length: real, s: real, e: real)
    requires length != 0.0
    ensures GetRelativePoint(b, length, (GetRelativePoint(a, length, (s, e)), e))
              == GetRelativePoint(b, length, (s, e))
            <==> (a == 0.0 || b == length || s == e)
  {
    SequentialInterpolationShift(a, b, length, s, e);
    var t, u, d := a / length, b / length, e - s;
    assert t == 0.0 <==> a == 0.0 by {
      assert a == t * length;
    }
    assert 1.0 - u == 0.0 <==> b == length by {
      assert b == u * length;
      assert b == length ==> u == length / length == 1.0;
    }
    ZeroProduct(t, d, 1.0 - u);
  }

  /** A product of three reals vanishes exactly when one factor does. */
  lemma ZeroProduct(x: real, y: real, z: real)
    ensures x * y * z == 0.0 <==> (x == 0.0 || y == 0.0 || z == 0.0)
  {
    if x != 0.0 && y != 0.0 {
      assert x * y != 0.0;
    }
  }

  /** Dividing by a positive length keeps the sign and maps `length` to 1. */
  lemma QuotientBounds(x: real, length: real)
    requires 0.0 < length
    ensures x < length ==> x / length < 1.0
    ensures 0.0 < x ==> 0.0 < x / length
  {
    assert x == (x / length) * length;
  }

  /** When the first pixel lies left of `length` and the second right of 0,
      the second interpolation moves strictly from the first value towards
      `end`: the two sampled corners keep the orientation of the span. */
  lemma SequentialInterpolationOrdered(a: real, b: real, length: real, s: real, e: real)
    requires 0.0 < length && a < length && 0.0 < b
    ensures var first := GetRelativePoint(a, length, (s, e));
      var second := GetRelativePoint(b, length, (first, e));
      (s < e ==> first < second) && (e < s ==> second < first)
  {
    var t, u, d := a / length, b / length, e - s;
    QuotientBounds(a, length);
    QuotientBounds(b, length);
    var first := s + t * d;
    assert e - first == d * (1.0 - t);
    var k := u * (1.0 - t);
    assert 0.0 < k;
    assert GetRelativePoint(b, length, (first, e)) == first + k * d;
    ProductSign(k, d);
  }

  /** `pixel_to_point(bounds, (column, row), upper_left, lower_right)`: an
      affine map; rows grow downwards while the imaginary axis grows upwards,
      hence the subtraction in the imaginary part. Every caller passes
      positive bounds. */
  function PixelToPoint(bounds: (nat, nat), pixel: (nat, nat), upperLeft: Complex, lowerRight: Complex): Complex
    requires bounds.0 > 0 && bounds.1 > 0
  {
    var width := lowerRight.re - upperLeft.re;
    var height := upperLeft.im - lowerRight.im;
    Complex(upperLeft.re + pixel.0 as real * width / bounds.0 as real,
            upperLeft.im - pixel.1 as real * height / bounds.1 as real)
  }

  /** Pixel (0, 0) is `upper_left` and pixel (width, height), one past the
      last one, is `lower_right`. */
  lemma PixelToPointCorners(bounds: (nat, nat), upperLeft: Complex, lowerRight: Complex)
    requires bounds.0 > 0 && bounds.1 > 0
    ensures PixelToPoint(bounds, (0, 0), upperLeft, lowerRight) == upperLeft
    ensures PixelToPoint(bounds, bounds, upperLeft, lowerRight) == lowerRight
  {
    var w, h := bounds.0 as real, bounds.1 as real;
    assert w * (lowerRight.re - upperLeft.re) / w == lowerRight.re - upperLeft.re;
    assert h * (upperLeft.im - lowerRight.im) / h == upperLeft.im - lowerRight.im;
  }

  /** The real part depends on the column only and grows with it (for a
      rectangle whose upper-left corner is left of its lower-right one). */
  lemma PixelToPointColumns(bounds: (nat, nat), p: (nat, nat), q: (nat, nat), upperLeft: Complex, lowerRight: Complex)
    requires bounds.0 > 0 && bounds.1 > 0
    requires upperLeft.re < lowerRight.re
    ensures var zp := PixelToPoint(bounds, p, upperLeft, lowerRight);
      var zq := PixelToPoint(bounds, q, upperLeft, lowerRight);
      (p.0 == q.0 <==> zp.re == zq.re) && (p.0 < q.0 <==> zp.re < zq.re)
  {
    var step := (lowerRight.re - upperLeft.re) / bounds.0 as real;
    assert PixelToPoint(bounds, p, upperLeft, lowerRight).re == upperLeft.re + p.0 as real * step;
    assert PixelToPoint(bounds, q, upperLeft, lowerRight).re == upperLeft.re + q.0 as real * step;
    assert q.0 as real * step - p.0 as real * step == step * (q.0 as real - p.0 as real);
    ProductSign(step, q.0 as real - p.0 as real);
  }

  /** The imaginary part depends on the row only and shrinks as the row
      grows (for a rectangle whose upper-left corner is above its
      lower-right one). */
  lemma PixelToPointRows(bounds: (nat, nat), p: (nat, nat), q: (nat, nat), upperLeft: Complex, lowerRight: Complex)
    requires bounds.0 > 0 && bounds.1 > 0
    requires lowerRight.im < upperLeft.im
    ensures var zp := PixelToPoint(bounds, p, upperLeft, lowerRight);
      var zq := PixelToPoint(bounds, q, upperLeft, lowerRight);
      (p.1 == q.1 <==> zp.im == zq.im) && (p.1 < q.1 <==> zq.im < zp.im)
  {
    var step := (upperLeft.im - lowerRight.im) / bounds.1 as real;
    assert PixelToPoint(bounds, p, upperLeft, lowerRight).im == upperLeft.im - p.1 as real * step;
    assert PixelToPoint(bounds, q, upperLeft, lowerRight).im == upperLeft.im - q.1 as real * step;
    assert q.1 as real * step - p.1 as real * step == step * (q.1 as real - p.1 as real);
    ProductSign(step, q.1 as real - p.1 as real);
  }

  /** `create_png` renders row `i` as a band of bounds (width, 1) whose
      corners are the points of pixels (0, i) and (width, i + 1). Over exact
      reals, column `c` of that band is the point of pixel (c, i) of the
      whole raster. */
  lemma BandPointMatches(bounds: (nat, nat), row: nat, column: nat, upperLeft: Complex, lowerRight: Complex)
    requires bounds.0 > 0 && bounds.1 > 0
    ensures var bandUpperLeft := PixelToPoint(bounds, (0, row), upperLeft, lowerRight);
      var bandLowerRight := PixelToPoint(bounds, (bounds.0, row + 1), upperLeft, lowerRight);
      PixelToPoint((bounds.0, 1), (column, 0), bandUpperLeft, bandLowerRight)
        == PixelToPoint(bounds, (column, row), upperLeft, lowerRight)
  {
    var w := bounds.0 as real;
    var width := lowerRight.re - upperLeft.re;
    var bandUpperLeft := PixelToPoint(bounds, (0, row), upperLeft, lowerRight);
    var bandLowerRight := PixelToPoint(bounds, (bounds.0, row + 1), upperLeft, lowerRight);
    assert bandUpperLeft.re == upperLeft.re;
    assert bandLowerRight.re - bandUpperLeft.re == width by {
      assert w * width / w == width;
    }
    var z := PixelToPoint((bounds.0, 1), (column, 0), bandUpperLeft, bandLowerRight);
    assert z.im == bandUpperLeft.im;
    assert z.re == upperLeft.re + column as real * width / w;
  }
}
