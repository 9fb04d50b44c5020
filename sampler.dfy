/** The viewport step shared by every `new_from_rand`: zoom into the start
    rectangle around a jittered centre pixel. The four interpolations are
    ordered statements, and the `lower_right` ones read the `upper_left`
    component that has just been overwritten. */
module Sampler {
  import opened Plane

  /** `side` is the output width and height (`OUTPUT_WIDTH`, `OUTPUT_HEIGHT`),
      `start` the start rectangle, `zoomFactor` the drawn zoom and
      `jitterX`, `jitterY` the offsets of the centre pixel from the middle
      of the raster. `offset_left` and `offset_top` are the constant 0.0 and
      drop out. */
  method SampleViewport(side: real, start: (Complex, Complex), zoomFactor: real, jitterX: real, jitterY: real)
    returns (upperLeft: Complex, lowerRight: Complex)
    requires 0.0 < side && 0.0 <= zoomFactor
    requires -side / 2.0 < jitterX < side / 2.0 && -side / 2.0 < jitterY < side / 2.0
    ensures ZoomedAxis(side, side / 2.0 + jitterX, side * zoomFactor, start.0.re, start.1.re, upperLeft.re, lowerRight.re)
    ensures ZoomedAxis(side, side / 2.0 + jitterY, side * zoomFactor, start.0.im, start.1.im, upperLeft.im, lowerRight.im)
    ensures start.0.re < start.1.re ==> upperLeft.re < lowerRight.re
    ensures start.1.re < start.0.re ==> lowerRight.re < upperLeft.re
    ensures start.1.im < start.0.im ==> lowerRight.im < upperLeft.im
    ensures start.0.im < start.1.im ==> upperLeft.im < lowerRight.im
  {
    upperLeft, lowerRight := start.0, start.1;
    NonNegativeProduct(side, zoomFactor);

    var re0, re1 := ZoomSpan(side, side / 2.0 + jitterX, side * zoomFactor, upperLeft.re, lowerRight.re);
    upperLeft, lowerRight := upperLeft.(re := re0), lowerRight.(re := re1);
    var im0, im1 := ZoomSpan(side, side / 2.0 + jitterY, side * zoomFactor, upperLeft.im, lowerRight.im);
    upperLeft, lowerRight := upperLeft.(im := im0), lowerRight.(im := im1);
  }

  /** The two interpolations of one axis, in the order the samplers run
      them: `near` from the span `(s, e)`, then `far` from `(near, e)`. */
  predicate ZoomedAxis(side: real, middle: real, half: real, s: real, e: real, near: real, far: real)
    requires side != 0.0
  {
    near == GetRelativePoint(middle - half, side, (s, e)) &&
    far == GetRelativePoint(middle + half, side, (near, e))
  }

  /** One axis of the zoom: the near edge is interpolated from the span
      `(s, e)`, then the far edge from the span `(near, e)`, which starts at
      the value just computed. A centre strictly inside the raster keeps the
      orientation of the span. */
  method ZoomSpan(side: real, middle: real, half: real, s: real, e: real) returns (near: real, far: real)
    requires 0.0 < middle < side && 0.0 <= half
    ensures ZoomedAxis(side, middle, half, s, e, near, far)
    ensures s < e ==> near < far
    ensures e < s ==> far < near
    ensures s == e ==> near == far == s
  {
    SequentialInterpolationOrdered(middle - half, middle + half, side, s, e);
    near := GetRelativePoint(middle - half, side, (s, e));
    far := GetRelativePoint(middle + half, side, (near, e));
  }

  lemma NonNegativeProduct(a: real, b: real)
    requires 0.0 <= a && 0.0 <= b
    ensures 0.0 <= a * b
  {
  }
}
