/** backend_rust/src/lib/imageparams.rs: the older 600x600 descriptor
    sampler. It differs from the core one in its output size, its fixed start
    rectangle and its half-open draw ranges. */
module BackendImageParams {
  import opened Pixels
  import opened Plane
  import opened TransformFlags
  import opened Zoom
  import opened Sampler
  import opened Descriptor

  const OutputWidth: nat := 600
  const OutputHeight: nat := 600

  /** `get_bounds`: the raster size is pinned, whatever `bounds` holds. */
  function GetBounds(p: ImageParams): (nat, nat) {
    (OutputWidth, OutputHeight)
  }

  /** The stored `bounds` field has no say in the raster size. */
  lemma GetBoundsIgnoresField(p: ImageParams, bounds: (nat, nat))
    ensures GetBounds(p.(bounds := bounds)) == GetBounds(p) == (600, 600)
  {
  }

  /** The fixed start rectangle. */
  const StartRectangle: (Complex, Complex) := (Complex(-1.2, 0.35), Complex(-1.0, 0.2))

  /** `new_from_rand`, with its random draws as parameters. Every range is
      half-open here: the exponent from `1..10`, the mantissa from
      `1.0..9.0`, the jitters from `-20.0..50.0` and `-30.0..50.0`, and the
      colour bytes from `0..255`, so no colour constant is 255. */
  method NewFromRand(bounds: (nat, nat), exp: nat, mantissa: real, jitterX: real, jitterY: real,
                     rgbConsts: (byte, byte, byte), coins: seq<bool>)
    returns (p: ImageParams)
    requires 1 <= exp < 10 && 1.0 <= mantissa < 9.0
    requires -20.0 <= jitterX < 50.0 && -30.0 <= jitterY < 50.0
    requires rgbConsts.0 < 255 && rgbConsts.1 < 255 && rgbConsts.2 < 255
    requires |coins| == |EnabledRandTransforms()|
    ensures p.bounds == bounds
    ensures p.zoomFactor == ZoomFactor(exp, mantissa)
    ensures 1.0 / Pow10(9) <= p.zoomFactor <= 0.9
    ensures ZoomedAxis(600.0, 300.0 + jitterX, 600.0 * p.zoomFactor, -1.2, -1.0, p.upperLeft.re, p.lowerRight.re)
    ensures ZoomedAxis(600.0, 300.0 + jitterY, 600.0 * p.zoomFactor, 0.35, 0.2, p.upperLeft.im, p.lowerRight.im)
    ensures p.upperLeft.re < p.lowerRight.re && p.lowerRight.im < p.upperLeft.im
    ensures p.rgbConsts == rgbConsts
    ensures p.rgbConsts.0 <= 254 && p.rgbConsts.1 <= 254 && p.rgbConsts.2 <= 254
    ensures p.transformFlags <= {Rot180, HueRot90} && Invert !in p.transformFlags
    ensures Rot180 in p.transformFlags <==> coins[0]
    ensures HueRot90 in p.transformFlags <==> coins[1]
  {
    var zoomFactor := ZoomFactor(exp, mantissa);
    ZoomFactorRange(exp, 9, mantissa);
    var upperLeft, lowerRight := SampleViewport(OutputWidth as real, StartRectangle, zoomFactor, jitterX, jitterY);
    var flags := FoldRandTransforms(coins);
    p := ImageParams(bounds, upperLeft, lowerRight, zoomFactor, rgbConsts, flags);
  }
}
