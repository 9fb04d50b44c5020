/** src/lib/mandelbrot.rs: the first version of the service, with its own
    four-field descriptor, a blue colour rule and a raster sized by the
    descriptor's `bounds`, while the PNG header is declared 600x600 whatever
    those bounds are. The PNG encoder is not part of this model: the result
    is what is handed to it. */
module Prototype {
  import opened Wrappers
  import opened Pixels
  import opened Plane
  import opened Escape
  import opened Zoom
  import opened Sampler
  import opened Raster

  const OutputWidth: nat := 600
  const OutputHeight: nat := 600

  /** The prototype's `ImageParams`. */
  datatype ImageParams = ImageParams(bounds: (nat, nat), upperLeft: Complex, lowerRight: Complex, zoomFactor: real)

  /** `new_from_rand`, with its random draws as parameters: the exponent from
      `1..10`, the mantissa from `1.0..9.0` and the jitters from
      `-20.0..50.0` and `-30.0..50.0`, all half-open. Each `lower_right`
      component is interpolated from the `upper_left` one just updated. */
  method NewFromRand(bounds: (nat, nat), exp: nat, mantissa: real, jitterX: real, jitterY: real)
    returns (p: ImageParams)
    requires 1 <= exp < 10 && 1.0 <= mantissa < 9.0
    requires -20.0 <= jitterX < 50.0 && -30.0 <= jitterY < 50.0
    ensures p.bounds == bounds
    ensures p.zoomFactor == ZoomFactor(exp, mantissa)
    ensures 1.0 / Pow10(9) <= p.zoomFactor <= 0.9
    ensures ZoomedAxis(600.0, 300.0 + jitterX, 600.0 * p.zoomFactor, -1.2, -1.0, p.upperLeft.re, p.lowerRight.re)
    ensures ZoomedAxis(600.0, 300.0 + jitterY, 600.0 * p.zoomFactor, 0.35, 0.2, p.upperLeft.im, p.lowerRight.im)
    ensures p.upperLeft.re < p.lowerRight.re && p.lowerRight.im < p.upperLeft.im
  {
    var zoomFactor := ZoomFactor(exp, mantissa);
    ZoomFactorRange(exp, 9, mantissa);
    var upperLeft, lowerRight := SampleViewport(OutputWidth as real, (Complex(-1.2, 0.35), Complex(-1.0, 0.2)),
                                                zoomFactor, jitterX, jitterY);
    p := ImageParams(bounds, upperLeft, lowerRight, zoomFactor);
  }

  /** The colour of points that did not escape. */
  const White: Rgb := Rgb(255, 255, 255)

  /** The prototype's colour rule: white inside, otherwise a blue that
      darkens as the escape count `n` grows. `255 - n as u8` cannot wrap:
      blue and count add up to 255. */
  function Colour(count: Option<Count>): (colour: Rgb)
    ensures count.None? ==> colour == White
    ensures count.Some? ==> colour.r == 2 && colour.g == 3 && colour.b as int + count.value as int == 255
  {
    match count
    case None => White
    case Some(n) => Rgb(2, 3, 255 - n)
  }

  /** What a pixel of the prototype raster shows, in terms of the escape
      time of its point: white when the orbit stays bounded for 255 steps,
      otherwise a blue within [1, 254] that is 255 minus the escape count. */
  lemma PixelColour(p: ImageParams, column: nat, row: nat)
    requires column < p.bounds.0 && row < p.bounds.1
    ensures row * p.bounds.0 + column < p.bounds.0 * p.bounds.1
    ensures var c := PixelToPoint(p.bounds, (column, row), p.upperLeft, p.lowerRight);
      var colour := RenderedImage(p.bounds, p.upperLeft, p.lowerRight, Colour)[row * p.bounds.0 + column];
      var t := EscapeTimeOf(c, Limit);
      (t.None? ==> colour == White) &&
      (t.Some? ==>
         colour.r == 2 && colour.g == 3 && 1 <= colour.b <= 254 && colour.b as int == 255 - t.value)
  {
    var c := PixelToPoint(p.bounds, (column, row), p.upperLeft, p.lowerRight);
    RenderedImageAt(p.bounds, p.upperLeft, p.lowerRight, Colour, row, column);
    EscapeCountFitsByte(c);
  }

  /** What `create_png` hands to the PNG encoder: the flattened bytes and the
      width and height it declares for them. */
  datatype EncoderInput = EncoderInput(bytes: seq<byte>, width: nat, height: nat)

  /** `create_png` up to the encoder: a buffer of `bounds.0 * bounds.1`
      pixels from the descriptor, rendered band by band (`chunks_mut` needs
      a non-zero width), flattened, and declared 600x600. The declared size
      fits the bytes exactly when the raster has 360000 pixels. */
  method CreatePng(p: ImageParams) returns (r: EncoderInput)
    requires p.bounds.0 > 0
    ensures r.bytes == Flatten(RenderedImage(p.bounds, p.upperLeft, p.lowerRight, Colour))
    ensures r.width == 600 && r.height == 600
    ensures |r.bytes| == 3 * r.width * r.height <==> p.bounds.0 * p.bounds.1 == 360000
  {
    var pixels := new Rgb[p.bounds.0 * p.bounds.1](_ => Rgb(0, 0, 0));
    RenderBands(pixels, p.bounds, p.upperLeft, p.lowerRight, Colour);
    r := EncoderInput(Flatten(pixels[..]), OutputWidth, OutputHeight);
  }
}
