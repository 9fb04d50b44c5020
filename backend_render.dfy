/** backend_rust/src/lib/mandelbrot.rs: the renderer of the 600x600
    descriptor. Its colour rule reduces the descriptor's colour constants
    modulo the escape count; `create_png` renders the bands, rewraps the
    flattened bytes as an `RgbImage` and applies the transforms. The PNG
    encoder is not part of this model: the result is the byte buffer that
    would be handed to it. */
module BackendRender {
  import opened Wrappers
  import opened Pixels
  import opened Plane
  import opened Escape
  import opened TransformFlags
  import opened Transforms
  import opened Descriptor
  import opened BackendImageParams
  import opened Raster

  /** The colour of points that did not escape. */
  const Inside: Rgb := Rgb(10, 10, 25)

  const FromRawFailed: string := "Failed to convert pixel array to ImageBuffer (wrong size, somehow)."

  /** `render`'s colour rule: the colour constants modulo the escape count
      `n`, channel by channel. Since `n` is never 0 each channel is the
      remainder of its constant: below `n` and congruent to it. */
  function Colour(rgb: (byte, byte, byte), count: Option<Count>): (colour: Rgb)
    ensures count.None? ==> colour == Inside
    ensures count.Some? ==>
      var n := count.value as int;
      IsRemainder(rgb.0 as int, n, colour.r as int) &&
      IsRemainder(rgb.1 as int, n, colour.g as int) &&
      IsRemainder(rgb.2 as int, n, colour.b as int)
  {
    match count
    case None => Inside
    case Some(n) =>
      RemainderIs(rgb.0 as int, n as int);
      RemainderIs(rgb.1 as int, n as int);
      RemainderIs(rgb.2 as int, n as int);
      Rgb(rgb.0 % n, rgb.1 % n, rgb.2 % n)
  }

  /** `r` is what is left of `a` after taking out whole multiples of `n`. */
  predicate IsRemainder(a: int, n: int, r: int) {
    0 <= r < n && r <= a && (a - r) % n == 0
  }

  /** Euclidean division has one quotient and one remainder. */
  lemma DivModUnique(x: int, w: int, q: int, r: int)
    requires w > 0 && 0 <= r < w && x == q * w + r
    ensures x / w == q && x % w == r
  {
    var q', r' := x / w, x % w;
    assert x == q' * w + r' && 0 <= r' < w;
    assert (q - q') * w == r' - r;
    MultipleBound(q - q', w);
  }

  /** The remainder of a non-negative number by a positive one. */
  lemma RemainderIs(a: nat, n: nat)
    requires n > 0
    ensures IsRemainder(a, n, a % n)
  {
    var q := a / n;
    assert a - a % n == q * n;
    DivModUnique(q * n, n, q, 0);
    MultipleBound(q, n);
  }

  /** The colour rule as the palette `render` applies to every count. */
  function Palette(rgb: (byte, byte, byte)): Option<Count> -> Rgb {
    count => Colour(rgb, count)
  }

  /** What a pixel of the backend raster shows, in terms of the escape time
      of its point: the "inside" colour when the orbit stays bounded for 255
      steps, otherwise channels below the escape count (itself within
      [1, 254]) and congruent to the colour constants. */
  lemma PixelColour(p: ImageParams, column: nat, row: nat)
    requires column < OutputWidth && row < OutputHeight
    ensures var c := PixelToPoint(GetBounds(p), (column, row), p.upperLeft, p.lowerRight);
      var colour := RenderedImage(GetBounds(p), p.upperLeft, p.lowerRight, Palette(p.rgbConsts))[row * OutputWidth + column];
      var t := EscapeTimeOf(c, Limit);
      (t.None? ==> colour == Inside) &&
      (t.Some? ==>
         1 <= t.value <= 254 &&
         IsRemainder(p.rgbConsts.0 as int, t.value, colour.r as int) &&
         IsRemainder(p.rgbConsts.1 as int, t.value, colour.g as int) &&
         IsRemainder(p.rgbConsts.2 as int, t.value, colour.b as int))
  {
    var c := PixelToPoint(GetBounds(p), (column, row), p.upperLeft, p.lowerRight);
    RenderedImageAt(GetBounds(p), p.upperLeft, p.lowerRight, Palette(p.rgbConsts), row, column);
    EscapeCountFitsByte(c);
  }

  /** `RgbImage::from_raw(width, height, buffer)`: the image crate accepts a
      buffer that holds at least `width * height` pixels and reads them three
      bytes at a time. */
  function FromRaw(width: nat, height: nat, flat: seq<byte>): (image: Option<seq<Rgb>>)
    ensures image.Some? <==> 3 * (width * height) <= |flat|
    ensures image.Some? ==> |image.value| == width * height && Flatten(image.value) == flat[..3 * (width * height)]
  {
    if |flat| < 3 * (width * height) then None
    else Some(Unflatten(flat[..3 * (width * height)]))
  }

  /** `create_png` up to the encoder, as written: `apply_image_transforms_in_place`
      drops the hue-rotated buffer, so the bytes handed to the encoder carry
      the half turn and the inversion the flags select but never the hue
      rotation. */
  method CreatePngAsWritten(p: ImageParams, hue: Rgb -> Rgb) returns (r: Result<seq<byte>, string>)
    ensures r == Ok(Flatten(Transformed(p.transformFlags - {HueRot90},
      RenderedImage(GetBounds(p), p.upperLeft, p.lowerRight, Palette(p.rgbConsts)), hue)))
  {
    var bounds := GetBounds(p);
    var pixels := new Rgb[bounds.0 * bounds.1](_ => Rgb(0, 0, 0));
    RenderBands(pixels, bounds, p.upperLeft, p.lowerRight, Palette(p.rgbConsts));
    var flat := Flatten(pixels[..]);
    var raw := FromRaw(bounds.0, bounds.1, flat);
    if raw.None? {
      return Err(FromRawFailed);
    }
    UnflattenFlatten(pixels[..]);
    var image := new Rgb[|raw.value|](k requires 0 <= k < |raw.value| => raw.value[k]);
    assert image[..] == pixels[..];
    ApplyImageTransformsAsWritten(p.transformFlags, image, hue);
    r := Ok(Flatten(image[..]));
  }

  /** `create_png` up to the encoder, with the hue rotation kept: the buffer is sized by `get_bounds`
      (600x600) and never by the descriptor's own `bounds`, every pixel is
      rendered band by band, the size check of `from_raw` passes, and the
      bytes handed to the encoder are the row-major rendering with the
      descriptor's transforms applied (ROT180, then HUEROT90 with the hue map
      `hue`, then INVERT). */
  method CreatePng(p: ImageParams, hue: Rgb -> Rgb) returns (r: Result<seq<byte>, string>)
    ensures r == Ok(Flatten(Transformed(p.transformFlags,
      RenderedImage(GetBounds(p), p.upperLeft, p.lowerRight, Palette(p.rgbConsts)), hue)))
  {
    var bounds := GetBounds(p);
    var pixels := new Rgb[bounds.0 * bounds.1](_ => Rgb(0, 0, 0));
    RenderBands(pixels, bounds, p.upperLeft, p.lowerRight, Palette(p.rgbConsts));
    var flat := Flatten(pixels[..]);
    var raw := FromRaw(bounds.0, bounds.1, flat);
    if raw.None? {
      return Err(FromRawFailed);
    }
    UnflattenFlatten(pixels[..]);
    var image := new Rgb[|raw.value|](k requires 0 <= k < |raw.value| => raw.value[k]);
    assert image[..] == pixels[..];
    ApplyImageTransformsInPlace(p.transformFlags, image, hue);
    r := Ok(Flatten(image[..]));
  }
}
