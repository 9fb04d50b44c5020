/** `apply_image_transforms_in_place`: the whole-image transforms selected
    by the descriptor's flags, applied in the fixed order ROT180, HUEROT90,
    INVERT to the row-major pixels of the rendered image. */
module Transforms {
  import opened Pixels
  import opened TransformFlags

  /** `imageops::rotate180_in_place` on a row-major buffer: pixel k moves to
      position len - 1 - k. */
  function Reversed(s: seq<Rgb>): seq<Rgb> {
    seq(|s|, i requires 0 <= i < |s| => s[|s| - 1 - i])
  }

  /** A per-pixel colour map over the whole image. */
  function MapPixels(f: Rgb -> Rgb, s: seq<Rgb>): seq<Rgb> {
    seq(|s|, i requires 0 <= i < |s| => f(s[i]))
  }

  /** `Invert` for `Rgb<u8>`: every channel c becomes 255 - c. */
  function Inverted(p: Rgb): Rgb {
    Rgb(255 - p.r, 255 - p.g, 255 - p.b)
  }

  /** The image after the transforms the flags select, ROT180 first, then
      the hue rotation `hue` (the image crate's `huerotate(_, 90)`, a
      per-pixel colour map), then INVERT; each at most once. */
  function Transformed(flags: set<Flag>, s: seq<Rgb>, hue: Rgb -> Rgb): (image: seq<Rgb>)
    ensures |image| == |s|
  {
    var rotated := if Rot180 in flags then Reversed(s) else s;
    var hueRotated := if HueRot90 in flags then MapPixels(hue, rotated) else rotated;
    if Invert in flags then MapPixels(Inverted, hueRotated) else hueRotated
  }

  /** Rotating by 180 degrees twice restores the image. */
  lemma ReversedTwice(s: seq<Rgb>)
    ensures |Reversed(s)| == |s| && Reversed(Reversed(s)) == s
  {
    assert forall i :: 0 <= i < |s| ==> Reversed(Reversed(s))[i] == s[i];
  }

  /** On a width x height image stored row by row, reversing the buffer is
      the half turn: pixel (x, y) lands at (width-1-x, height-1-y). */
  lemma ReversedIsHalfTurn(s: seq<Rgb>, width: nat, height: nat, x: nat, y: nat)
    requires |s| == width * height && x < width && y < height
    ensures (height - 1 - y) * width + (width - 1 - x) < |s|
    ensures Reversed(s)[(height - 1 - y) * width + (width - 1 - x)] == s[y * width + x]
  {
    HalfTurnIndex(width, height, x, y);
    var k := (height - 1 - y) * width + (width - 1 - x);
    assert Reversed(s)[k] == s[|s| - 1 - k];
  }

  /** The index arithmetic of the half turn: the two positions are mirror
      images in a buffer of width * height pixels. */
  lemma HalfTurnIndex(width: nat, height: nat, x: nat, y: nat)
    requires x < width && y < height
    ensures y * width + x < width * height
    ensures (height - 1 - y) * width + (width - 1 - x) == width * height - 1 - (y * width + x)
  {
    var m := height - 1 - y;
    assert (m + y + 1) * width == m * width + y * width + width;
    assert y * width + x < (y + 1) * width <= height * width by {
      assert (y + 1) * width == y * width + width;
      assert (height - (y + 1)) * width >= 0;
      assert height * width == (y + 1) * width + (height - (y + 1)) * width;
    }
  }

  /** Inverting twice restores the image. */
  lemma InvertedTwice(s: seq<Rgb>)
    ensures MapPixels(Inverted, MapPixels(Inverted, s)) == s
  {
    forall i | 0 <= i < |s|
      ensures MapPixels(Inverted, MapPixels(Inverted, s))[i] == s[i]
    {
      var once := MapPixels(Inverted, s);
      assert once[i] == Inverted(s[i]);
      assert Inverted(Inverted(s[i])) == s[i];
    }
  }

  /** The half turn moves pixels and the colour maps change them, so the
      two commute: only the relative order of HUEROT90 and INVERT matters. */
  lemma ReversedCommutesWithMap(f: Rgb -> Rgb, s: seq<Rgb>)
    ensures Reversed(MapPixels(f, s)) == MapPixels(f, Reversed(s))
  {
  }

  /** Each flag takes effect exactly when it is present: no flag leaves the
      image as it is, a single flag applies just its own transform, and every
      selection keeps the image size. */
  lemma TransformedByFlag(s: seq<Rgb>, hue: Rgb -> Rgb)
    ensures Transformed({}, s, hue) == s
    ensures Transformed({Rot180}, s, hue) == Reversed(s)
    ensures Transformed({HueRot90}, s, hue) == MapPixels(hue, s)
    ensures Transformed({Invert}, s, hue) == MapPixels(Inverted, s)
    ensures forall flags: set<Flag> :: |Transformed(flags, s, hue)| == |s|
  {
  }

  /** `rotate180_in_place`. */
  method Rotate180InPlace(image: array<Rgb>)
    modifies image
    ensures image[..] == Reversed(old(image[..]))
  {
    var n := image.Length;
    var i := 0;
    while i < n - 1 - i
      invariant 0 <= i && (i <= n - i)
      invariant forall k :: 0 <= k < i ==> image[k] == old(image[n - 1 - k]) && image[n - 1 - k] == old(image[k])
      invariant forall k :: i <= k < n - i ==> image[k] == old(image[k])
    {
      image[i], image[n - 1 - i] := image[n - 1 - i], image[i];
      i := i + 1;
    }
  }

  /** A per-pixel colour map applied in place (`invert`, and the hue
      rotation once its result is kept). */
  method MapPixelsInPlace(image: array<Rgb>, f: Rgb -> Rgb)
    modifies image
    ensures image[..] == MapPixels(f, old(image[..]))
  {
    for i := 0 to image.Length
      invariant forall k :: 0 <= k < i ==> image[k] == f(old(image[k]))
      invariant forall k :: i <= k < image.Length ==> image[k] == old(image[k])
    {
      image[i] := f(image[i]);
    }
  }

  /** `apply_image_transforms_in_place` as written: `imageops::huerotate`
      returns a new, rotated buffer and the call drops it, so HUEROT90 leaves
      the image as it was. */
  method ApplyImageTransformsAsWritten(flags: set<Flag>, image: array<Rgb>, hue: Rgb -> Rgb)
    modifies image
    ensures image[..] == Transformed(flags - {HueRot90}, old(image[..]), hue)
  {
    if Rot180 in flags {
      Rotate180InPlace(image);
    }
    if HueRot90 in flags {
      var dropped := MapPixels(hue, image[..]);
    }
    if Invert in flags {
      MapPixelsInPlace(image, Inverted);
    }
  }

  /** As written, the HUEROT90 flag cannot change the output: for a hue map
      that moves a colour, the image with the flag set equals the one without
      it, while the intended transform differs. */
  lemma HueRotationDroppedAsWritten()
    ensures var hue := (p: Rgb) => Rgb(p.b, p.r, p.g);
      var s := [Rgb(0, 0, 255)];
      Transformed({HueRot90} - {HueRot90}, s, hue) == s &&
      Transformed({HueRot90}, s, hue) == [Rgb(255, 0, 0)] != s
  {
    var hue := (p: Rgb) => Rgb(p.b, p.r, p.g);
    var s := [Rgb(0, 0, 255)];
    assert {HueRot90} - {HueRot90} == {};
    TransformedByFlag(s, hue);
    assert MapPixels(hue, s)[0] == Rgb(255, 0, 0);
  }

  /** `apply_image_transforms_in_place` with the hue rotation kept: ROT180,
      then HUEROT90, then INVERT, each when its flag is present. */
  method ApplyImageTransformsInPlace(flags: set<Flag>, image: array<Rgb>, hue: Rgb -> Rgb)
    modifies image
    ensures image[..] == Transformed(flags, old(image[..]), hue)
  {
    if Rot180 in flags {
      Rotate180InPlace(image);
    }
    if HueRot90 in flags {
      MapPixelsInPlace(image, hue);
    }
    if Invert in flags {
      MapPixelsInPlace(image, Inverted);
    }
  }
}
