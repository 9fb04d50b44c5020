/** Pixels of an `RgbImage`: three 8-bit channels, and the byte layout the
    renderers flatten a pixel buffer into before handing it to the image crate. */
module Pixels {
  /** Rust's `u8`. */
  newtype byte = x: int | 0 <= x < 256

  /** Rust's `n as u8`: keeps the low eight bits. */
  function AsByte(n: nat): (b: byte)
    ensures n < 256 ==> b as int == n
    ensures (b as int - n) % 256 == 0
  {
    (n % 256) as byte
  }

  /** `Rgb<u8>`: one pixel, channels in the order red, green, blue. */
  datatype Rgb = Rgb(r: byte, g: byte, b: byte)

  /** `pixels.iter().flat_map(|rgb| rgb.0.iter())`: three bytes per pixel. */
  function Flatten(pixels: seq<Rgb>): (flat: seq<byte>)
    ensures |flat| == 3 * |pixels|
    ensures forall i :: 0 <= i < |pixels| ==>
      flat[3 * i] == pixels[i].r && flat[3 * i + 1] == pixels[i].g && flat[3 * i + 2] == pixels[i].b
  {
    if pixels == [] then []
    else [pixels[0].r, pixels[0].g, pixels[0].b] + Flatten(pixels[1..])
  }

  /** Regrouping a byte buffer three bytes at a time, as an `RgbImage` reads
      its raw buffer. */
  function Unflatten(flat: seq<byte>): (pixels: seq<Rgb>)
    requires |flat| % 3 == 0
    ensures 3 * |pixels| == |flat|
    ensures Flatten(pixels) == flat
  {
    if flat == [] then []
    else
      var rest := Unflatten(flat[3..]);
      var pixels := [Rgb(flat[0], flat[1], flat[2])] + rest;
      assert pixels[1..] == rest;
      assert flat == [flat[0], flat[1], flat[2]] + flat[3..];
      pixels
  }

  /** Flattening loses nothing: regrouping the bytes gives the pixels back. */
  lemma {:induction false} UnflattenFlatten(pixels: seq<Rgb>)
    ensures Unflatten(Flatten(pixels)) == pixels
  {
    if pixels != [] {
      var flat := Flatten(pixels);
      assert flat[3..] == Flatten(pixels[1..]);
      UnflattenFlatten(pixels[1..]);
    }
  }
}
