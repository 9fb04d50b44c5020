/** The banded escape-time renderer both `mandelbrot.rs` files share:
    `render` fills a row-major pixel buffer, `create_png` splits the buffer
    into one-row bands and renders each band on its own. The two files
    differ only in the colour rule, which is a parameter here. */
module Raster {
  import opened Wrappers
  import opened Pixels
  import opened Plane
  import opened Escape
  import opened Bands

  /** `count as u8` for an escape count of `escape_time(_, 255)`: never 0. */
  type Count = b: byte | b != 0 witness 1


  /** The escape count of `c` as the colour rules see it, cast to `u8`. The
      cast is lossless and never yields 0 (no remainder by zero follows). */
  function PointCount(c: Complex): (r: Option<Count>)
    ensures r.None? <==> EscapeTimeOf(c, Limit).None?
    ensures r.Some? ==> r.value as int == EscapeTimeOf(c, Limit).value
  {
    EscapeCountFitsByte(c);
    match EscapeTimeOf(c, Limit)
    case None => None
    case Some(n) => Some(AsByte(n))
  }


  /** The colour of pixel (column, row) of a raster of size `bounds`
      covering the rectangle from `upperLeft` to `lowerRight`. */
  function PixelValue(bounds: (nat, nat), pixel: (nat, nat), upperLeft: Complex, lowerRight: Complex,
                      palette: Option<Count> -> Rgb): Rgb
    requires bounds.0 > 0 && bounds.1 > 0
  {
    palette(PointCount(PixelToPoint(bounds, pixel, upperLeft, lowerRight)))
  }


  /** The first index of row `row` in a row-major buffer `width` wide,
      counted up row by row. */
  function RowStart(row: nat, width: nat): nat {
    if row == 0 then 0 else RowStart(row - 1, width) + width
  }


  /** Counting rows up gives the product the source computes. */
  lemma {:induction false} RowStartIs(row: nat, width: nat)
    ensures RowStart(row, width) == row * width
  {
    if row > 0 {
      RowStartIs(row - 1, width);
      assert (row - 1) * width + width == row * width;
    }
  }


  /** A non-zero multiple of `w` is at least `w` away from 0. */
  lemma MultipleBound(d: int, w: int)
    requires w > 0
    ensures d >= 1 ==> d * w >= w
    ensures d <= -1 ==> d * w <= -w
  {
  }


  /** Every row starts inside the raster, and row `height` starts at its
      end. */
  lemma RowFits(bounds: (nat, nat), row: nat)
    requires row <= bounds.1
    ensures row < bounds.1 ==> RowStart(row, bounds.0) + bounds.0 <= bounds.0 * bounds.1
    ensures row == bounds.1 ==> RowStart(row, bounds.0) == bounds.0 * bounds.1
  {
    RowStartIs(row, bounds.0);
    if bounds.0 > 0 {
      MultipleBound(bounds.1 - row, bounds.0);
    }
  }


  /** The (column, row) of index `index` of a row-major buffer `width`
      wide: every `width` indices start a new row. */
  function Position(index: nat, width: nat): (nat, nat)
    requires width > 0
  {
    if index < width then (index, 0)
    else
      var (column, row) := Position(index - width, width);
      (column, row + 1)
  }


  /** Index `RowStart(row, width) + column` is pixel (column, row). */
  lemma {:induction false} PositionAt(width: nat, row: nat, column: nat)
    requires column < width
    ensures Position(RowStart(row, width) + column, width) == (column, row)
  {
    if row > 0 {
      PositionAt(width, row - 1, column);
    }
  }


  /** A raster of `bounds` pixels in row-major order, pixel (column, row)
      coloured by `shade`. */
  function Raster(bounds: (nat, nat), shade: ((nat, nat)) -> Rgb): (image: seq<Rgb>)
    ensures |image| == bounds.0 * bounds.1
  {
    if bounds.0 == 0 then []
    else seq(bounds.0 * bounds.1, k requires 0 <= k => shade(Position(k, bounds.0)))
  }


  /** Pixel (column, row) of a raster sits at the row's first index plus
      `column`. */
  lemma RasterAt(bounds: (nat, nat), shade: ((nat, nat)) -> Rgb, row: nat, column: nat)
    requires row < bounds.1 && column < bounds.0
    ensures RowStart(row, bounds.0) + column < bounds.0 * bounds.1
    ensures Raster(bounds, shade)[RowStart(row, bounds.0) + column] == shade((column, row))
  {
    RowFits(bounds, row);
    PositionAt(bounds.0, row, column);
  }


  /** The colour rule of a raster of size `bounds` covering the rectangle
      from `upperLeft` to `lowerRight`; an empty raster has no pixel to
      colour. */
  function Shade(bounds: (nat, nat), upperLeft: Complex, lowerRight: Complex,
                 palette: Option<Count> -> Rgb): ((nat, nat)) -> Rgb
  {
    pixel => if bounds.0 > 0 && bounds.1 > 0 then PixelValue(bounds, pixel, upperLeft, lowerRight, palette)
             else palette(None)
  }


  /** The whole rendered raster. */
  function RenderedImage(bounds: (nat, nat), upperLeft: Complex, lowerRight: Complex,
                         palette: Option<Count> -> Rgb): (image: seq<Rgb>)
    ensures |image| == bounds.0 * bounds.1
  {
    Raster(bounds, Shade(bounds, upperLeft, lowerRight, palette))
  }


  /** `RenderedImageAt` with the row's first index counted up. */
  lemma RenderedImageAtRow(bounds: (nat, nat), upperLeft: Complex, lowerRight: Complex,
                           palette: Option<Count> -> Rgb, row: nat, column: nat)
    requires row < bounds.1 && column < bounds.0
    ensures RowStart(row, bounds.0) + column < |RenderedImage(bounds, upperLeft, lowerRight, palette)|
    ensures RenderedImage(bounds, upperLeft, lowerRight, palette)[RowStart(row, bounds.0) + column]
      == PixelValue(bounds, (column, row), upperLeft, lowerRight, palette)
  {
    RasterAt(bounds, Shade(bounds, upperLeft, lowerRight, palette), row, column);
  }


  /** Pixel (column, row) of the rendered raster sits at index
      row * width + column. */
  lemma RenderedImageAt(bounds: (nat, nat), upperLeft: Complex, lowerRight: Complex,
                        palette: Option<Count> -> Rgb, row: nat, column: nat)
    requires row < bounds.1 && column < bounds.0
    ensures row * bounds.0 + column < bounds.0 * bounds.1
    ensures RenderedImage(bounds, upperLeft, lowerRight, palette)[row * bounds.0 + column]
      == PixelValue(bounds, (column, row), upperLeft, lowerRight, palette)
  {
    RenderedImageAtRow(bounds, upperLeft, lowerRight, palette, row, column);
    RowStartIs(row, bounds.0);
  }


  /** The body of `render`'s inner loop: the point of the pixel, its escape
      time by the `escape_time` loop, and the colour of that count. */
  method RenderPixel(bounds: (nat, nat), pixel: (nat, nat), upperLeft: Complex, lowerRight: Complex,
                     palette: Option<Count> -> Rgb) returns (colour: Rgb)
    requires bounds.0 > 0 && bounds.1 > 0
    ensures colour == PixelValue(bounds, pixel, upperLeft, lowerRight, palette)
  {
    var point := PixelToPoint(bounds, pixel, upperLeft, lowerRight);
    var count := EscapeTime(point, Limit);
    EscapeCountFitsByte(point);
    colour := palette(if count.None? then None else Some(AsByte(count.value)));
  }


  /** The inner loop of `render`: row `row`, column by column. */
  method RenderRow(pixels: array<Rgb>, offset: nat, bounds: (nat, nat), row: nat,
                   upperLeft: Complex, lowerRight: Complex, palette: Option<Count> -> Rgb)
    requires row < bounds.1 && offset + RowStart(row, bounds.0) + bounds.0 <= pixels.Length
    modifies pixels
    ensures forall column :: 0 <= column < bounds.0 ==>
      pixels[offset + RowStart(row, bounds.0) + column] == PixelValue(bounds, (column, row), upperLeft, lowerRight, palette)
    ensures forall k ::
      (0 <= k < pixels.Length && !(offset + RowStart(row, bounds.0) <= k < offset + RowStart(row, bounds.0) + bounds.0))
      ==> pixels[k] == old(pixels[k])
  {
    ghost var start := offset + RowStart(row, bounds.0);
    RowStartIs(row, bounds.0);
    for column := 0 to bounds.0
      invariant forall c :: 0 <= c < column ==> pixels[start + c] == PixelValue(bounds, (c, row), upperLeft, lowerRight, palette)
      invariant forall k :: 0 <= k < pixels.Length && !(start <= k < start + column) ==> pixels[k] == old(pixels[k])
    {
      var colour := RenderPixel(bounds, (column, row), upperLeft, lowerRight, palette);
      pixels[offset + row * bounds.0 + column] := colour;
    }
  }


  /** `render`: fills the `bounds.0 * bounds.1` pixels starting at `offset`
      (the slice `render` receives) row by row, pixel (column, row) going to
      `offset + row * bounds.0 + column`; nothing outside that window is
      written. */
  method Render(pixels: array<Rgb>, offset: nat, bounds: (nat, nat), upperLeft: Complex, lowerRight: Complex,
                palette: Option<Count> -> Rgb)
    requires offset + bounds.0 * bounds.1 <= pixels.Length
    modifies pixels
    ensures pixels[offset..offset + bounds.0 * bounds.1] == RenderedImage(bounds, upperLeft, lowerRight, palette)
    ensures forall k :: 0 <= k < pixels.Length && !(offset <= k < offset + bounds.0 * bounds.1) ==>
      pixels[k] == old(pixels[k])
  {
    ghost var image := RenderedImage(bounds, upperLeft, lowerRight, palette);
    ghost var rowStart := offset;
    for row := 0 to bounds.1
      invariant rowStart == offset + RowStart(row, bounds.0) <= offset + |image|
      invariant forall k :: offset <= k < rowStart ==> pixels[k] == image[k - offset]
      invariant forall k :: 0 <= k < pixels.Length && !(offset <= k < rowStart) ==> pixels[k] == old(pixels[k])
    {
      RowFits(bounds, row);
      RenderRow(pixels, offset, bounds, row, upperLeft, lowerRight, palette);
      forall k | rowStart <= k < rowStart + bounds.0
        ensures pixels[k] == image[k - offset]
      {
        RenderedImageAtRow(bounds, upperLeft, lowerRight, palette, row, k - rowStart);
      }
      rowStart := rowStart + bounds.0;
    }
    RowFits(bounds, bounds.1);
  }


  /** Over exact reals, rendering row `row` as a band of bounds (width, 1)
      between the points of pixels (0, row) and (width, row + 1) yields the
      same colours as row `row` of the whole raster. */
  lemma BandImageMatches(bounds: (nat, nat), upperLeft: Complex, lowerRight: Complex,
                         palette: Option<Count> -> Rgb, row: nat, column: nat)
    requires row < bounds.1 && column < bounds.0
    ensures var band := RenderedImage((bounds.0, 1), PixelToPoint(bounds, (0, row), upperLeft, lowerRight),
                                      PixelToPoint(bounds, (bounds.0, row + 1), upperLeft, lowerRight), palette);
      column < |band| && row * bounds.0 + column < bounds.0 * bounds.1 &&
      band[column] == RenderedImage(bounds, upperLeft, lowerRight, palette)[row * bounds.0 + column]
  {
    var bandUpperLeft := PixelToPoint(bounds, (0, row), upperLeft, lowerRight);
    var bandLowerRight := PixelToPoint(bounds, (bounds.0, row + 1), upperLeft, lowerRight);
    RenderedImageAt((bounds.0, 1), bandUpperLeft, bandLowerRight, palette, 0, column);
    RenderedImageAt(bounds, upperLeft, lowerRight, palette, row, column);
    BandPointMatches(bounds, row, column, upperLeft, lowerRight);
  }


  /** The colour rule of band `row`, a raster of bounds (width, 1) between
      the points of pixels (0, row) and (width, row + 1). */
  function BandShade(bounds: (nat, nat), upperLeft: Complex, lowerRight: Complex,
                     palette: Option<Count> -> Rgb, row: nat): ((nat, nat)) -> Rgb
    requires bounds.0 > 0 && bounds.1 > 0
  {
    Shade((bounds.0, 1), PixelToPoint(bounds, (0, row), upperLeft, lowerRight),
          PixelToPoint(bounds, (bounds.0, row + 1), upperLeft, lowerRight), palette)
  }


  /** Band `row` colours column `column` as row `row` of the whole raster
      does. */
  lemma BandShadeMatches(bounds: (nat, nat), upperLeft: Complex, lowerRight: Complex,
                         palette: Option<Count> -> Rgb, row: nat)
    requires bounds.0 > 0 && row < bounds.1
    ensures forall column :: 0 <= column < bounds.0 ==>
      BandShade(bounds, upperLeft, lowerRight, palette, row)((column, 0))
        == Shade(bounds, upperLeft, lowerRight, palette)((column, row))
  {
    forall column | 0 <= column < bounds.0
      ensures BandShade(bounds, upperLeft, lowerRight, palette, row)((column, 0))
        == Shade(bounds, upperLeft, lowerRight, palette)((column, row))
    {
      BandPointMatches(bounds, row, column, upperLeft, lowerRight);
      var bandUpperLeft := PixelToPoint(bounds, (0, row), upperLeft, lowerRight);
      var bandLowerRight := PixelToPoint(bounds, (bounds.0, row + 1), upperLeft, lowerRight);
      assert BandShade(bounds, upperLeft, lowerRight, palette, row)((column, 0))
        == PixelValue((bounds.0, 1), (column, 0), bandUpperLeft, bandLowerRight, palette);
    }
  }

  /** Band `row` of `chunks_mut(width)` over the buffer is row `row` of the
      raster; there are `height` bands. */
  lemma BandIsRow(bounds: (nat, nat), row: nat)
    requires bounds.0 > 0
    ensures |Chunks(bounds.0 * bounds.1, bounds.0)| == bounds.1
    ensures row < bounds.1 ==>
      Chunks(bounds.0 * bounds.1, bounds.0)[row] == Band(RowStart(row, bounds.0), RowStart(row, bounds.0) + bounds.0)
      && RowStart(row, bounds.0) + bounds.0 <= bounds.0 * bounds.1
  {
    RowBands(bounds.0, bounds.1);
    RowStartIs(row, bounds.0);
    if row < bounds.1 {
      RowFits(bounds, row);
      assert (row + 1) * bounds.0 == row * bounds.0 + bounds.0;
    }
  }


  /** A buffer whose `row`-th stretch of `width` pixels holds a one-row
      raster agreeing column by column with row `row` of `shade` holds row
      `row` of the raster of `shade` there. */
  lemma RasterRowFromBand(bounds: (nat, nat), shade: ((nat, nat)) -> Rgb, bandShade: ((nat, nat)) -> Rgb,
                          row: nat, start: nat, buffer: seq<Rgb>)
    requires row < bounds.1 && start == RowStart(row, bounds.0) && start + bounds.0 <= |buffer|
    requires buffer[start..start + bounds.0] == Raster((bounds.0, 1), bandShade)
    requires forall column :: 0 <= column < bounds.0 ==> bandShade((column, 0)) == shade((column, row))
    ensures start + bounds.0 <= |Raster(bounds, shade)|
    ensures forall k :: start <= k < start + bounds.0 ==> buffer[k] == Raster(bounds, shade)[k]
  {
    RowFits(bounds, row);
    forall k | start <= k < start + bounds.0
      ensures buffer[k] == Raster(bounds, shade)[k]
    {
      var column := k - start;
      assert buffer[k] == buffer[start..start + bounds.0][column];
      RasterAt((bounds.0, 1), bandShade, 0, column);
      assert Raster((bounds.0, 1), bandShade)[column] == bandShade((column, 0));
      RasterAt(bounds, shade, row, column);
    }
  }


  /** The band loop of `create_png`: the `width * height` buffer is cut into
      `height` disjoint one-row bands (`chunks_mut(width)`), and band `i` is
      rendered with bounds (width, 1) between the points of pixels (0, i) and
      (width, i + 1). The bands run one after the other here. Every pixel is
      overwritten and the buffer ends up holding the row-major rendering of
      the whole rectangle. */
  method RenderBands(pixels: array<Rgb>, bounds: (nat, nat), upperLeft: Complex, lowerRight: Complex,
                     palette: Option<Count> -> Rgb)
    requires bounds.0 > 0
    requires pixels.Length == bounds.0 * bounds.1
    modifies pixels
    ensures pixels[..] == RenderedImage(bounds, upperLeft, lowerRight, palette)
  {
    ghost var image := RenderedImage(bounds, upperLeft, lowerRight, palette);
    var bands := Chunks(pixels.Length, bounds.0);
    BandIsRow(bounds, 0);
    ghost var rowStart := 0;
    for i := 0 to |bands|
      invariant rowStart == RowStart(i, bounds.0) <= |image|
      invariant forall k :: 0 <= k < rowStart ==> pixels[k] == image[k]
    {
      var band := bands[i];
      BandIsRow(bounds, i);
      var bandUpperLeft := PixelToPoint(bounds, (0, i), upperLeft, lowerRight);
      var bandLowerRight := PixelToPoint(bounds, (bounds.0, i + 1), upperLeft, lowerRight);
      Render(pixels, band.start, (bounds.0, 1), bandUpperLeft, bandLowerRight, palette);
      BandShadeMatches(bounds, upperLeft, lowerRight, palette, i);
      RasterRowFromBand(bounds, Shade(bounds, upperLeft, lowerRight, palette),
                        BandShade(bounds, upperLeft, lowerRight, palette, i), i, rowStart, pixels[..]);
      rowStart := rowStart + bounds.0;
    }
    RowFits(bounds, bounds.1);
  }

}
