# mandelatar: descriptor and banded escape-time renderer

mandelatar serves random zooms into the Mandelbrot set. A descriptor
(`ImageParams`) fixes a rectangle of the complex plane, a zoom factor, three
colour constants and a set of image transforms. The renderer turns it into a
row-major RGB pixel buffer, band by band, colours each pixel by its escape
time, and applies the transforms before PNG encoding.

This Dafny project models:

- the descriptor model of `mandelatar-core` and of the older backend;
- their samplers (`new_from_rand`, with the random draws as parameters);
- the query-string parser for post-processing options;
- the transform flag set;
- the backend renderer (`escape_time`, `pixel_to_point`, `render`, the band
  split of `create_png`, the colour rule, `apply_image_transforms_in_place`);
- the prototype renderer with its own descriptor and colour rule.

Complex numbers are pairs of exact reals, so every statement about points
holds over the reals, not bit for bit over `f64`. Code that changes state
step by step is modelled as methods with loops:

- over arrays: `render`'s nested loops, the band loop and the in-place
  transforms;
- over values: the escape-time loop (updating `z`), the query scan and the
  flag fold.

Each such method is proved against a function that says what it computes. The
lemmas then state what the source promises about those functions.

Modules, one per concern:

- `Wrappers`: Option and Result.
- `Pixels`: `u8`, `Rgb`, and the flattening to bytes.
- `TransformFlags`: the flag bit set and the sampler's fold.
- `Plane`: complex points, `get_relative_point` and `pixel_to_point`.
- `Escape`: the orbit and `escape_time`.
- `Zoom`: the zoom draw.
- `Sampler`: the viewport interpolation shared by all samplers.
- `Descriptor`: the `ImageParams` record.
- `CoreImageParams`: `mandelatar-core/src/image_params.rs`.
- `BackendImageParams`: `backend_rust/src/lib/imageparams.rs`.
- `Bands`: `chunks_mut`.
- `Raster`: `render` and the band loop, shared by both renderers with the
  colour rule as a parameter.
- `Transforms`: the image transforms.
- `BackendRender`: `backend_rust/src/lib/mandelbrot.rs`.
- `Prototype`: `src/lib/mandelbrot.rs`.

Facts about the code that the model makes explicit:

- `escape_time` never returns `Some(0)`: z_0 = 0 fails the strict test
  `norm_sqr() > 4.0`, so the colour rule never takes a remainder by zero
  (`Escape.EscapeTimeNotZero`).
- `escape_time(2+0i, limit)` is `Some(2)` for every limit above 2, because
  |z_1|^2 = 4 does not pass the strict test (`Escape.EscapeOfTwo`).
- The prototype declares its PNG as 600x600. The byte count fits that header
  exactly when `bounds.0 * bounds.1 == 360000`, not only for (600, 600)
  (`Prototype.CreatePng`).

## Model

| member | source | states |
|---|---|---|
| Pixels.AsByte | backend_rust/src/lib/mandelbrot.rs:79 | `n as u8` keeps any value below 256 unchanged and is always congruent to `n` modulo 256 |
| Pixels.Flatten | backend_rust/src/lib/mandelbrot.rs:143-147 | the flat buffer has three bytes per pixel: pixel i's red, green and blue sit at 3i, 3i+1 and 3i+2 |
| Pixels.Unflatten | backend_rust/src/lib/mandelbrot.rs:150-151 | regrouping a buffer whose length is a multiple of 3 yields a third as many pixels, and flattening them gives the same bytes back |
| Pixels.UnflattenFlatten | backend_rust/src/lib/mandelbrot.rs:143-153 | flattening loses nothing: regrouping the flat bytes gives back the original pixels |
| TransformFlags.Bit | mandelatar-core/src/image_params.rs:32-39 | the `#[repr(u8)]` bit of each flag: ROT180 = 0b0001, and enumflags2 gives HUEROT90 and INVERT the next bits, 2 and 4 |
| TransformFlags.ToBits | mandelatar-core/src/image_params.rs:32-39 | the `u8` a flag set is stored as: the sum of the bits of its members |
| TransformFlags.ContainsIsBitTest | mandelatar-core/src/image_params.rs:32-39 | the flag set is stored below 8, and a flag is in the set exactly when its bit (ROT180 = 1, HUEROT90 = 2, INVERT = 4) is set |
| TransformFlags.ToBitsInjective | mandelatar-core/src/image_params.rs:32-39 | two flag sets with the same byte are the same set |
| TransformFlags.EnabledRandTransforms | mandelatar-core/src/image_params.rs:64-70 | the flags the sampler may switch on: ROT180 and HUEROT90, never INVERT |
| TransformFlags.FoldRandTransforms | mandelatar-core/src/image_params.rs:127-136 | the fold yields exactly the enabled flags whose coin came up true: ROT180 iff coin 0, HUEROT90 iff coin 1, never INVERT |
| Zoom.Pow10 | mandelatar-core/src/image_params.rs:86 | 10^e is at least 1, and at least 10 once e >= 1 |
| Zoom.Pow10Monotone | mandelatar-core/src/image_params.rs:86 | 10^a <= 10^b whenever a <= b |
| Zoom.ZoomFactor | mandelatar-core/src/image_params.rs:86 | `1.0 / 10.0_f64.powi(exp) * mantissa` over exact reals (the same expression at backend_rust/src/lib/imageparams.rs:72 and src/lib/mandelbrot.rs:37); every `NewFromRand` stores it as the zoom factor |
| Zoom.ZoomFactorRange | mandelatar-core/src/image_params.rs:85-86 | for 1 <= exp <= maxExp and a mantissa in [1, 9], `1 / 10^exp * mantissa` lies in [10^-maxExp, 0.9] |
| Plane.GetRelativePoint | mandelatar-core/src/image_params.rs:59-62 | `get_relative_point` is the linear interpolation start + (pixel / length)(end - start): it puts `start` at pixel 0 and `end` at pixel `length` |
| Plane.GetRelativePointWithin | src/lib/mandelbrot.rs:25-28 | a pixel in [0, length] lands between `start` and `end`, whichever way the span points |
| Plane.SequentialInterpolationShift | mandelatar-core/src/image_params.rs:99-119 | interpolating `lower_right` from the just-updated `upper_left` moves it by exactly (a/L)(e-s)(1-b/L) compared with the simultaneous reading |
| Plane.SequentialInterpolationAgreesIff | mandelatar-core/src/image_params.rs:99-119 | the sequential and the simultaneous readings agree if and only if the first pixel is 0, the second is L, or the span is a point |
| Plane.SequentialInterpolationOrdered | backend_rust/src/lib/imageparams.rs:85-105 | with the first pixel below L and the second above 0, the two sequentially computed edges keep the orientation of the span |
| Sampler.ZoomedAxis | mandelatar-core/src/image_params.rs:99-119 | one axis of the sampled rectangle: `near` interpolated from the start span at middle - half, then `far` from (near, end) at middle + half, in the samplers' order |
| Sampler.ZoomSpan | backend_rust/src/lib/imageparams.rs:85-94 | one axis is computed in the source's order (near edge from (s, e), far edge from (near, e)), and the result keeps the span's orientation |
| Sampler.SampleViewport | mandelatar-core/src/image_params.rs:90-119 | both axes are interpolated in order around the jittered centre pixel with half-width side * zoom, and each axis keeps the orientation of the start rectangle |
| Plane.PixelToPoint | backend_rust/src/lib/mandelbrot.rs:41-58 | `pixel_to_point` is the affine map (column, row) to (ul.re + column * (lr.re - ul.re) / W, ul.im - row * (ul.im - lr.im) / H); its corners, columns and rows are stated by the three lemmas below |
| Plane.PixelToPointCorners | backend_rust/src/lib/mandelbrot.rs:41-58 | pixel (0, 0) maps to `upper_left` and pixel (width, height) to `lower_right` |
| Plane.PixelToPointColumns | backend_rust/src/lib/mandelbrot.rs:47-57 | the real part depends only on the column: equal columns give equal real parts, and a larger column a strictly larger one (both directions) |
| Plane.PixelToPointRows | backend_rust/src/lib/mandelbrot.rs:47-57 | the imaginary part depends only on the row: equal rows give equal parts, and a lower row a strictly smaller one (both directions) |
| Plane.BandPointMatches | backend_rust/src/lib/mandelbrot.rs:116-131 | column c of the one-row band between the points of pixels (0, i) and (width, i+1) maps to the same point as pixel (c, i) of the whole raster |
| Plane.SquarePlus | backend_rust/src/lib/mandelbrot.rs:28 | `z * z + c` in complex arithmetic over exact reals |
| Plane.NormSqr | backend_rust/src/lib/mandelbrot.rs:24 | `Complex::norm_sqr`: re * re + im * im |
| Escape.Orbit | backend_rust/src/lib/mandelbrot.rs:21-28 | the value z holds before the k-th test: z_0 = 0 and z_(k+1) = z_k * z_k + c; `Escape.EscapeTime`'s loop keeps z equal to it |
| Escape.Escaped | backend_rust/src/lib/mandelbrot.rs:24 | the loop's test at iteration k, `z.norm_sqr() > 4.0`, with z the k-th orbit value |
| Escape.EscapeBefore | backend_rust/src/lib/mandelbrot.rs:23-31 | a reported iteration lies below the bound |
| Escape.EscapeBeforeCharacterised | backend_rust/src/lib/mandelbrot.rs:20-32 | None means no iteration below the limit has norm above 4; Some(i) means iteration i does and none before it does |
| Escape.EscapeBeforeIs | backend_rust/src/lib/mandelbrot.rs:23-26 | conversely, the first escaping iteration below the limit is the one reported |
| Escape.EscapeBeforeIsNone | backend_rust/src/lib/mandelbrot.rs:23-31 | conversely, with no escaping iteration below the limit the result is None |
| Escape.EscapeTimeOf | backend_rust/src/lib/mandelbrot.rs:20-32 | a reported escape count lies below the limit |
| Escape.EscapeTime | backend_rust/src/lib/mandelbrot.rs:20-32 | the loop that updates z returns exactly the first escaping iteration below the limit, or None |
| Escape.StartDoesNotEscape | backend_rust/src/lib/mandelbrot.rs:21-24 | the test at iteration 0 fails for every c, because z_0 = 0 |
| Escape.EscapingIsNotStart | backend_rust/src/lib/mandelbrot.rs:21-24 | no escaping iteration is iteration 0 |
| Escape.EscapeTimeNotZero | backend_rust/src/lib/mandelbrot.rs:20-32 | `escape_time` never returns Some(0), whatever c and the limit |
| Escape.OriginOrbitIsFixed | backend_rust/src/lib/mandelbrot.rs:28 | the orbit of 0 stays at 0 |
| Escape.OriginNeverEscapes | backend_rust/src/lib/mandelbrot.rs:20-32 | `escape_time(0, limit)` is None for every limit |
| Escape.EscapeOfTwo | backend_rust/src/lib/mandelbrot.rs:20-32 | `escape_time(2+0i, limit)` is Some(2) for limits above 2, else None |
| Escape.EscapeCountFitsByte | backend_rust/src/lib/mandelbrot.rs:77-79 | with limit 255 an escape count lies in [1, 254], so `count as u8` is lossless and non-zero |
| Bands.Chunks | backend_rust/src/lib/mandelbrot.rs:111-112 | `chunks_mut(size)` over `len` pixels: every chunk is non-empty, at most `size` long and inside the buffer |
| Bands.ChunksWithin | backend_rust/src/lib/mandelbrot.rs:111-112 | every chunk is non-empty, at most `size` long, and inside the buffer |
| Bands.ChunksOrdered | backend_rust/src/lib/mandelbrot.rs:111-112 | chunks come in order: each ends no later than any later one starts |
| Bands.ChunksPartitionFrom | backend_rust/src/lib/mandelbrot.rs:111-112 | the chunks are pairwise disjoint and together cover the buffer |
| Bands.ChunksOfRows | backend_rust/src/lib/mandelbrot.rs:111-114 | over m rows of `size` pixels there are m chunks, chunk i being exactly row i |
| Bands.RowBands | backend_rust/src/lib/mandelbrot.rs:106-114 | the W*H buffer splits into H bands, band i is [i*W, (i+1)*W), the bands are disjoint and cover every index |
| Transforms.Reversed | backend_rust/src/lib/mandelbrot.rs:91-93 | `rotate180_in_place` on the row-major buffer: pixel k moves to position len - 1 - k (see `Transforms.ReversedIsHalfTurn` for the (x, y) reading) |
| Transforms.MapPixels | backend_rust/src/lib/mandelbrot.rs:95-101 | a per-pixel colour map over the whole image, the form `huerotate` and `invert` take here |
| Transforms.Inverted | backend_rust/src/lib/mandelbrot.rs:99-101 | `invert` on `Rgb<u8>`: every channel c becomes 255 - c |
| Transforms.Transformed | backend_rust/src/lib/mandelbrot.rs:85-102 | the image after the flagged transforms in the order ROT180, HUEROT90, INVERT, each at most once; it has as many pixels as the input |
| Transforms.ReversedTwice | backend_rust/src/lib/mandelbrot.rs:91-93 | the 180-degree rotation is an involution and keeps the size |
| Transforms.ReversedIsHalfTurn | backend_rust/src/lib/mandelbrot.rs:91-93 | on a W x H row-major image, reversing the buffer sends pixel (x, y) to (W-1-x, H-1-y) |
| Transforms.InvertedTwice | backend_rust/src/lib/mandelbrot.rs:99-101 | inverting twice restores the image |
| Transforms.ReversedCommutesWithMap | backend_rust/src/lib/mandelbrot.rs:85-102 | the half turn commutes with every per-pixel colour map |
| Transforms.TransformedByFlag | backend_rust/src/lib/mandelbrot.rs:85-102 | the empty flag set leaves the image unchanged, a single flag applies just its transform, and every selection keeps the size |
| Transforms.Rotate180InPlace | backend_rust/src/lib/mandelbrot.rs:91-93 | the in-place swap loop leaves the buffer reversed |
| Transforms.MapPixelsInPlace | backend_rust/src/lib/mandelbrot.rs:99-101 | the in-place loop applies the colour map to every pixel and to nothing else |
| Transforms.ApplyImageTransformsAsWritten | backend_rust/src/lib/mandelbrot.rs:85-102 | as written, the image ends up transformed by the flags without HUEROT90 |
| Transforms.HueRotationDroppedAsWritten | backend_rust/src/lib/mandelbrot.rs:95-97 | for a blue pixel and a hue map that moves it, the as-written result with HUEROT90 equals the input, while the intended one differs |
| Transforms.ApplyImageTransformsInPlace | backend_rust/src/lib/mandelbrot.rs:85-102 | the image ends up as ROT180, then HUEROT90, then INVERT applied, each exactly when its flag is present |
| CoreImageParams.GetBounds | mandelatar-core/src/image_params.rs:54-57 | `get_bounds` returns the output size (300, 300) |
| CoreImageParams.GetBoundsIgnoresField | mandelatar-core/src/image_params.rs:54-57 | `get_bounds` is (300, 300) whatever the stored `bounds` field holds |
| CoreImageParams.RandInterestingSelection | mandelatar-core/src/image_params.rs:72-76 | every in-range index picks a table entry, and that entry is (-1.2+0.35i, -1.0+0.2i) |
| CoreImageParams.NewFromRand | mandelatar-core/src/image_params.rs:79-146 | keeps the caller's `bounds` and the drawn colour bytes; the zoom is m/10^e within [10^-10, 0.9]; both axes are interpolated in order and keep the start rectangle's orientation; the flags are the coin-selected subset of {ROT180, HUEROT90} |
| CoreImageParams.NamesUnknownOverlay | mandelatar-core/src/image_params.rs:173-184 | the error condition: some pair has key "overlay" and a value other than "profile" |
| CoreImageParams.NamesProfileOverlay | mandelatar-core/src/image_params.rs:173-179 | the profile condition: some pair is ("overlay", "profile") |
| CoreImageParams.QueryConfig | mandelatar-core/src/image_params.rs:160-191 | the meaning of a query string, free of scan order: Err when some pair is ("overlay", v) with v not "profile", otherwise the 300x300 profile overlay when some pair is ("overlay", "profile"), otherwise no overlay |
| CoreImageParams.FromQueryParams | mandelatar-core/src/image_params.rs:160-191 | the in-order scan with early return computes the order-free meaning: Err exactly when some pair is ("overlay", v) with v not "profile"; otherwise the profile overlay is set exactly when some pair asks for it |
| CoreImageParams.QueryConfigOrderFree | mandelatar-core/src/image_params.rs:171-190 | two query strings holding the same pairs, in any order and with any repetition, give the same result |
| CoreImageParams.QueryConfigWithoutOverlay | mandelatar-core/src/image_params.rs:163-169 | with no "overlay" key (in particular with no pairs) the result is Ok with no overlay |
| CoreImageParams.ShouldPostProcess | mandelatar-core/src/image_params.rs:193-199 | `should_post_process`: true exactly when an overlay is configured |
| CoreImageParams.ShouldPostProcessIffProfile | mandelatar-core/src/image_params.rs:193-199 | a parsed configuration asks for post-processing exactly when some pair requested the profile overlay, whose size is then 300x300 |
| BackendImageParams.GetBounds | backend_rust/src/lib/imageparams.rs:42-45 | `get_bounds` returns the output size (600, 600) |
| BackendImageParams.GetBoundsIgnoresField | backend_rust/src/lib/imageparams.rs:42-45 | `get_bounds` is (600, 600) whatever the stored `bounds` field holds |
| BackendImageParams.NewFromRand | backend_rust/src/lib/imageparams.rs:61-132 | as the core sampler but with the half-open ranges: zoom within [10^-9, 0.9], every colour constant at most 254, fixed start rectangle |
| Raster.PointCount | backend_rust/src/lib/mandelbrot.rs:77-79 | the `u8` count is None exactly when `escape_time(c, 255)` is, and otherwise has the same value |
| Raster.PixelValue | backend_rust/src/lib/mandelbrot.rs:75-80 | the colour of pixel (column, row): the palette applied to the `u8` escape count of the pixel's point |
| Raster.RowStartIs | backend_rust/src/lib/mandelbrot.rs:77 | counting rows up gives `row * bounds.0`, the index the source computes |
| Raster.RowFits | backend_rust/src/lib/mandelbrot.rs:73-77 | every row below the height ends inside the W*H buffer, and row H starts at its end |
| Raster.PositionAt | backend_rust/src/lib/mandelbrot.rs:73-77 | the row-major index of (column, row) is read back as (column, row) |
| Raster.Raster | backend_rust/src/lib/mandelbrot.rs:73-74 | a raster of bounds (W, H) has W*H pixels |
| Raster.RasterAt | backend_rust/src/lib/mandelbrot.rs:73-80 | pixel (column, row) of a raster sits at its row's first index plus `column`, inside the buffer |
| Raster.RenderedImage | backend_rust/src/lib/mandelbrot.rs:66-83 | the rendered raster has W*H pixels |
| Raster.RenderedImageAtRow | backend_rust/src/lib/mandelbrot.rs:73-80 | index RowStart(row) + column of the rendered raster holds the colour of pixel (column, row) |
| Raster.RenderedImageAt | backend_rust/src/lib/mandelbrot.rs:73-80 | index row*W + column is inside the raster and holds the palette's colour for the escape count of pixel (column, row)'s point |
| Raster.RenderPixel | backend_rust/src/lib/mandelbrot.rs:75-80 | the inner loop body computes the colour of the pixel's point from its escape count |
| Raster.RenderRow | backend_rust/src/lib/mandelbrot.rs:74-81 | the column loop writes the colour of every pixel of the row at `row * W + column`, and nothing outside the row |
| Raster.Render | backend_rust/src/lib/mandelbrot.rs:66-83 | `render` fills its W*H window with the row-major rendering and writes nothing outside it |
| Raster.BandImageMatches | backend_rust/src/lib/mandelbrot.rs:116-138 | column c of band i's own rendering equals pixel (c, i) of the whole rendering, over exact reals |
| Raster.BandShadeMatches | backend_rust/src/lib/mandelbrot.rs:116-131 | band i colours each column as row i of the whole raster does |
| Raster.BandIsRow | backend_rust/src/lib/mandelbrot.rs:111-114 | there are H bands, and band i is exactly row i of the buffer |
| Raster.RasterRowFromBand | backend_rust/src/lib/mandelbrot.rs:116-139 | a band that holds its own one-row rendering holds row i of the whole raster |
| Raster.RenderBands | backend_rust/src/lib/mandelbrot.rs:107-140 | after the band loop every pixel is overwritten and the buffer holds the row-major rendering of the whole rectangle |
| BackendRender.Colour | backend_rust/src/lib/mandelbrot.rs:77-80 | None gives (10, 10, 25); for count n each channel is the remainder of its constant by n, below n and congruent to it |
| BackendRender.Palette | backend_rust/src/lib/mandelbrot.rs:77-80 | the backend's colour rule (`BackendRender.Colour`) for the descriptor's three colour constants, as the palette `render` applies to each count |
| BackendRender.PixelColour | backend_rust/src/lib/mandelbrot.rs:73-80 | every pixel of the 600x600 raster is (10, 10, 25) when its point does not escape; otherwise its count is in [1, 254] and each channel is the remainder of its constant by the count |
| BackendRender.FromRaw | backend_rust/src/lib/mandelbrot.rs:150-153 | the rewrap succeeds exactly when the buffer holds 3*w*h bytes or more, and then returns w*h pixels whose bytes are the buffer's first 3*w*h |
| BackendRender.CreatePngAsWritten | backend_rust/src/lib/mandelbrot.rs:105-155 | as written: the buffer is sized by `get_bounds` (600x600), never by `bounds`; the `from_raw` check always passes; the bytes handed to the encoder are the rendering with ROT180 and INVERT applied as flagged and never the hue rotation, whose result `apply_image_transforms_in_place` drops |
| BackendRender.CreatePng | backend_rust/src/lib/mandelbrot.rs:105-155 | the corrected pipeline: as `BackendRender.CreatePngAsWritten`, but the bytes carry every flagged transform, the hue rotation included |
| Prototype.NewFromRand | src/lib/mandelbrot.rs:30-78 | keeps `bounds`; the zoom is m/10^e within [10^-9, 0.9]; both axes are interpolated in order from the fixed start rectangle and keep its orientation |
| Prototype.Colour | src/lib/mandelbrot.rs:145-148 | None gives white; count n gives (2, 3, 255 - n), with blue and count adding up to 255 (no wrap) |
| Prototype.PixelColour | src/lib/mandelbrot.rs:141-150 | every pixel is white when its point does not escape, and otherwise (2, 3, b) with b = 255 - count in [1, 254] |
| Prototype.CreatePng | src/lib/mandelbrot.rs:153-199 | the buffer is sized by the descriptor's `bounds`; the flattened bytes are the row-major rendering; the declared size is 600x600, and it fits the byte count exactly when bounds.0 * bounds.1 = 360000 |

## Left out

- PNG encoding (`PngEncoder::write_image`) and its error path are not part of
  this model. The `CreatePng` methods return the bytes that would be handed
  to the encoder, not the PNG.
- BackendRender.CreatePng: models the intended pipeline, with the hue
  rotation kept (the corrected half of the finding below). The code as
  written drops it; `BackendRender.CreatePngAsWritten` states those bytes.
- Prototype.CreatePng: the encoder's reaction to a byte count that does not
  fit the declared 600x600 is not modelled. The image crate is not part of
  this model; the contract states when the sizes fit.
- Prototype.CreatePng and Raster.RenderBands require `bounds.0 > 0`, because
  `chunks_mut(0)` panics in the source.
- The hue rotation (`imageops::huerotate`) is floating-point colour maths
  inside the image crate. It is a parameter `hue: Rgb -> Rgb` of the
  transforms.
- BackendRender.FromRaw: `RgbImage::from_raw` belongs to the image crate,
  which is not part of this model. It is modelled as accepting any buffer that
  holds at least width * height pixels and reading the first 3 * width *
  height bytes.
- The model runs the bands one after the other in place of rayon's
  `into_par_iter`. That the bands are disjoint is proved (`Bands.RowBands`),
  and each band's render writes only its own window (`Raster.Render`).
- `thread_rng` draws are parameters of the `NewFromRand` methods. Their
  `requires` clauses are the ranges the source draws from.
- `f64` is modelled as exact reals, with no rounding, NaN or infinity.
  `Raster.BandImageMatches` and `Plane.BandPointMatches` hold over the reals
  only. A floating-point band corner may differ from the exact one in the
  last bits.
- `offset_left` and `offset_top` are the constant 0.0 in every sampler and
  drop out of the interpolation.
- `render` works on a slice of the buffer. It is modelled on the whole array
  with the slice's start as `offset`.
- `render`'s inner loop body is split out as `Raster.RenderRow` and
  `Raster.RenderPixel`, so that each loop is proved on its own.
- The renderer of `mandelatar-core`, which the routes call, is not part of
  this model. The backend renderer stands in for it.
- The bincode/serde/base64 descriptor codec, the HTTP routes and servers, the
  configuration loading, the overlay post-processing (resize and alpha
  overlay), error Display impls, the UI and the benches are not part of this
  model: they are I/O and library plumbing.

## Findings

| source | as written | input that shows it | evidently intended | confidence | as-written member | corrected member |
|---|---|---|---|---|---|---|
| backend_rust/src/lib/mandelbrot.rs:95-97 | `imageops::huerotate(image, 90)` returns a new rotated buffer, and the call drops it, so HUEROT90 leaves the image unchanged | a descriptor with HUEROT90 set, over an image holding a colour the rotation moves, e.g. one pure blue pixel | the hue-rotated image replaces the image, as the other two transforms do in place | medium, not executed (relies on the image crate returning a new buffer; that crate is not part of this model) | Transforms.ApplyImageTransformsAsWritten | Transforms.ApplyImageTransformsInPlace |
