# Lienzo image-filter engine, modelled in Dafny

This project models the pixel-buffer filter engine of Lienzo's
`ImageDataFilterCommonOps`, which is JavaScript embedded in a Java class. The
engine works on a row-major RGBA buffer. Each pixel is 4 consecutive entries,
so channel `c` of pixel (x, y) in a `w`-wide image sits at `(y * w + x) * 4 + c`.

It has three in-place filters:

- `filterTable` remaps R, G and B through a lookup table.
- `filterConvolve` applies an odd k x k kernel.
- `filterTransform` resamples through a caller-supplied coordinate map, using bilinear interpolation.

The filters themselves call only `getPixel`, which clamps each coordinate
with `clamp`, and `bilinearInterpolate`. The other pure helpers are exposed to
callers who build filter parameters: `linearInterpolate` (used by
`mixColors`), `mixColors`, the luminosity weight `luminocity`, and the
conversions `RGBtoHSV` and `HSVtoRGB`. None of the three filters calls them.

Modules (one file each):

- `JsNumber`: the JavaScript numerics the engine relies on. These are
  truncation, `x | 0` as ToInt32 of the truncation (with its 2^32 wrap), and
  the sign-of-dividend remainder `%`.
- `Interpolation`: `Rgba`, `clamp`, `linearInterpolate`, `bilinearInterpolate`,
  `mixColors` and `luminocity`.
- `ColorSpace`: `RGBtoHSV` and `HSVtoRGB`, with their exact round trip.
- `PixelSampler`: the buffer layout, `getPixel`, and the element copy loop the
  filters use.
- `TableFilter`, `ConvolutionFilter` and `TransformFilter`: the three filters.
  Each is an imperative method on an `array<real>`. Each is proved equal to a
  specification function of the buffer as it was before the call
  (`Remapped`, `Convolved`, `Transformed`).

Numbers are exact reals and integers. Clocks, I/O and the GWT wiring play no part.

Three facts about the code are worth stating outright:

- Convolution rounds each sum with `(sum + 0.5) | 0`, which truncates toward
  zero. So negative sums do not round half-up: -1 becomes 0, where
  `floor(-1 + 0.5)` is -1 (`JsNumber.HalfAddTruncIsNotFloor`).
- A convolution tap outside the image reads the current row or column. This
  is the same as an edge clamp for offsets of at most one
  (`ConvolutionFilter.FallbackIsClampForUnitOffset`) and differs once the
  offset exceeds one (`ConvolutionFilter.FallbackIsNotClamp`).
- In exact arithmetic, converting RGB to HSV and back gives the colour
  exactly (`ColorSpace.RgbHsvRoundTrip`).

## Model

| member | source | states |
|---|---|---|
| JsNumber.Trunc | src/main/java/com/ait/lienzo/client/core/image/filter/ImageDataFilterCommonOps.java:120-122 | truncation toward zero: same sign as the argument and within one of it, on the side of zero |
| JsNumber.ToInt32 | src/main/java/com/ait/lienzo/client/core/image/filter/ImageDataFilterCommonOps.java:120-122 | the result is a signed 32-bit value congruent to the input modulo 2^32, and equal to it when it already fits |
| JsNumber.BitOrZero | src/main/java/com/ait/lienzo/client/core/image/filter/ImageDataFilterCommonOps.java:120-122 | `v \| 0` is a signed 32-bit value, and is the truncation of `v` whenever that is in range |
| JsNumber.JsRem | src/main/java/com/ait/lienzo/client/core/image/filter/ImageDataFilterCommonOps.java:49 | JavaScript `%`: the result differs from the dividend by a multiple of n; it is the mathematical remainder for a non-negative dividend and lies in (-n, 0] for a negative one |
| JsNumber.HalfAddTruncIsNotFloor | src/main/java/com/ait/lienzo/client/core/image/filter/ImageDataFilterCommonOps.java:120-122 | a sum of -1 rounds to 0 under `(sum + 0.5) \| 0`, while floor(sum + 0.5) is -1 |
| JsNumber.HalfAddTruncOfInteger | src/main/java/com/ait/lienzo/client/core/image/filter/ImageDataFilterCommonOps.java:120-122 | a whole sum n in [0, 2^31) rounds to n itself |
| ColorSpace.Max3 | src/main/java/com/ait/lienzo/client/core/image/filter/ImageDataFilterCommonOps.java:61 | `Math.max` of three values is an upper bound that is one of them |
| ColorSpace.Min3 | src/main/java/com/ait/lienzo/client/core/image/filter/ImageDataFilterCommonOps.java:61 | `Math.min` of three values is a lower bound that is one of them |
| ColorSpace.RgbToHsv | src/main/java/com/ait/lienzo/client/core/image/filter/ImageDataFilterCommonOps.java:59-76 | hue lies in [0, 1); a grey has hue 0 and saturation 0; value is the largest channel over 255; byte-range inputs give saturation and value in [0, 1] |
| ColorSpace.HueSixths | src/main/java/com/ait/lienzo/client/core/image/filter/ImageDataFilterCommonOps.java:68-72 | the `switch(max)` hue sector, trying r, then g, then b; whichever case it picks, the value before `h /= 6` lies in [0, 6) |
| ColorSpace.HsvToRgb | src/main/java/com/ait/lienzo/client/core/image/filter/ImageDataFilterCommonOps.java:42-58 | zero saturation gives the grey (255v, 255v, 255v) whatever the hue |
| ColorSpace.SectorChannels | src/main/java/com/ait/lienzo/client/core/image/filter/ImageDataFilterCommonOps.java:49-56 | the `switch(i % 6)` (`Sector`): v goes to channel r, g, g, b, b, r and p to channel b, b, r, r, g, g for sectors 0 to 5, and the remaining channel gets t in even sectors and q in odd ones |
| ColorSpace.HsvToRgbInRange | src/main/java/com/ait/lienzo/client/core/image/filter/ImageDataFilterCommonOps.java:42-58 | saturation and value in [0, 1] give every output channel in [0, 255], in all six sectors |
| ColorSpace.RgbHsvRoundTrip | src/main/java/com/ait/lienzo/client/core/image/filter/ImageDataFilterCommonOps.java:42-76 | for non-negative channels, HSV of an RGB colour selects a case of the switch, and converting back gives exactly the colour |
| ColorSpace.ChromaticRoundTrip | src/main/java/com/ait/lienzo/client/core/image/filter/ImageDataFilterCommonOps.java:42-76 | for a chromatic colour, the hue, saturation and value computed from it pass the `switch` guard and convert back to the colour |
| ColorSpace.SectorRecovers | src/main/java/com/ait/lienzo/client/core/image/filter/ImageDataFilterCommonOps.java:49-56 | the sector picked from the hue, with the p/q/t formulas, rebuilds the channels of a chromatic colour |
| Interpolation.Clamp | src/main/java/com/ait/lienzo/client/core/image/filter/ImageDataFilterCommonOps.java:162-164 | for lo <= hi the result is in [lo, hi], and it equals the input exactly when the input is in [lo, hi] |
| Interpolation.ClampIsNearest | src/main/java/com/ait/lienzo/client/core/image/filter/ImageDataFilterCommonOps.java:162-164 | the clamped value is the point of [lo, hi] nearest the input |
| Interpolation.ClampIdempotent | src/main/java/com/ait/lienzo/client/core/image/filter/ImageDataFilterCommonOps.java:162-164 | clamping twice is clamping once |
| Interpolation.LinearInterpolate | src/main/java/com/ait/lienzo/client/core/image/filter/ImageDataFilterCommonOps.java:131-133 | t = 0 gives a and t = 1 gives b; the result is the affine mix (1 - t) a + t b |
| Interpolation.LinearInterpolateBetween | src/main/java/com/ait/lienzo/client/core/image/filter/ImageDataFilterCommonOps.java:131-133 | for t in [0, 1] the result lies between a and b |
| Interpolation.BilinearChannel | src/main/java/com/ait/lienzo/client/core/image/filter/ImageDataFilterCommonOps.java:140-152 | one channel weighted as the source does, `cy * (cx * c0 + x * c1) + y * (cx * c2 + x * c3)`; the four corner offsets give the four corner values |
| Interpolation.BilinearChannelIsLinear | src/main/java/com/ait/lienzo/client/core/image/filter/ImageDataFilterCommonOps.java:140-152 | the source's `cx`/`cy` weighting of one channel is two interpolations along x followed by one along y |
| Interpolation.BilinearInterpolate | src/main/java/com/ait/lienzo/client/core/image/filter/ImageDataFilterCommonOps.java:134-154 | every channel, alpha included, is the y-interpolation of the two x-interpolations; the four corner offsets return the four corner colours |
| Interpolation.MixColors | src/main/java/com/ait/lienzo/client/core/image/filter/ImageDataFilterCommonOps.java:155-161 | each channel, alpha included, is (1 - t) c1 + t c2; t = 0 gives c1 and t = 1 gives c2 |
| Interpolation.BilinearIsMixOfMixes | src/main/java/com/ait/lienzo/client/core/image/filter/ImageDataFilterCommonOps.java:134-161 | bilinear interpolation equals mixColors along y of two mixColors along x |
| Interpolation.BilinearCentreIsAverage | src/main/java/com/ait/lienzo/client/core/image/filter/ImageDataFilterCommonOps.java:134-154 | at (0.5, 0.5) each channel is the plain average of the four corners |
| Interpolation.BilinearBetween | src/main/java/com/ait/lienzo/client/core/image/filter/ImageDataFilterCommonOps.java:134-154 | for offsets in the unit square each channel stays between the least and the greatest corner value |
| Interpolation.BilinearKeepsBytes | src/main/java/com/ait/lienzo/client/core/image/filter/ImageDataFilterCommonOps.java:134-154 | interpolating four colours with channels in [0, 255], at offsets in the unit square, gives channels in [0, 255] |
| Interpolation.Luminocity | src/main/java/com/ait/lienzo/client/core/image/filter/ImageDataFilterCommonOps.java:165-167 | a grey maps to its own level, and byte-range inputs give a result in [0, 255] (the weights sum to 1) |
| PixelSampler.IndexInBounds | src/main/java/com/ait/lienzo/client/core/image/filter/ImageDataFilterCommonOps.java:169 | every channel of every pixel of the image lies inside a buffer of w * h * 4 entries |
| PixelSampler.DecodeIndex | src/main/java/com/ait/lienzo/client/core/image/filter/ImageDataFilterCommonOps.java:169 | a position `(y * w + x) * 4 + c` decodes back to x, y and c |
| PixelSampler.EncodeIndex | src/main/java/com/ait/lienzo/client/core/image/filter/ImageDataFilterCommonOps.java:169 | every buffer position is the encoding of exactly one in-image pixel and channel |
| PixelSampler.GetPixel | src/main/java/com/ait/lienzo/client/core/image/filter/ImageDataFilterCommonOps.java:168-179 | the result is the stored pixel at x clamped to [0, w - 1] and y clamped to [0, h - 1], taken independently; for image data in [0, 255] its channels lie in [0, 255] |
| PixelSampler.GetPixelInside | src/main/java/com/ait/lienzo/client/core/image/filter/ImageDataFilterCommonOps.java:177-178 | inside the image, getPixel returns the stored pixel |
| PixelSampler.GetPixelClamps | src/main/java/com/ait/lienzo/client/core/image/filter/ImageDataFilterCommonOps.java:170-176 | a coordinate and its clamped coordinate fetch the same pixel (no wrap, no mirror) |
| PixelSampler.GetPixelLeftEdge | src/main/java/com/ait/lienzo/client/core/image/filter/ImageDataFilterCommonOps.java:170-176 | on a 10 x 10 image, (-1, 5) fetches the same colour as (0, 5) |
| PixelSampler.CopyInto | src/main/java/com/ait/lienzo/client/core/image/filter/ImageDataFilterCommonOps.java:126-129 | after the element copy loop the destination holds exactly the source's entries |
| TableFilter.Remapped | src/main/java/com/ait/lienzo/client/core/image/filter/ImageDataFilterCommonOps.java:81-83 | the reference result of the remap: each R, G and B entry becomes a value of the table, and each alpha entry is unchanged |
| TableFilter.FilterTable | src/main/java/com/ait/lienzo/client/core/image/filter/ImageDataFilterCommonOps.java:77-86 | on a square image, every R, G and B entry v becomes table[v] and every alpha entry is unchanged |
| TableFilter.RemapIdentity | src/main/java/com/ait/lienzo/client/core/image/filter/ImageDataFilterCommonOps.java:77-86 | the identity table leaves the buffer unchanged |
| TableFilter.Visits | src/main/java/com/ait/lienzo/client/core/image/filter/ImageDataFilterCommonOps.java:78-80 | the pixel numbers two nested loops visit, in order: `rows * cols` steps, row `y` starting at pixel `y * stride` |
| TableFilter.VisitsAt | src/main/java/com/ait/lienzo/client/core/image/filter/ImageDataFilterCommonOps.java:78-80 | step `y * cols + x` of the two nested loops touches pixel `y * stride + x` |
| TableFilter.RowMajorVisitsAll | src/main/java/com/ait/lienzo/client/core/image/filter/ImageDataFilterCommonOps.java:78-80 | loops bounded by h (rows) and w (columns) touch every pixel exactly once, in order |
| TableFilter.AsWrittenVisitsAllIff | src/main/java/com/ait/lienzo/client/core/image/filter/ImageDataFilterCommonOps.java:78-79 | the loops as written (rows bounded by w, columns by h) touch every pixel exactly once if and only if w == h, w <= 1 or h == 0 |
| TableFilter.NonSquareVisits | src/main/java/com/ait/lienzo/client/core/image/filter/ImageDataFilterCommonOps.java:78-79 | on a 2 x 3 image the loops remap pixel 2 twice and skip pixel 5; on a 3 x 2 image they skip pixels 2 and 5 and reach pixels 6 and 7, past the end |
| TableFilter.FilterTableByRows | src/main/java/com/ait/lienzo/client/core/image/filter/ImageDataFilterCommonOps.java:77-86 | with the bounds the layout calls for, any w x h image is remapped as in FilterTable |
| ConvolutionFilter.Side | src/main/java/com/ait/lienzo/client/core/image/filter/ImageDataFilterCommonOps.java:90 | the kernel side is the least k with k * k >= length |
| ConvolutionFilter.SideOfSquare | src/main/java/com/ait/lienzo/client/core/image/filter/ImageDataFilterCommonOps.java:90 | for a perfect-square kernel length, the side is the exact square root |
| ConvolutionFilter.Fallback | src/main/java/com/ait/lienzo/client/core/image/filter/ImageDataFilterCommonOps.java:98-112 | the out-of-range policy for both axes: a tap row (lines 98-104) or column (lines 109-112) outside the image is replaced by the current one, so the position read is always inside the image |
| ConvolutionFilter.FallbackIsClampForUnitOffset | src/main/java/com/ait/lienzo/client/core/image/filter/ImageDataFilterCommonOps.java:98-104 | for offsets of at most one, falling back to the current row is the same as clamping to the edge |
| ConvolutionFilter.FallbackIsNotClamp | src/main/java/com/ait/lienzo/client/core/image/filter/ImageDataFilterCommonOps.java:98-104 | two rows above row 1 the tap reads row 1, where an edge clamp would read row 0 |
| ConvolutionFilter.TapInKernel | src/main/java/com/ait/lienzo/client/core/image/filter/ImageDataFilterCommonOps.java:105-107 | every kernel position `moff + col` lies in [0, k * k) |
| ConvolutionFilter.TapBounds | src/main/java/com/ait/lienzo/client/core/image/filter/ImageDataFilterCommonOps.java:105-116 | the weight `matrix[moff + col]` and the reads at `ipix + 0..2` are in range for every tap |
| ConvolutionFilter.Tap | src/main/java/com/ait/lienzo/client/core/image/filter/ImageDataFilterCommonOps.java:107-116 | the contribution of one tap: the kernel weight times the entry at the tap's fallback row and column; a zero weight contributes 0, so skipping it changes nothing |
| ConvolutionFilter.RowSum | src/main/java/com/ait/lienzo/client/core/image/filter/ImageDataFilterCommonOps.java:106-118 | the sum of the first n taps of a kernel row; an all-zero kernel sums to 0 |
| ConvolutionFilter.KernelSum | src/main/java/com/ait/lienzo/client/core/image/filter/ImageDataFilterCommonOps.java:97-119 | the sum over the first n kernel rows; an all-zero kernel sums to 0 |
| ConvolutionFilter.ConvolvedAt | src/main/java/com/ait/lienzo/client/core/image/filter/ImageDataFilterCommonOps.java:120-123 | the value stored at one position: alpha keeps its old value, and R, G and B get `(sum + 0.5) \| 0` of the kernel sum, a whole number in the signed 32-bit range |
| ConvolutionFilter.Convolved | src/main/java/com/ait/lienzo/client/core/image/filter/ImageDataFilterCommonOps.java:93-125 | the reference result of the whole pass over the pre-call buffer: same length, alpha entries unchanged, colour entries whole numbers |
| ConvolutionFilter.AccumulateTap | src/main/java/com/ait/lienzo/client/core/image/filter/ImageDataFilterCommonOps.java:107-117 | one pass of the `col` loop adds exactly that tap to each of r, g and b; a zero weight adds nothing |
| ConvolutionFilter.AccumulateRow | src/main/java/com/ait/lienzo/client/core/image/filter/ImageDataFilterCommonOps.java:98-118 | one pass of the `row` loop adds the sum of that kernel row's taps to each accumulator |
| ConvolutionFilter.ConvolvePixel | src/main/java/com/ait/lienzo/client/core/image/filter/ImageDataFilterCommonOps.java:96-119 | the three accumulators end as the full kernel sums of R, G and B at the pixel |
| ConvolutionFilter.StorePixel | src/main/java/com/ait/lienzo/client/core/image/filter/ImageDataFilterCommonOps.java:95-123 | writing the rounded sums and the old alpha extends the finished part of the scratch buffer by one pixel |
| ConvolutionFilter.ConvolveRow | src/main/java/com/ait/lienzo/client/core/image/filter/ImageDataFilterCommonOps.java:94-124 | one pass of the `y` loop finishes one more row of the scratch buffer |
| ConvolutionFilter.FilterConvolve | src/main/java/com/ait/lienzo/client/core/image/filter/ImageDataFilterCommonOps.java:87-130 | the buffer ends as the convolution of its old contents: R, G and B are rounded kernel sums of pre-call values only, and alpha is its old value |
| ConvolutionFilter.ConvolvedKeepsAlpha | src/main/java/com/ait/lienzo/client/core/image/filter/ImageDataFilterCommonOps.java:123 | the filter leaves every alpha entry unchanged |
| ConvolutionFilter.ConvolvedAtPixel | src/main/java/com/ait/lienzo/client/core/image/filter/ImageDataFilterCommonOps.java:120-123 | the results for pixel (x, y) are the rounded sums for R, G and B and the stored alpha |
| ConvolutionFilter.PixelDone | src/main/java/com/ait/lienzo/client/core/image/filter/ImageDataFilterCommonOps.java:120-123 | writing the four results of a pixel, and nothing else, extends the finished prefix of the scratch buffer by that pixel |
| ConvolutionFilter.CentreTap | src/main/java/com/ait/lienzo/client/core/image/filter/ImageDataFilterCommonOps.java:105-107 | in an odd kernel, weight `k * k / 2` is read exactly for the middle tap of the middle row |
| ConvolutionFilter.IdentityTap | src/main/java/com/ait/lienzo/client/core/image/filter/ImageDataFilterCommonOps.java:107-116 | with the identity kernel a tap adds the entry under the pixel for the centre tap and nothing for any other |
| ConvolutionFilter.IdentityRowSum | src/main/java/com/ait/lienzo/client/core/image/filter/ImageDataFilterCommonOps.java:106-118 | with the identity kernel only the middle row contributes, and it contributes the entry under the pixel |
| ConvolutionFilter.IdentityKernelSum | src/main/java/com/ait/lienzo/client/core/image/filter/ImageDataFilterCommonOps.java:97-119 | with the identity kernel, the kernel sum is the entry under the pixel |
| ConvolutionFilter.ConvolveIdentity | src/main/java/com/ait/lienzo/client/core/image/filter/ImageDataFilterCommonOps.java:87-130 | convolving whole-number pixel data with the identity kernel leaves it unchanged |
| TransformFilter.Sample | src/main/java/com/ait/lienzo/client/core/image/filter/ImageDataFilterCommonOps.java:191-208 | the bilinear sample at a source point: the four pixels at and after its floor, fetched by getPixel, weighted by its fractional parts; image data in [0, 255] gives a sample in [0, 255] |
| TransformFilter.TransformedAt | src/main/java/com/ait/lienzo/client/core/image/filter/ImageDataFilterCommonOps.java:189-212 | the value stored at one position: its channel of the sample at the point the map gives for its pixel, in [0, 255] for image data in [0, 255] |
| TransformFilter.Transformed | src/main/java/com/ait/lienzo/client/core/image/filter/ImageDataFilterCommonOps.java:187-214 | the reference result of the whole pass over the pre-call buffer: same length, and entries in [0, 255] stay in [0, 255] |
| TransformFilter.FastPathAgrees | src/main/java/com/ait/lienzo/client/core/image/filter/ImageDataFilterCommonOps.java:196-207 | away from the right and bottom edges, the direct reads at i, i + 4, i + 4w and i + 4(w + 1) are getPixel at the four neighbours |
| TransformFilter.SamplePixel | src/main/java/com/ait/lienzo/client/core/image/filter/ImageDataFilterCommonOps.java:190-208 | whichever branch it takes, the colour for pixel (x, y) is the bilinear sample at the mapped point, over getPixel neighbours of the pre-call buffer |
| TransformFilter.StorePixel | src/main/java/com/ait/lienzo/client/core/image/filter/ImageDataFilterCommonOps.java:189-212 | writing the sample extends the finished part of the scratch buffer by one pixel |
| TransformFilter.TransformRow | src/main/java/com/ait/lienzo/client/core/image/filter/ImageDataFilterCommonOps.java:188-213 | one pass of the `y` loop finishes one more row of the scratch buffer |
| TransformFilter.FilterTransform | src/main/java/com/ait/lienzo/client/core/image/filter/ImageDataFilterCommonOps.java:180-219 | the buffer ends as the resampling of its old contents; every entry depends only on pre-call values |
| TransformFilter.TransformedAtPixel | src/main/java/com/ait/lienzo/client/core/image/filter/ImageDataFilterCommonOps.java:209-212 | the four results for pixel (x, y) are the four channels of its sample |
| TransformFilter.FirstPixel | src/main/java/com/ait/lienzo/client/core/image/filter/ImageDataFilterCommonOps.java:209-212 | the first four entries of the result are the channels of the sample for pixel (0, 0) |
| TransformFilter.PixelDone | src/main/java/com/ait/lienzo/client/core/image/filter/ImageDataFilterCommonOps.java:209-212 | writing the four channels of a pixel's sample, and nothing else, extends the finished prefix of the scratch buffer by that pixel |
| TransformFilter.SampleAtPixel | src/main/java/com/ait/lienzo/client/core/image/filter/ImageDataFilterCommonOps.java:191-208 | at a whole in-image coordinate both weights are 0 and the sample is the stored pixel |
| TransformFilter.TransformIdentity | src/main/java/com/ait/lienzo/client/core/image/filter/ImageDataFilterCommonOps.java:180-219 | the identity map leaves every buffer unchanged |
| TransformFilter.SampleInCell | src/main/java/com/ait/lienzo/client/core/image/filter/ImageDataFilterCommonOps.java:191-208 | a point with whole parts (x0, y0) is sampled from that cell's four pixels, weighted by its fractional parts |
| TransformFilter.CentreSample | src/main/java/com/ait/lienzo/client/core/image/filter/ImageDataFilterCommonOps.java:191-208 | at (0.5, 0.5) the sample averages the four pixels of the top-left cell |
| TransformFilter.CornerPixels | src/main/java/com/ait/lienzo/client/core/image/filter/ImageDataFilterCommonOps.java:168-179 | getPixel on the 2 x 2 buffer returns red, green, blue and white at its four pixels |
| TransformFilter.CornersSample | src/main/java/com/ait/lienzo/client/core/image/filter/ImageDataFilterCommonOps.java:191-208 | on the 2 x 2 red, green, blue and white buffer, the sample at (0.5, 0.5) is (127.5, 127.5, 127.5, 255) |
| TransformFilter.CornersCentre | src/main/java/com/ait/lienzo/client/core/image/filter/ImageDataFilterCommonOps.java:180-219 | a map sending pixel (0, 0) to (0.5, 0.5) turns it into (127.5, 127.5, 127.5, 255) on that buffer |

## Left out

- The Java wrapper class is not modelled: the `make` factory, `getTypeName`,
  `getLength` and the three `doFilter...` forwarders (lines 27-38 and
  222-245). They only build the object or forward their arguments to the
  functions above.
- IEEE-754 double arithmetic, NaN and infinities are left out. Values are
  exact reals, so rounding error does not arise.
- JavaScript arrays grow on write and read `undefined` out of range. The
  model uses fixed arrays whose length is `w * h * 4`, and every read is
  proved in range. A host typed array's clamping of stored values (to
  integers in [0, 255]) is outside the engine and is not modelled. Pixel
  entries are plain reals.
- The transform callback writes into an `xfrm` array. Here it is a pure
  function `(int, int) -> (real, real)` that returns the pair.
- Interpolation.Clamp: modelled on integers only, its one use in the core.
- ColorSpace.HsvToRgb: requires `Math.floor(h * 6) % 6 >= 0`. A negative
  remainder matches no `case`, and the source then returns `undefined * 255`,
  which is NaN; NaN is not modelled.
- ConvolutionFilter.Side: `Math.sqrt` is modelled as the integer square root.
  The filter requires the kernel length to be the square of an odd number,
  as its loops require. `(rows / 2) | 0` is written as integer division, which
  agrees for every such side.
- ConvolutionFilter.ConvolveIdentity: stated for whole-number colour entries
  in [0, 2^31), because the `| 0` rounding only returns such values unchanged.
- TableFilter.FilterTable: stated for square images only (see Findings). It
  requires every colour entry to be a whole-number index into the table. A
  non-integral entry would read `undefined`, which is not modelled.

## Findings

| source | as written | input that shows it | evidently intended | confidence | as-written member | corrected member |
|---|---|---|---|---|---|---|
| src/main/java/com/ait/lienzo/client/core/image/filter/ImageDataFilterCommonOps.java:78-79 | `filterTable` bounds the row loop by `w` and the column loop by `h`, while indexing `(y * w + x) * 4` | w = 2, h = 3: pixel 2 is remapped twice and pixel 5 never; w = 3, h = 2: pixels 2 and 5 are skipped and pixels 6 and 7 (past the end) are written | rows bounded by `h`, columns by `w`, so every pixel is remapped once | medium, not executed | TableFilter.AsWrittenVisitsAllIff | TableFilter.FilterTableByRows |
