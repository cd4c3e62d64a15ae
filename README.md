# image_stuff core in Dafny

This is a model of the image-processing core of the `image_stuff` tool, `source/main.cpp`, lines 22–284. An image is a buffer of `Width * Height` packed 32-bit pixels stored row by row. Red sits in bits 0–7, green in 8–15, blue in 16–23 and alpha in 24–31. The tool does four kinds of work:

- per-pixel bit operations: channel extraction and grayscale by average;
- buffer operations: copy, allocate, transform in place;
- an append-only list of named images;
- convolution with an odd-sized kernel, using edge-replicated sampling, a per-channel weighted sum, a clamp of each sum to a byte and a repack with opaque alpha.

Modules:

- `Pixels` (`pixels.dfy`): a pixel is a `bv32`. It holds the masks, the extractors, the byte unpacking and repacking, and `GrayscaleAverage`.
- `Grid` (`grid.dfy`): row-major addressing `x + y * width`. Its lemmas say that addressing is in bounds, injective and onto, and how it steps along a row and across rows.
- `Images` (`images.dfy`): the `image` record as a class whose buffer is an `array<Pixel>`. It has `CopyImage`, `MakeEmptyImage` and `ApplyTransform` as loops over that array. `ApplyTransform` is specified by the function `Transformed`.
- `Catalog` (`catalog.dfy`): the `image_entry` record, and the registry as a class holding a `seq` that `AddImageEntry` appends to.
- `Convolution` (`convolution.dfy`): the `kernel` record, `MakeNewKernel`, `Clamp` and `ApplyConvolution`.
  - The convolution loops are methods: `ApplyConvolution` runs the Y/X loops, `AccumulateAt` the Dy loop, and `AccumulateRow` the Dx loop.
  - They are proved against the functions `Convolve`, `ConvolvePixel`, `ChannelResult` and `Accumulate`.

Arithmetic follows the C source:

- `n % 2` uses C's truncating remainder (`CRemainder`).
- The sample offsets start at `-(Kernel->Height / 2)`.
- Each `RedValue += Red * Weight` is formed exactly and then truncated toward zero back to an `int` (`AddWeighted`, `TruncateToInt`), as the `int += int * float` of the source does at every step.
- Kernel weights are exact reals. The kernels the tool builds have weights a `float` holds exactly, and their partial sums stay far below 2^24:
  - the two Gaussian blurs use k/16 and k/256 (source/main.cpp:381-420);
  - the two Sobel edge kernels use `SobelFactor * k / 4` with `SobelFactor = 2`, that is 0, ±0.5 and ±1 (source/main.cpp:427-452).

  For those kernels the real arithmetic gives what the float arithmetic gives.

The tool's 3×3 blur kernel (source/main.cpp:381-390) is 1-2-1 / 2-3-2 / 1-2-1 over 16. Its weights sum to 15/16 (`GaussianWeightsSum`), and every `+=` truncates. So a white image does not stay white: every channel becomes 231, and every pixel becomes `0xFFE7E7E7` (`GaussianBlurOfWhite`, `GaussianBlurOfWhitePixel`).

## Model

| member | source | states |
|---|---|---|
| Pixels.ExtractChannel | source/main.cpp:114-119 | the result has no bit outside the mask, and together with the bits of the pixel outside the mask it gives the pixel back: the mask keeps exactly its own bits |
| Pixels.ExtractRed | source/main.cpp:121 | keeps the alpha and red bytes of the pixel and zeroes green and blue |
| Pixels.ExtractGreen | source/main.cpp:122 | keeps the alpha and green bytes and zeroes red and blue |
| Pixels.ExtractBlue | source/main.cpp:123 | keeps the alpha and blue bytes and zeroes red and green |
| Pixels.MasksPartition | source/main.cpp:121-123 | the three extracted channels OR-ed together give the original pixel |
| Pixels.ExtractIdempotent | source/main.cpp:121-123 | extracting the same channel twice equals extracting it once, for each channel |
| Pixels.RedByte | source/main.cpp:157 | `(ExtractRed(p) >> 0) & 0xFF` is the red byte of `p`, below 256 |
| Pixels.GreenByte | source/main.cpp:158 | `(ExtractGreen(p) >> 8) & 0xFF` is the green byte, below 256 |
| Pixels.BlueByte | source/main.cpp:159 | `(ExtractBlue(p) >> 16) & 0xFF` is the blue byte, below 256 |
| Pixels.Pack | source/main.cpp:164-167 | `0xFF000000 \| r \| g << 8 \| b << 16` of bytes below 256 has alpha 0xFF and exactly those three channel bytes, so nothing spills into a neighbouring byte |
| Pixels.PackOfChannels | source/main.cpp:164-167 | repacking the unpacked bytes of a pixel gives the pixel with alpha forced to 0xFF |
| Pixels.ByteOf | source/main.cpp:274-277 | a channel sum already clamped to 0..255 becomes a pixel value below 256 whose numeric value is exactly that sum, so `RedValue << 0` and its siblings carry the clamped sums unchanged |
| Pixels.GrayscaleAverage | source/main.cpp:154-170 | the result is opaque and its three channel bytes all equal the truncated average `(r + g + b) / 3` of the input bytes; the input alpha does not matter |
| Pixels.GrayscaleAverageOfGray | source/main.cpp:161-167 | a pixel whose three channels agree comes back unchanged apart from alpha forced to 0xFF |
| Pixels.GrayscaleAverageIdempotent | source/main.cpp:161-167 | applying `GrayscaleAverage` twice equals applying it once |
| Grid.Index | source/main.cpp:57 | no contract of its own: the row-major address `X + Y * Width`, whose meaning `IndexInBounds`, `IndexInjective`, `IndexEncode` and `IndexDecode` state |
| Grid.IndexInBounds | source/main.cpp:53-59 | a cell `(x, y)` of a `width` by `height` grid has index `x + y * width` inside `[0, width * height)` |
| Grid.IndexInjective | source/main.cpp:175-182 | two different cells never share an index, so the row-major loops visit each buffer position once |
| Grid.IndexEncode | source/main.cpp:175-182 | every buffer position is the index of the cell `(i % width, i / width)`, so the loops visit every position |
| Images.Image.constructor | source/main.cpp:22-28 | an image record holds the given width, height and buffer |
| Images.CopyImage | source/main.cpp:45-62 | the result is a fresh image with a fresh buffer, the same width and height, and equal pixels position for position |
| Images.MakeEmptyImage | source/main.cpp:64-84 | the result is a fresh `Width * Height` image; with `FillZero` set every pixel is 0 |
| Images.Transformed | source/main.cpp:172-183 | the transformed pixel sequence has the input's length and holds `transform` of the input at every position |
| Images.TransformedIdempotent | source/main.cpp:172-183 | with an idempotent transform, such as an extractor, transforming twice equals transforming once |
| Images.ApplyTransform | source/main.cpp:172-183 | afterwards every pixel holds `transform` of its old value; only the image's buffer is modified, and the width, height and buffer stay the same |
| Images.ExtractRedOnRedAndWhite | source/main.cpp:121 | the red transform keeps an opaque red pixel and turns an opaque white pixel into opaque red |
| Catalog.ImageList.constructor | source/main.cpp:350 | a new registry is empty |
| Catalog.AddImageEntry | source/main.cpp:185-194 | exactly one entry with the given name and image is appended, earlier entries stay unchanged and in order, and the returned index is the old length (`size() - 1` after the push) |
| Catalog.RegisterOriginalAndRed | source/main.cpp:350-357 | after registering the original and its red-extracted copy, entry 0 is the untouched original and entry 1 holds the red channel of every original pixel, because the copy owns a fresh buffer |
| Convolution.CRemainder | source/main.cpp:207-208 | C's `%` by a positive divisor: `a - r` is a multiple of `b`, and `r` lies in `[0, b)` for a non-negative dividend and in `(-b, 0]` for a negative one, which fixes `r` to the remainder of truncating division |
| Convolution.OddTestAcceptsPositiveOdd | source/main.cpp:207-208 | the assertion `n % 2 == 1` holds exactly for positive odd `n` |
| Convolution.Kernel.constructor | source/main.cpp:196-201 | a kernel record holds the given width, height and weights |
| Convolution.MakeNewKernel | source/main.cpp:203-224 | given odd sides (the source asserts them), the result is a fresh valid kernel of that size with every weight 0 |
| Convolution.KernelOffsetIndex | source/main.cpp:251-264 | every offset `(Dx, Dy)` of the loops gives a weight index `(Dx + W/2) + (Dy + H/2) * W` inside `[0, W * H)`, and different offsets give different indices |
| Convolution.KernelCellOffset | source/main.cpp:251-264 | every kernel cell is reached by some offset within the loop bounds |
| Convolution.Clamp | source/main.cpp:226-236 | the result is the value, `Min` or `Max`; when `Min <= Max` it lies in `[Min, Max]`; a value already in range is returned unchanged |
| Convolution.ClampNearest | source/main.cpp:226-236 | no point of `[Min, Max]` is nearer to the value than the clamped result |
| Convolution.TruncateToInt | source/main.cpp:264-266 | no contract of its own: C's implicit conversion of the `float` sum back to `int`; `TruncateTowardZero` states what it does |
| Convolution.TruncateTowardZero | source/main.cpp:264-266 | the conversion of the sum back to `int` drops the fractional part: it rounds a non-negative sum down and a negative one up |
| Convolution.ChannelValue | source/main.cpp:260-262 | a channel value lies in `[0, 256)` |
| Convolution.ChannelValueUnpacked | source/main.cpp:260-262 | the three channel values are the bytes `(ExtractX(Pixel) >> k) & 0xFF` that the source unpacks |
| Convolution.ByteOfChannelValue | source/main.cpp:260-277 | turning an unpacked channel value back into a byte gives the pixel's own byte |
| Convolution.PackChannelValues | source/main.cpp:260-277 | repacking the three unpacked values gives the pixel with alpha forced to 0xFF |
| Convolution.SampleIndex | source/main.cpp:255-258 | (corrected bound) the sampled position always lies inside the buffer `[0, Width * Height)` |
| Convolution.SampleIndexInside | source/main.cpp:255-258 | when `(X + Dx, Y + Dy)` lies inside the image, that pixel itself is sampled |
| Convolution.SampleIndexNearest | source/main.cpp:255-258 | the sampled position decodes to the column and row clamped to the image, the nearest pixel of the image (edge replication) |
| Convolution.SampleIndexAsWritten | source/main.cpp:255-258 | the index the source computes with bounds `Width` and `Height` is non-negative |
| Convolution.AsWrittenAgreesIff | source/main.cpp:255-258 | the source's index equals the edge-replicated one exactly when the offset reaches neither past the right edge nor past the bottom edge |
| Convolution.AsWrittenReadsPastEnd | source/main.cpp:255-258 | for any kernel larger than 1×1, sampling around the bottom-right pixel reads at or past index `Width * Height` |
| Convolution.AsWrittenWrapsToNextRow | source/main.cpp:255-258 | one step right of the last pixel of the first row, the source reads the first pixel of the second row, where edge replication reads the last pixel of the first row |
| Convolution.AddWeighted | source/main.cpp:264-266 | no contract of its own: `RedValue += Red * Weight` with an `int` accumulator, the exact sum converted by `TruncateToInt`; `AccumulateUniformStep` and `ZeroKernelAccumulate` use it |
| Convolution.Accumulate | source/main.cpp:251-266 | no contract of its own: the reference definition of one channel's accumulator after the kernel cells the `Dy`/`Dx` loops have visited so far. `AccumulateRow` and `AccumulateAt` prove the loops compute it. `AccumulateUniform`, `ZeroKernelAccumulate` and `IdentityKernelChannel` state its value |
| Convolution.ChannelResult | source/main.cpp:270-272 | a channel's sum, clamped, lies in `[0, 255]` |
| Convolution.ConvolvePixel | source/main.cpp:274-279 | every output pixel has alpha 0xFF |
| Convolution.ConvolvePixelChannels | source/main.cpp:270-277 | the red, green and blue bytes of an output pixel are exactly the three clamped channel sums |
| Convolution.Convolve | source/main.cpp:239-284 | the output buffer has as many pixels as the input |
| Convolution.ConvolveAt | source/main.cpp:279 | the output pixel at index `X + Y * Width` is the one convolved around `(X, Y)`, and that index is in bounds |
| Convolution.ApplyConvolution | source/main.cpp:239-284 | allocates a fresh image with the input's dimensions and buffer size whose pixels are `Convolve` of the input pixels and the kernel weights |
| Convolution.ConvolvePixelAt | source/main.cpp:247-279 | the pixel computed for `(X, Y)` by the accumulation, the clamps and the repack is `ConvolvePixel` at `(X, Y)` |
| Convolution.AccumulateAt | source/main.cpp:247-268 | after the `Dy` loop, the three accumulators hold the full truncated weighted sums `Accumulate` of their channels |
| Convolution.AccumulateRow | source/main.cpp:253-267 | one pass of the `Dx` loop extends each accumulator by exactly one kernel row, visited left to right |
| Convolution.IdentityKernelChannel | source/main.cpp:239-284 | with the 1×1 kernel of weight 1, every output channel equals the input channel of the same pixel |
| Convolution.IdentityKernelPixel | source/main.cpp:239-284 | with that kernel, every output pixel is its input pixel with alpha forced to 0xFF |
| Convolution.IdentityKernel | source/main.cpp:239-284 | convolving an opaque image with that kernel gives back the same pixels |
| Convolution.AccumulateUniform | source/main.cpp:251-266 | on an image whose pixels are all equal, an accumulator depends only on the number of kernel cells visited, not on where the kernel lies |
| Convolution.AccumulateUniformStep | source/main.cpp:258-266 | on such an image each kernel cell adds the weighted channel value of the common pixel |
| Convolution.ConvolveUniform | source/main.cpp:239-284 | on such an image every output channel is the clamped, step-by-step truncated sum of the weights applied to that channel's value |
| Convolution.ConvolveUniformGray | source/main.cpp:239-284 | on a uniform image of a gray pixel, every output pixel is the opaque gray whose channels are the clamped uniform sum |
| Convolution.ZeroKernelAccumulate | source/main.cpp:251-266 | with every weight 0, as `MakeNewKernel` leaves them, each accumulator stays 0 throughout the loops |
| Convolution.ZeroKernelPixel | source/main.cpp:270-279 | a kernel of zero weights turns every output pixel into opaque black `0xFF000000` |
| Convolution.ConvolveOpaque | source/main.cpp:274-279 | every pixel of the convolved buffer has alpha 0xFF |
| Convolution.GaussianWeightsSum | source/main.cpp:381-390 | the nine weights of the tool's 3×3 blur kernel add up to 15/16, not 1 |
| Convolution.GaussianSumOfWhite | source/main.cpp:381-390 | the running truncated sums of a channel value of 255 through the tool's 3×3 blur kernel end at 231 |
| Convolution.GaussianBlurOfWhite | source/main.cpp:381-391 | the tool's 3×3 blur of an all-white image has every channel of every pixel equal to 231, not 255 |
| Convolution.GaussianBlurOfWhitePixel | source/main.cpp:381-391 | as pixels: every pixel of that blurred white image is `0xFFE7E7E7` |

## Left out

- `LoadImage` (source/main.cpp:36-43) is not part of this model. It wraps an image decoder that is not visible here. A loaded image is any `Image` with `Data.Length == Width * Height`.
- `LoadTextureFromImage` (source/main.cpp:87-110) and the `TextureID` field are not modelled, because they are an OpenGL upload with no checkable behaviour.
- `GrayscaleLuminance` (source/main.cpp:125-152) is left out, because it is float multiplication with implicit float-to-int conversion.
- `main` (source/main.cpp:287-531) is left out: window, GL and UI setup, the event loop, rendering and cleanup. Only the start of its pipeline (`RegisterOriginalAndRed`) and its 3×3 blur kernel (`Gaussian3x3`) appear.
- Floating-point rounding is not modelled: weights are exact reals. This matches `float` for the tool's dyadic kernel constants, but not for weights that a `float` cannot hold exactly.
- The 32-bit `int` accumulators of `ApplyConvolution` are unbounded here. Their overflow with very large weights is not modelled.
- The `unsigned char*` buffer reinterpreted as `int*`, and the little-endian byte order this relies on, are not modelled. Pixels are `bv32` values directly.
- The overflow of `Width * Height * 4` in the allocation size is not modelled.
- `malloc` failure is not modelled, because the source does not check it.
- `MakeEmptyImage`: with `FillZero` unset, the model states nothing about the contents, because the source leaves the buffer uninitialised.
- `Convolution.Convolve`, `Convolution.ConvolvePixel` and `Convolution.ChannelResult`: their own contracts give only the length, the opaque alpha and the byte range. What the output is, is stated by lemmas and methods:
  - `ConvolveAt` gives the pixel at each index;
  - `ConvolvePixelChannels` gives the channel bytes of each pixel;
  - `ApplyConvolution`, `ConvolvePixelAt` and `AccumulateAt` state the result of the loops;
  - the identity-kernel, zero-kernel and uniform-image lemmas give concrete values.
- `ApplyConvolution` uses the corrected sample clamp (`Width - 1`, `Height - 1`), not the source's out-of-bounds one. The source's behaviour past the end of the buffer is undefined, so it is not modelled beyond the index it computes (see Findings).

## Findings

| source | as written | input that shows it | evidently intended | confidence | as-written member | corrected member |
|---|---|---|---|---|---|---|
| source/main.cpp:255-258 | the sample coordinates are clamped to `[0, Width]` and `[0, Height]`, and the pixel is then read at `XCoord + YCoord * Width` | a 2×2 image with a 3×3 kernel: at `(1, 1)` with offset `(1, 1)` the read index is `2 + 2 * 2 = 6`, past the 4-pixel buffer; at `(1, 0)` with offset `(1, 0)` the read index is 2, the pixel `(0, 1)` of the next row | clamp to `[0, Width - 1]` and `[0, Height - 1]`, so that border pixels are repeated outwards and every read stays inside the buffer | high; not executed | Convolution.AsWrittenReadsPastEnd | Convolution.SampleIndex |
