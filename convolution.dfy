/** Convolution kernels and the convolution of an image with a kernel:
    edge-replicated sampling, a per-channel weighted sum, a clamp of each sum
    to a byte and a repack with opaque alpha.

    The source keeps weights as `float` and accumulates into an `int`; each
    `RedValue += Red * Weight` computes the sum in floating point and
    truncates it back to an integer. Here weights are exact reals and every
    step truncates toward zero in the same way. The kernels the tool builds
    have weights k/4, k/16 and k/256, which a `float` holds exactly, and the
    partial sums stay far below 2^24, so for them the reals compute what the
    floats do. */
module Convolution {
  import opened Pixels
  import opened Images
  import Grid

  /** C's `%` on `int`: the remainder takes the sign of the dividend. */
  function CRemainder(a: int, b: int): (r: int)
    requires 0 < b
    ensures 0 <= a ==> 0 <= r < b
    ensures a < 0 ==> -b < r <= 0
    ensures (a - r) % b == 0
  {
    if 0 <= a then
      assert a - a % b == (a / b) * b;
      Grid.DivModUnique(a - a % b, b, a / b, 0);
      a % b
    else
      assert a + (-a) % b == -((-a) / b) * b;
      Grid.DivModUnique(a + (-a) % b, b, -((-a) / b), 0);
      -((-a) % b)
  }

  /** `n % 2 == 1` holds in C exactly for the positive odd numbers. */
  lemma OddTestAcceptsPositiveOdd(n: int)
    ensures CRemainder(n, 2) == 1 <==> 0 < n && n % 2 == 1
  {
  }

  /** A kernel: `Width * Height` weights stored row by row, both sides odd so
      that the centre cell is `(Width / 2, Height / 2)`. */
  class Kernel {
    const Width: int
    const Height: int
    const Data: array<real>

    predicate Valid()
    {
      0 < Width && Width % 2 == 1 && 0 < Height && Height % 2 == 1 &&
      Data.Length == Width * Height
    }

    constructor (width: int, height: int, data: array<real>)
      ensures Width == width && Height == height && Data == data
    {
      Width := width;
      Height := height;
      Data := data;
    }
  }

  /** Allocates a kernel of odd size with every weight zero; the source
      aborts on an even (or non-positive) side. */
  method MakeNewKernel(width: int, height: int) returns (kernel: Kernel)
    requires CRemainder(width, 2) == 1 && CRemainder(height, 2) == 1
    ensures fresh(kernel) && fresh(kernel.Data) && kernel.Valid()
    ensures kernel.Width == width && kernel.Height == height
    ensures forall i :: 0 <= i < kernel.Data.Length ==> kernel.Data[i] == 0.0
  {
    OddTestAcceptsPositiveOdd(width);
    OddTestAcceptsPositiveOdd(height);
    var data := new real[width * height];
    var y := 0;
    while y < height
      invariant 0 <= y <= height
      invariant Grid.Index(0, y, width) <= data.Length
      invariant forall i :: 0 <= i < Grid.Index(0, y, width) ==> data[i] == 0.0
    {
      var x := 0;
      while x < width
        invariant 0 <= x <= width
        invariant Grid.Index(x, y, width) <= data.Length
        invariant forall i :: 0 <= i < Grid.Index(x, y, width) ==> data[i] == 0.0
      {
        Grid.IndexInBounds(x, y, width, height);
        Grid.NextColumn(x, y, width);
        data[Grid.Index(x, y, width)] := 0.0;
        x := x + 1;
      }
      Grid.NextRow(y, width);
      y := y + 1;
    }
    kernel := new Kernel(width, height, data);
  }

  /** Every kernel offset `(dx, dy)` in `[-w/2, w/2] x [-h/2, h/2]` names a
      cell of the kernel, and no two offsets name the same cell. */
  lemma KernelOffsetIndex(dx: int, dy: int, dx': int, dy': int, kw: int, kh: int)
    requires 0 < kw && kw % 2 == 1 && 0 < kh && kh % 2 == 1
    requires -(kw / 2) <= dx <= kw / 2 && -(kh / 2) <= dy <= kh / 2
    requires -(kw / 2) <= dx' <= kw / 2 && -(kh / 2) <= dy' <= kh / 2
    ensures 0 <= Grid.Index(dx + kw / 2, dy + kh / 2, kw) < kw * kh
    ensures Grid.Index(dx + kw / 2, dy + kh / 2, kw) == Grid.Index(dx' + kw / 2, dy' + kh / 2, kw)
      ==> dx == dx' && dy == dy'
  {
    Grid.IndexInBounds(dx + kw / 2, dy + kh / 2, kw, kh);
    if Grid.Index(dx + kw / 2, dy + kh / 2, kw) == Grid.Index(dx' + kw / 2, dy' + kh / 2, kw) {
      Grid.IndexInjective(dx + kw / 2, dy + kh / 2, dx' + kw / 2, dy' + kh / 2, kw);
    }
  }

  /** Every kernel cell is named by some offset. */
  lemma KernelCellOffset(cell: int, kw: int, kh: int)
    requires 0 < kw && kw % 2 == 1 && 0 < kh && kh % 2 == 1
    requires 0 <= cell < kw * kh
    ensures -(kw / 2) <= cell % kw - kw / 2 <= kw / 2
    ensures -(kh / 2) <= cell / kw - kh / 2 <= kh / 2
    ensures Grid.Index((cell % kw - kw / 2) + kw / 2, (cell / kw - kh / 2) + kh / 2, kw) == cell
  {
    Grid.IndexEncode(cell, kw);
    if kh <= cell / kw {
      Grid.MulMonotonic(kh, cell / kw, kw);
    }
  }

  function Distance(a: int, b: int): nat
  {
    if a <= b then b - a else a - b
  }

  /** Pulls `value` into `[min, max]`. */
  function Clamp(value: int, min: int, max: int): (r: int)
    ensures r == value || r == min || r == max
    ensures min <= max ==> min <= r <= max
    ensures min <= value <= max ==> r == value
  {
    if value < min then min
    else if value > max then max
    else value
  }

  /** Of all the points of `[min, max]`, `Clamp` picks one nearest to `value`. */
  lemma ClampNearest(value: int, min: int, max: int, z: int)
    requires min <= z <= max
    ensures Distance(Clamp(value, min, max), value) <= Distance(z, value)
  {
  }

  /** C's conversion of a floating-point value to `int`: toward zero. */
  function TruncateToInt(x: real): int
  {
    if 0.0 <= x then x.Floor else -((-x).Floor)
  }

  /** `TruncateToInt` drops the fractional part: it rounds down a
      non-negative value and rounds up a negative one. */
  lemma TruncateTowardZero(x: real)
    ensures 0.0 <= x ==> TruncateToInt(x) as real <= x < TruncateToInt(x) as real + 1.0
    ensures x < 0.0 ==> TruncateToInt(x) as real - 1.0 < x <= TruncateToInt(x) as real
  {
  }

  datatype Channel = RedChannel | GreenChannel | BlueChannel

  /** The value of one channel byte of a pixel. */
  function ChannelValue(p: Pixel, c: Channel): (v: int)
    ensures 0 <= v < 256
  {
    match c
    case RedChannel => (Red(p) as bv8) as int
    case GreenChannel => (Green(p) as bv8) as int
    case BlueChannel => (Blue(p) as bv8) as int
  }

  /** The channel values are the bytes the source unpacks with
      `(ExtractRed(Pixel) >> 0) & 0xFF` and its two siblings. */
  lemma ChannelValueUnpacked(p: Pixel)
    ensures ChannelValue(p, RedChannel) == RedByte(p) as int
    ensures ChannelValue(p, GreenChannel) == GreenByte(p) as int
    ensures ChannelValue(p, BlueChannel) == BlueByte(p) as int
  {
    NarrowByte(RedByte(p));
    NarrowByte(GreenByte(p));
    NarrowByte(BlueByte(p));
  }

  lemma NarrowByte(b: Pixel)
    requires b < 256
    ensures (b as bv8) as int == b as int
  {
  }

  /** Turning a channel value back into a byte gives the pixel's own byte. */
  lemma ByteOfChannelValue(p: Pixel)
    ensures ByteOf(ChannelValue(p, RedChannel)) == Red(p)
    ensures ByteOf(ChannelValue(p, GreenChannel)) == Green(p)
    ensures ByteOf(ChannelValue(p, BlueChannel)) == Blue(p)
  {
    ChannelValueUnpacked(p);
    SameValue(ByteOf(ChannelValue(p, RedChannel)), Red(p));
    SameValue(ByteOf(ChannelValue(p, GreenChannel)), Green(p));
    SameValue(ByteOf(ChannelValue(p, BlueChannel)), Blue(p));
  }

  /** Two pixels with the same numeric value are the same pixel. */
  lemma SameValue(a: Pixel, b: Pixel)
    requires a as int == b as int
    ensures a == b
  {
    assert (a as int) as bv32 == a;
    assert (b as int) as bv32 == b;
  }

  /** Repacking the three channel values of a pixel gives the pixel made opaque. */
  lemma PackChannelValues(p: Pixel)
    ensures Pack(ByteOf(ChannelValue(p, RedChannel)), ByteOf(ChannelValue(p, GreenChannel)),
                 ByteOf(ChannelValue(p, BlueChannel))) == p | OpaqueAlpha
  {
    ByteOfChannelValue(p);
    PackOfChannels(p);
  }

  /** The buffer position sampled for output pixel `(x, y)` and kernel offset
      `(dx, dy)`: the position `(x + dx, y + dy)` itself when it lies inside
      the image, and otherwise the pixel of the image nearest to it, so that
      the border pixels are repeated outwards. */
  function SampleIndex(x: int, y: int, dx: int, dy: int, width: int, height: int): (r: int)
    requires 0 < width && 0 < height
    ensures 0 <= r < width * height
  {
    var column := Clamp(x + dx, 0, width - 1);
    var row := Clamp(y + dy, 0, height - 1);
    Grid.IndexInBounds(column, row, width, height);
    Grid.Index(column, row, width)
  }

  /** A position inside the image is sampled itself. */
  lemma SampleIndexInside(x: int, y: int, dx: int, dy: int, width: int, height: int)
    requires 0 <= x + dx < width && 0 <= y + dy < height
    ensures SampleIndex(x, y, dx, dy, width, height) == Grid.Index(x + dx, y + dy, width)
  {
  }

  /** The sampled pixel decodes to the column and the row of the image
      nearest to `(x + dx, y + dy)`, as `Clamp` picks them. */
  lemma SampleIndexNearest(x: int, y: int, dx: int, dy: int, width: int, height: int)
    requires 0 < width && 0 < height
    ensures SampleIndex(x, y, dx, dy, width, height) % width == Clamp(x + dx, 0, width - 1)
    ensures SampleIndex(x, y, dx, dy, width, height) / width == Clamp(y + dy, 0, height - 1)
  {
    Grid.IndexDecode(Clamp(x + dx, 0, width - 1), Clamp(y + dy, 0, height - 1), width);
  }

  /** The position the source samples: its clamp bounds are `Width` and
      `Height` rather than `Width - 1` and `Height - 1`. */
  function SampleIndexAsWritten(x: int, y: int, dx: int, dy: int, width: int, height: int): (r: int)
    requires 0 < width && 0 < height
    ensures 0 <= r
  {
    Grid.Index(Clamp(x + dx, 0, width), Clamp(y + dy, 0, height), width)
  }

  /** The source's sample agrees with edge replication exactly when the
      offset does not reach past the right or the bottom edge. */
  lemma AsWrittenAgreesIff(x: int, y: int, dx: int, dy: int, width: int, height: int)
    requires 0 < width && 0 < height
    ensures SampleIndexAsWritten(x, y, dx, dy, width, height) == SampleIndex(x, y, dx, dy, width, height)
      <==> x + dx < width && y + dy < height
  {
    var column, row := Clamp(x + dx, 0, width - 1), Clamp(y + dy, 0, height - 1);
    var column', row' := Clamp(x + dx, 0, width), Clamp(y + dy, 0, height);
    assert SampleIndex(x, y, dx, dy, width, height) == Grid.Index(column, row, width);
    assert SampleIndexAsWritten(x, y, dx, dy, width, height) == Grid.Index(column', row', width);
    if x + dx >= width || y + dy >= height {
      assert column <= column' && row <= row';
      Grid.MulMonotonic(row, row', width);
      if row < row' {
        Grid.MulMonotonic(row + 1, row', width);
      }
    }
  }

  /** For any kernel larger than 1x1, the source reads at or past the end of
      the buffer when it samples around the bottom-right pixel. */
  lemma AsWrittenReadsPastEnd(width: int, height: int, kw: int, kh: int)
    requires 0 < width && 0 < height
    requires 0 < kw && kw % 2 == 1 && 0 < kh && kh % 2 == 1
    requires 1 < kw || 1 < kh
    ensures SampleIndexAsWritten(width - 1, height - 1, kw / 2, kh / 2, width, height) >= width * height
  {
    var column := Clamp(width - 1 + kw / 2, 0, width);
    var row := Clamp(height - 1 + kh / 2, 0, height);
    if 1 < kh {
      assert row == height;
      Grid.MulNonNegative(height, width);
    } else {
      assert column == width && row == height - 1;
    }
  }

  /** With the source's bound, sampling one step right of the last pixel of
      the first row reads the first pixel of the second row. */
  lemma AsWrittenWrapsToNextRow(width: int, height: int)
    requires 0 < width && 1 < height
    ensures SampleIndexAsWritten(width - 1, 0, 1, 0, width, height) == Grid.Index(0, 1, width)
    ensures SampleIndex(width - 1, 0, 1, 0, width, height) == Grid.Index(width - 1, 0, width)
  {
  }

  /** C's `acc += value * weight` with an `int` accumulator and a `float`
      weight: the sum is formed in floating point and truncated back. */
  function AddWeighted(acc: int, value: int, weight: real): int
  {
    TruncateToInt(acc as real + value as real * weight)
  }

  /** The value of one channel's accumulator once the kernel rows before
      `row`, and the first `column` cells of row `row`, have been visited,
      in the order of the source's `Dy`/`Dx` loops. Kernel cell
      `(column, row)` lies at offset `(column - kw / 2, row - kh / 2)` from
      the centre; each addition is truncated back to an integer. */
  function Accumulate(src: seq<Pixel>, width: int, height: int, weights: seq<real>,
                      kw: int, kh: int, x: int, y: int, c: Channel, row: nat, column: nat): int
    requires 0 < width && 0 < height && |src| == width * height
    requires 0 < kw && 0 < kh && |weights| == kw * kh
    requires (row < kh && column <= kw) || (row == kh && column == 0)
    decreases row, column
  {
    if column == 0 then
      if row == 0 then 0 else Accumulate(src, width, height, weights, kw, kh, x, y, c, row - 1, kw)
    else
      Grid.IndexInBounds(column - 1, row, kw, kh);
      AddWeighted(Accumulate(src, width, height, weights, kw, kh, x, y, c, row, column - 1),
                  ChannelValue(src[SampleIndex(x, y, column - 1 - kw / 2, row - kh / 2, width, height)], c),
                  weights[Grid.Index(column - 1, row, kw)])
  }

  /** The whole accumulation of one channel, clamped to a byte. */
  function ChannelResult(src: seq<Pixel>, width: int, height: int, weights: seq<real>,
                         kw: int, kh: int, x: int, y: int, c: Channel): (v: int)
    requires 0 < width && 0 < height && |src| == width * height
    requires 0 < kw && 0 < kh && |weights| == kw * kh
    ensures 0 <= v <= 255
  {
    Clamp(Accumulate(src, width, height, weights, kw, kh, x, y, c, kh, 0), 0, 255)
  }

  /** Output pixel `(x, y)`: the three clamped sums under an opaque alpha. */
  function ConvolvePixel(src: seq<Pixel>, width: int, height: int, weights: seq<real>,
                         kw: int, kh: int, x: int, y: int): (r: Pixel)
    requires 0 < width && 0 < height && |src| == width * height
    requires 0 < kw && 0 < kh && |weights| == kw * kh
    ensures Alpha(r) == 0xFF
  {
    Pack(ByteOf(ChannelResult(src, width, height, weights, kw, kh, x, y, RedChannel)),
         ByteOf(ChannelResult(src, width, height, weights, kw, kh, x, y, GreenChannel)),
         ByteOf(ChannelResult(src, width, height, weights, kw, kh, x, y, BlueChannel)))
  }

  /** The three channel bytes of an output pixel are the clamped channel sums. */
  lemma ConvolvePixelChannels(src: seq<Pixel>, width: int, height: int, weights: seq<real>,
                              kw: int, kh: int, x: int, y: int)
    requires 0 < width && 0 < height && |src| == width * height
    requires 0 < kw && 0 < kh && |weights| == kw * kh
    ensures Red(ConvolvePixel(src, width, height, weights, kw, kh, x, y)) as int
         == ChannelResult(src, width, height, weights, kw, kh, x, y, RedChannel)
    ensures Green(ConvolvePixel(src, width, height, weights, kw, kh, x, y)) as int
         == ChannelResult(src, width, height, weights, kw, kh, x, y, GreenChannel)
    ensures Blue(ConvolvePixel(src, width, height, weights, kw, kh, x, y)) as int
         == ChannelResult(src, width, height, weights, kw, kh, x, y, BlueChannel)
  {
  }

  /** The convolved image: the pixel at the index of `(x, y)` is the one
      convolved around `(x, y)`. */
  function Convolve(src: seq<Pixel>, width: int, height: int, weights: seq<real>,
                    kw: int, kh: int): (r: seq<Pixel>)
    requires 0 <= width && 0 <= height && |src| == width * height
    requires 0 < kw && 0 < kh && |weights| == kw * kh
    ensures |r| == |src|
  {
    if width == 0 || height == 0 then []
    else seq(width * height, i requires 0 <= i < width * height =>
               ConvolvePixel(src, width, height, weights, kw, kh, i % width, i / width))
  }

  /** The output pixel stored at the index of `(x, y)` is the one convolved
      around `(x, y)`. */
  lemma ConvolveAt(src: seq<Pixel>, width: int, height: int, weights: seq<real>,
                   kw: int, kh: int, x: int, y: int)
    requires 0 <= width && 0 <= height && |src| == width * height
    requires 0 < kw && 0 < kh && |weights| == kw * kh
    requires 0 <= x < width && 0 <= y < height
    ensures 0 <= Grid.Index(x, y, width) < |src|
    ensures Convolve(src, width, height, weights, kw, kh)[Grid.Index(x, y, width)]
         == ConvolvePixel(src, width, height, weights, kw, kh, x, y)
  {
    Grid.IndexInBounds(x, y, width, height);
    Grid.IndexDecode(x, y, width);
  }

  /** Allocates a new image of the same size holding the convolution of
      `image` with `kernel`. */
  method ApplyConvolution(image: Image, kernel: Kernel) returns (result: Image)
    requires image.Valid() && kernel.Valid()
    ensures fresh(result) && fresh(result.Data) && result.Valid()
    ensures result.Width == image.Width && result.Height == image.Height
    ensures result.Data[..] == Convolve(image.Data[..], image.Width, image.Height,
                                        kernel.Data[..], kernel.Width, kernel.Height)
  {
    ghost var src, weights := image.Data[..], kernel.Data[..];
    var kw, kh := kernel.Width, kernel.Height;
    result := MakeEmptyImage(image.Width, image.Height, true);
    var width, height := result.Width, result.Height;
    ghost var convolved := Convolve(src, width, height, weights, kw, kh);
    var y := 0;
    while y < height
      invariant 0 <= y <= height
      invariant Grid.Index(0, y, width) <= result.Data.Length
      invariant forall i :: 0 <= i < Grid.Index(0, y, width) ==> result.Data[i] == convolved[i]
    {
      var x := 0;
      while x < width
        invariant 0 <= x <= width
        invariant Grid.Index(x, y, width) <= result.Data.Length
        invariant forall i :: 0 <= i < Grid.Index(x, y, width) ==> result.Data[i] == convolved[i]
      {
        var resultPixel := ConvolvePixelAt(image, kernel, x, y);
        ConvolveAt(src, width, height, weights, kw, kh, x, y);
        Grid.NextColumn(x, y, width);
        result.Data[Grid.Index(x, y, width)] := resultPixel;
        x := x + 1;
      }
      Grid.NextRow(y, width);
      y := y + 1;
    }
    assert Grid.Index(0, y, width) == result.Data.Length;
  }

  /** One output pixel: the three weighted sums around `(x, y)`, each
      clamped to a byte, under an opaque alpha. */
  method ConvolvePixelAt(image: Image, kernel: Kernel, x: int, y: int) returns (resultPixel: Pixel)
    requires image.Valid() && kernel.Valid()
    requires 0 <= x < image.Width && 0 <= y < image.Height
    ensures resultPixel == ConvolvePixel(image.Data[..], image.Width, image.Height, kernel.Data[..],
                                         kernel.Width, kernel.Height, x, y)
  {
    var red, green, blue := AccumulateAt(image, kernel, x, y);
    red := Clamp(red, 0, 255);
    green := Clamp(green, 0, 255);
    blue := Clamp(blue, 0, 255);
    resultPixel := Pack(ByteOf(red), ByteOf(green), ByteOf(blue));
  }

  /** The weighted sums of the three channels around output pixel `(x, y)`:
      the source's `Dy` loop. */
  method AccumulateAt(image: Image, kernel: Kernel, x: int, y: int)
    returns (red: int, green: int, blue: int)
    requires image.Valid() && kernel.Valid()
    requires 0 <= x < image.Width && 0 <= y < image.Height
    ensures red == Accumulate(image.Data[..], image.Width, image.Height, kernel.Data[..],
                              kernel.Width, kernel.Height, x, y, RedChannel, kernel.Height, 0)
    ensures green == Accumulate(image.Data[..], image.Width, image.Height, kernel.Data[..],
                                kernel.Width, kernel.Height, x, y, GreenChannel, kernel.Height, 0)
    ensures blue == Accumulate(image.Data[..], image.Width, image.Height, kernel.Data[..],
                               kernel.Width, kernel.Height, x, y, BlueChannel, kernel.Height, 0)
  {
    ghost var src, weights := image.Data[..], kernel.Data[..];
    var width, height, kw, kh := image.Width, image.Height, kernel.Width, kernel.Height;
    red, green, blue := 0, 0, 0;
    var dy := -(kh / 2);
    while dy <= kh / 2
      invariant -(kh / 2) <= dy <= kh / 2 + 1
      invariant red == Accumulate(src, width, height, weights, kw, kh, x, y, RedChannel, dy + kh / 2, 0)
      invariant green == Accumulate(src, width, height, weights, kw, kh, x, y, GreenChannel, dy + kh / 2, 0)
      invariant blue == Accumulate(src, width, height, weights, kw, kh, x, y, BlueChannel, dy + kh / 2, 0)
    {
      red, green, blue := AccumulateRow(image, kernel, x, y, dy, red, green, blue);
      dy := dy + 1;
    }
  }

  /** Adds the kernel row at vertical offset `dy` to the three sums: the
      source's `Dx` loop. */
  method AccumulateRow(image: Image, kernel: Kernel, x: int, y: int, dy: int,
                       red0: int, green0: int, blue0: int)
    returns (red: int, green: int, blue: int)
    requires image.Valid() && kernel.Valid()
    requires 0 <= x < image.Width && 0 <= y < image.Height
    requires -(kernel.Height / 2) <= dy <= kernel.Height / 2
    requires red0 == Accumulate(image.Data[..], image.Width, image.Height, kernel.Data[..],
                                kernel.Width, kernel.Height, x, y, RedChannel, dy + kernel.Height / 2, 0)
    requires green0 == Accumulate(image.Data[..], image.Width, image.Height, kernel.Data[..],
                                  kernel.Width, kernel.Height, x, y, GreenChannel, dy + kernel.Height / 2, 0)
    requires blue0 == Accumulate(image.Data[..], image.Width, image.Height, kernel.Data[..],
                                 kernel.Width, kernel.Height, x, y, BlueChannel, dy + kernel.Height / 2, 0)
    ensures red == Accumulate(image.Data[..], image.Width, image.Height, kernel.Data[..],
                              kernel.Width, kernel.Height, x, y, RedChannel, dy + kernel.Height / 2 + 1, 0)
    ensures green == Accumulate(image.Data[..], image.Width, image.Height, kernel.Data[..],
                                kernel.Width, kernel.Height, x, y, GreenChannel, dy + kernel.Height / 2 + 1, 0)
    ensures blue == Accumulate(image.Data[..], image.Width, image.Height, kernel.Data[..],
                               kernel.Width, kernel.Height, x, y, BlueChannel, dy + kernel.Height / 2 + 1, 0)
  {
    ghost var src, weights := image.Data[..], kernel.Data[..];
    var width, height, kw, kh := image.Width, image.Height, kernel.Width, kernel.Height;
    red, green, blue := red0, green0, blue0;
    var dx := -(kw / 2);
    while dx <= kw / 2
      invariant -(kw / 2) <= dx <= kw / 2 + 1
      invariant red == Accumulate(src, width, height, weights, kw, kh, x, y, RedChannel,
                                  dy + kh / 2, dx + kw / 2)
      invariant green == Accumulate(src, width, height, weights, kw, kh, x, y, GreenChannel,
                                    dy + kh / 2, dx + kw / 2)
      invariant blue == Accumulate(src, width, height, weights, kw, kh, x, y, BlueChannel,
                                   dy + kh / 2, dx + kw / 2)
    {
      var xCoord := Clamp(x + dx, 0, width - 1);
      var yCoord := Clamp(y + dy, 0, height - 1);
      assert Grid.Index(xCoord, yCoord, width) == SampleIndex(x, y, dx, dy, width, height);
      var pixel := image.Data[Grid.Index(xCoord, yCoord, width)];
      Grid.IndexInBounds(dx + kw / 2, dy + kh / 2, kw, kh);
      var weight := kernel.Data[Grid.Index(dx + kw / 2, dy + kh / 2, kw)];
      red := AddWeighted(red, ChannelValue(pixel, RedChannel), weight);
      green := AddWeighted(green, ChannelValue(pixel, GreenChannel), weight);
      blue := AddWeighted(blue, ChannelValue(pixel, BlueChannel), weight);
      dx := dx + 1;
    }
  }

  /** A kernel with one cell of weight 1 leaves every channel of every pixel as it is. */
  lemma IdentityKernelChannel(src: seq<Pixel>, width: int, height: int, x: int, y: int, c: Channel)
    requires 0 < width && 0 < height && |src| == width * height
    requires 0 <= x < width && 0 <= y < height
    ensures 0 <= Grid.Index(x, y, width) < |src|
    ensures ChannelResult(src, width, height, [1.0], 1, 1, x, y, c) == ChannelValue(src[Grid.Index(x, y, width)], c)
  {
    Grid.IndexInBounds(x, y, width, height);
    SampleIndexInside(x, y, 0, 0, width, height);
    var v := ChannelValue(src[Grid.Index(x, y, width)], c);
    assert Accumulate(src, width, height, [1.0], 1, 1, x, y, c, 0, 1) == AddWeighted(0, v, 1.0);
    assert (v as real).Floor == v;
  }

  /** With that kernel each output pixel is its input pixel made opaque. */
  lemma IdentityKernelPixel(src: seq<Pixel>, width: int, height: int, x: int, y: int)
    requires 0 < width && 0 < height && |src| == width * height
    requires 0 <= x < width && 0 <= y < height
    ensures 0 <= Grid.Index(x, y, width) < |src|
    ensures ConvolvePixel(src, width, height, [1.0], 1, 1, x, y) == src[Grid.Index(x, y, width)] | OpaqueAlpha
  {
    IdentityKernelChannel(src, width, height, x, y, RedChannel);
    IdentityKernelChannel(src, width, height, x, y, GreenChannel);
    IdentityKernelChannel(src, width, height, x, y, BlueChannel);
    PackChannelValues(src[Grid.Index(x, y, width)]);
  }

  /** Convolving an opaque image with the 1-by-1 kernel of weight 1 gives
      the image back. */
  lemma IdentityKernel(src: seq<Pixel>, width: int, height: int)
    requires 0 <= width && 0 <= height && |src| == width * height
    requires forall i :: 0 <= i < |src| ==> Alpha(src[i]) == 0xFF
    ensures Convolve(src, width, height, [1.0], 1, 1) == src
  {
    var r := Convolve(src, width, height, [1.0], 1, 1);
    forall i | 0 <= i < |src|
      ensures r[i] == src[i]
    {
      Grid.IndexEncode(i, width);
      var x, y := i % width, i / width;
      if height <= y {
        Grid.MulMonotonic(height, y, width);
      }
      ConvolveAt(src, width, height, [1.0], 1, 1, x, y);
      IdentityKernelPixel(src, width, height, x, y);
    }
  }

  /** The accumulator after the first `n` kernel cells when every sample has
      the channel value `value`. */
  function UniformSum(weights: seq<real>, value: int, n: nat): int
    requires n <= |weights|
  {
    if n == 0 then 0 else AddWeighted(UniformSum(weights, value, n - 1), value, weights[n - 1])
  }

  /** On an image whose pixels are all `p`, where the kernel lies does not
      matter: the accumulator depends only on how many cells were visited. */
  lemma {:induction false} AccumulateUniform(src: seq<Pixel>, width: int, height: int, weights: seq<real>,
                                             kw: int, kh: int, x: int, y: int, c: Channel,
                                             row: nat, column: nat, p: Pixel)
    requires 0 < width && 0 < height && |src| == width * height
    requires 0 < kw && 0 < kh && |weights| == kw * kh
    requires (row < kh && column <= kw) || (row == kh && column == 0)
    requires forall i :: 0 <= i < |src| ==> src[i] == p
    ensures 0 <= Grid.Index(column, row, kw) <= |weights|
    ensures Accumulate(src, width, height, weights, kw, kh, x, y, c, row, column)
         == UniformSum(weights, ChannelValue(p, c), Grid.Index(column, row, kw))
    decreases row, column
  {
    KernelCellBound(row, column, kw, kh);
    if column == 0 {
      if row != 0 {
        AccumulateUniform(src, width, height, weights, kw, kh, x, y, c, row - 1, kw, p);
        Grid.NextRow(row - 1, kw);
      }
    } else {
      AccumulateUniform(src, width, height, weights, kw, kh, x, y, c, row, column - 1, p);
      Grid.NextColumn(column - 1, row, kw);
      AccumulateUniformStep(src, width, height, weights, kw, kh, x, y, c, row, column, p);
    }
  }

  /** One cell of a uniform image adds the weighted channel value of `p`. */
  lemma AccumulateUniformStep(src: seq<Pixel>, width: int, height: int, weights: seq<real>,
                              kw: int, kh: int, x: int, y: int, c: Channel,
                              row: nat, column: nat, p: Pixel)
    requires 0 < width && 0 < height && |src| == width * height
    requires 0 < kw && 0 < kh && |weights| == kw * kh
    requires row < kh && 0 < column <= kw
    requires forall i :: 0 <= i < |src| ==> src[i] == p
    ensures 0 <= Grid.Index(column - 1, row, kw) < |weights|
    ensures Accumulate(src, width, height, weights, kw, kh, x, y, c, row, column)
         == AddWeighted(Accumulate(src, width, height, weights, kw, kh, x, y, c, row, column - 1),
                        ChannelValue(p, c), weights[Grid.Index(column - 1, row, kw)])
  {
    Grid.IndexInBounds(column - 1, row, kw, kh);
    var sample := SampleIndex(x, y, column - 1 - kw / 2, row - kh / 2, width, height);
    assert src[sample] == p;
  }

  /** The number of kernel cells visited before cell `(column, row)` is at
      most the size of the kernel. */
  lemma KernelCellBound(row: nat, column: nat, kw: int, kh: int)
    requires 0 < kw && 0 < kh
    requires (row < kh && column <= kw) || (row == kh && column == 0)
    ensures 0 <= Grid.Index(column, row, kw) <= kw * kh
  {
    if row == kh {
      Grid.NextRow(kh - 1, kw);
    } else {
      Grid.MulNonNegative(row, kw);
      Grid.MulMonotonic(row + 1, kh, kw);
    }
  }

  /** Every channel of every output pixel of a uniform image is the clamped
      sum of the weights applied, one truncated step at a time, to that
      pixel's channel value. */
  lemma ConvolveUniform(src: seq<Pixel>, width: int, height: int, weights: seq<real>,
                        kw: int, kh: int, x: int, y: int, c: Channel, p: Pixel)
    requires 0 < width && 0 < height && |src| == width * height
    requires 0 < kw && 0 < kh && |weights| == kw * kh
    requires forall i :: 0 <= i < |src| ==> src[i] == p
    ensures ChannelResult(src, width, height, weights, kw, kh, x, y, c)
         == Clamp(UniformSum(weights, ChannelValue(p, c), |weights|), 0, 255)
  {
    AccumulateUniform(src, width, height, weights, kw, kh, x, y, c, kh, 0, p);
  }

  /** On a uniform image of a gray pixel, every output pixel is a gray whose
      channels are the clamped uniform sum. */
  lemma ConvolveUniformGray(src: seq<Pixel>, width: int, height: int, weights: seq<real>,
                            kw: int, kh: int, x: int, y: int, p: Pixel)
    requires 0 < width && 0 < height && |src| == width * height
    requires 0 < kw && 0 < kh && |weights| == kw * kh
    requires forall i :: 0 <= i < |src| ==> src[i] == p
    requires Red(p) == Green(p) == Blue(p)
    ensures ConvolvePixel(src, width, height, weights, kw, kh, x, y)
         == Pack(ByteOf(Clamp(UniformSum(weights, ChannelValue(p, RedChannel), |weights|), 0, 255)),
                 ByteOf(Clamp(UniformSum(weights, ChannelValue(p, RedChannel), |weights|), 0, 255)),
                 ByteOf(Clamp(UniformSum(weights, ChannelValue(p, RedChannel), |weights|), 0, 255)))
  {
    ConvolveUniform(src, width, height, weights, kw, kh, x, y, RedChannel, p);
    ConvolveUniform(src, width, height, weights, kw, kh, x, y, GreenChannel, p);
    ConvolveUniform(src, width, height, weights, kw, kh, x, y, BlueChannel, p);
    assert ChannelValue(p, GreenChannel) == ChannelValue(p, RedChannel);
    assert ChannelValue(p, BlueChannel) == ChannelValue(p, RedChannel);
  }

  /** With every weight zero, as `MakeNewKernel` leaves them, each
      accumulator stays 0. */
  lemma {:induction false} ZeroKernelAccumulate(src: seq<Pixel>, width: int, height: int, weights: seq<real>,
                                                kw: int, kh: int, x: int, y: int, c: Channel,
                                                row: nat, column: nat)
    requires 0 < width && 0 < height && |src| == width * height
    requires 0 < kw && 0 < kh && |weights| == kw * kh
    requires (row < kh && column <= kw) || (row == kh && column == 0)
    requires forall i :: 0 <= i < |weights| ==> weights[i] == 0.0
    ensures Accumulate(src, width, height, weights, kw, kh, x, y, c, row, column) == 0
    decreases row, column
  {
    if column == 0 {
      if row != 0 {
        ZeroKernelAccumulate(src, width, height, weights, kw, kh, x, y, c, row - 1, kw);
      }
    } else {
      ZeroKernelAccumulate(src, width, height, weights, kw, kh, x, y, c, row, column - 1);
      Grid.IndexInBounds(column - 1, row, kw, kh);
      assert weights[Grid.Index(column - 1, row, kw)] == 0.0;
    }
  }

  /** A kernel of zero weights turns every pixel opaque black. */
  lemma ZeroKernelPixel(src: seq<Pixel>, width: int, height: int, weights: seq<real>,
                        kw: int, kh: int, x: int, y: int)
    requires 0 < width && 0 < height && |src| == width * height
    requires 0 < kw && 0 < kh && |weights| == kw * kh
    requires forall i :: 0 <= i < |weights| ==> weights[i] == 0.0
    ensures ConvolvePixel(src, width, height, weights, kw, kh, x, y) == OpaqueAlpha
  {
    ZeroKernelAccumulate(src, width, height, weights, kw, kh, x, y, RedChannel, kh, 0);
    ZeroKernelAccumulate(src, width, height, weights, kw, kh, x, y, GreenChannel, kh, 0);
    ZeroKernelAccumulate(src, width, height, weights, kw, kh, x, y, BlueChannel, kh, 0);
    assert ConvolvePixel(src, width, height, weights, kw, kh, x, y) == Pack(ByteOf(0), ByteOf(0), ByteOf(0));
    OpaqueBlack();
  }

  lemma OpaqueBlack()
    ensures Pack(ByteOf(0), ByteOf(0), ByteOf(0)) == OpaqueAlpha
  {
    assert ByteOf(0) == 0;
  }

  /** Every output pixel is opaque. */
  lemma ConvolveOpaque(src: seq<Pixel>, width: int, height: int, weights: seq<real>, kw: int, kh: int)
    requires 0 <= width && 0 <= height && |src| == width * height
    requires 0 < kw && 0 < kh && |weights| == kw * kh
    ensures forall i :: 0 <= i < |src| ==> Alpha(Convolve(src, width, height, weights, kw, kh)[i]) == 0xFF
  {
  }

  /** The 3-by-3 blur kernel the tool builds: 1-2-1, 2-3-2, 1-2-1 over 16.
      Its weights add up to 15/16, not 1. */
  const Gaussian3x3: seq<real> := [1.0 / 16.0, 2.0 / 16.0, 1.0 / 16.0,
                                   2.0 / 16.0, 3.0 / 16.0, 2.0 / 16.0,
                                   1.0 / 16.0, 2.0 / 16.0, 1.0 / 16.0]

  /** The sum of a sequence of weights. */
  function Sum(s: seq<real>): real
  {
    if s == [] then 0.0 else s[0] + Sum(s[1..])
  }

  /** The blur kernel's weights add up to 15/16. */
  lemma GaussianWeightsSum()
    ensures Sum(Gaussian3x3) == 15.0 / 16.0
  {
    assert Gaussian3x3[8..] == [1.0 / 16.0];
    assert Sum(Gaussian3x3[8..]) == 1.0 / 16.0;
    assert Sum(Gaussian3x3[7..]) == 3.0 / 16.0 by { assert Gaussian3x3[7..][1..] == Gaussian3x3[8..]; }
    assert Sum(Gaussian3x3[6..]) == 4.0 / 16.0 by { assert Gaussian3x3[6..][1..] == Gaussian3x3[7..]; }
    assert Sum(Gaussian3x3[5..]) == 6.0 / 16.0 by { assert Gaussian3x3[5..][1..] == Gaussian3x3[6..]; }
    assert Sum(Gaussian3x3[4..]) == 9.0 / 16.0 by { assert Gaussian3x3[4..][1..] == Gaussian3x3[5..]; }
    assert Sum(Gaussian3x3[3..]) == 11.0 / 16.0 by { assert Gaussian3x3[3..][1..] == Gaussian3x3[4..]; }
    assert Sum(Gaussian3x3[2..]) == 12.0 / 16.0 by { assert Gaussian3x3[2..][1..] == Gaussian3x3[3..]; }
    assert Sum(Gaussian3x3[1..]) == 14.0 / 16.0 by { assert Gaussian3x3[1..][1..] == Gaussian3x3[2..]; }
  }

  /** The running sums of a channel of 255 through that kernel, each step
      truncated: 15, 46, 61, 92, 139, 170, 185, 216 and 231. */
  lemma GaussianSumOfWhite()
    ensures UniformSum(Gaussian3x3, 255, 9) == 231
  {
    assert UniformSum(Gaussian3x3, 255, 1) == 15;
    assert UniformSum(Gaussian3x3, 255, 2) == 46;
    assert UniformSum(Gaussian3x3, 255, 3) == 61;
    assert UniformSum(Gaussian3x3, 255, 4) == 92;
    assert UniformSum(Gaussian3x3, 255, 5) == 139;
    assert UniformSum(Gaussian3x3, 255, 6) == 170;
    assert UniformSum(Gaussian3x3, 255, 7) == 185;
    assert UniformSum(Gaussian3x3, 255, 8) == 216;
  }

  /** A white image blurred with that kernel is not white: every channel of
      every output pixel is 231. */
  lemma GaussianBlurOfWhite(src: seq<Pixel>, width: int, height: int, x: int, y: int, c: Channel)
    requires 0 < width && 0 < height && |src| == width * height
    requires forall i :: 0 <= i < |src| ==> src[i] == 0xFFFF_FFFF
    ensures ChannelResult(src, width, height, Gaussian3x3, 3, 3, x, y, c) == 231
  {
    ConvolveUniform(src, width, height, Gaussian3x3, 3, 3, x, y, c, 0xFFFF_FFFF);
    WhiteChannel(c);
    GaussianSumOfWhite();
  }

  lemma WhiteChannel(c: Channel)
    ensures ChannelValue(0xFFFF_FFFF, c) == 255
  {
    NarrowByte(0xFF);
  }

  /** As pixels: the blurred white image is the opaque gray 0xFFE7E7E7. */
  lemma GaussianBlurOfWhitePixel(src: seq<Pixel>, width: int, height: int, x: int, y: int)
    requires 0 < width && 0 < height && |src| == width * height
    requires forall i :: 0 <= i < |src| ==> src[i] == 0xFFFF_FFFF
    ensures ConvolvePixel(src, width, height, Gaussian3x3, 3, 3, x, y) == 0xFFE7_E7E7
  {
    ConvolveUniformGray(src, width, height, Gaussian3x3, 3, 3, x, y, 0xFFFF_FFFF);
    WhiteChannel(RedChannel);
    GaussianSumOfWhite();
    OpaqueGray231();
  }

  lemma OpaqueGray231()
    ensures Pack(ByteOf(231), ByteOf(231), ByteOf(231)) == 0xFFE7_E7E7
  {
    assert ByteOf(231) == 0xE7;
  }
}
