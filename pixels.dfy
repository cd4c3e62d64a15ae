/** Packed 32-bit RGBA pixels and the per-pixel functions of the image tool.
    A pixel holds red in bits 0-7, green in bits 8-15, blue in bits 16-23 and
    alpha in bits 24-31. The source keeps pixels in a C `int`; every operation
    on them is bitwise or works on bytes already masked to 0..255, so a `bv32`
    carries exactly the same bits. */
module Pixels {

  type Pixel = bv32

  /** The three channel masks; each keeps the alpha byte as well. */
  const RedMask: Pixel := 0xFF0000FF
  const GreenMask: Pixel := 0xFF00FF00
  const BlueMask: Pixel := 0xFFFF0000

  /** The alpha byte of a fully opaque pixel, as every derived pixel carries it. */
  const OpaqueAlpha: Pixel := 0xFF000000

  // The byte layout, independent of the masks above.
  function Red(p: Pixel): Pixel { p & 0xFF }
  function Green(p: Pixel): Pixel { (p >> 8) & 0xFF }
  function Blue(p: Pixel): Pixel { (p >> 16) & 0xFF }
  function Alpha(p: Pixel): Pixel { p >> 24 }

  /** A pixel is determined by its four bytes. */
  lemma PixelFromBytes(p: Pixel, q: Pixel)
    requires Red(p) == Red(q) && Green(p) == Green(q)
    requires Blue(p) == Blue(q) && Alpha(p) == Alpha(q)
    ensures p == q
  {
  }

  /** Keeps exactly the bits of `pixel` that are set in `mask`. */
  function ExtractChannel(pixel: Pixel, mask: Pixel): (r: Pixel)
    ensures r & !mask == 0
    ensures r | (pixel & !mask) == pixel
  {
    pixel & mask
  }

  function ExtractRed(pixel: Pixel): (r: Pixel)
    ensures Alpha(r) == Alpha(pixel) && Red(r) == Red(pixel)
    ensures Green(r) == 0 && Blue(r) == 0
  {
    ExtractChannel(pixel, RedMask)
  }

  function ExtractGreen(pixel: Pixel): (r: Pixel)
    ensures Alpha(r) == Alpha(pixel) && Green(r) == Green(pixel)
    ensures Red(r) == 0 && Blue(r) == 0
  {
    ExtractChannel(pixel, GreenMask)
  }

  function ExtractBlue(pixel: Pixel): (r: Pixel)
    ensures Alpha(r) == Alpha(pixel) && Blue(r) == Blue(pixel)
    ensures Red(r) == 0 && Green(r) == 0
  {
    ExtractChannel(pixel, BlueMask)
  }

  /** The three extracted channels put back together give the pixel again. */
  lemma MasksPartition(p: Pixel)
    ensures ExtractRed(p) | ExtractGreen(p) | ExtractBlue(p) == p
  {
  }

  /** Extracting a channel twice is the same as extracting it once. */
  lemma ExtractIdempotent(p: Pixel)
    ensures ExtractRed(ExtractRed(p)) == ExtractRed(p)
    ensures ExtractGreen(ExtractGreen(p)) == ExtractGreen(p)
    ensures ExtractBlue(ExtractBlue(p)) == ExtractBlue(p)
  {
    assert ExtractRed(ExtractRed(p)) == ExtractRed(p);
  }

  /** A channel byte as the source unpacks it, `(Extract(p) >> shift) & 0xFF`. */
  function RedByte(p: Pixel): (v: Pixel)
    ensures v == Red(p) && v < 256
  {
    (ExtractRed(p) >> 0) & 0xFF
  }

  function GreenByte(p: Pixel): (v: Pixel)
    ensures v == Green(p) && v < 256
  {
    (ExtractGreen(p) >> 8) & 0xFF
  }

  function BlueByte(p: Pixel): (v: Pixel)
    ensures v == Blue(p) && v < 256
  {
    (ExtractBlue(p) >> 16) & 0xFF
  }

  /**
   * A channel value already clamped to 0..255, as the low byte of a pixel
   * (the clamped `int` that is shifted into place). It is defined by
   * counting up from 0, so its contract gives the byte's value directly.
   */
  function ByteOf(v: int): (b: Pixel)
    requires 0 <= v < 256
    ensures b < 256 && b as int == v
  {
    if v == 0 then 0 else ByteOf(v - 1) + 1
  }

  /** Repacks three channel bytes with an opaque alpha byte. */
  function Pack(red: Pixel, green: Pixel, blue: Pixel): (r: Pixel)
    requires red < 256 && green < 256 && blue < 256
    ensures Alpha(r) == 0xFF
    ensures Red(r) == red && Green(r) == green && Blue(r) == blue
  {
    OpaqueAlpha | (red << 0) | (green << 8) | (blue << 16)
  }

  /** Packing the channels of a pixel gives back the pixel with its alpha forced opaque. */
  lemma PackOfChannels(p: Pixel)
    ensures Pack(RedByte(p), GreenByte(p), BlueByte(p)) == p | OpaqueAlpha
  {
    var q := Pack(RedByte(p), GreenByte(p), BlueByte(p));
    PixelFromBytes(q, p | OpaqueAlpha);
  }

  /** Gray by the integer average of the three channels; the input alpha is ignored. */
  function GrayscaleAverage(pixel: Pixel): (r: Pixel)
    ensures Alpha(r) == 0xFF
    ensures Red(r) == (RedByte(pixel) + GreenByte(pixel) + BlueByte(pixel)) / 3
    ensures Green(r) == Red(r) && Blue(r) == Red(r)
  {
    // Each byte is below 256, so the 32-bit sum (at most 765) cannot wrap.
    var average := (RedByte(pixel) + GreenByte(pixel) + BlueByte(pixel)) / 3;
    Pack(average, average, average)
  }

  /** A pixel whose three channels already agree keeps them. */
  lemma GrayscaleAverageOfGray(p: Pixel)
    requires Red(p) == Green(p) == Blue(p)
    ensures GrayscaleAverage(p) == p | OpaqueAlpha
  {
    var q := GrayscaleAverage(p);
    PixelFromBytes(q, p | OpaqueAlpha);
  }

  lemma GrayscaleAverageIdempotent(p: Pixel)
    ensures GrayscaleAverage(GrayscaleAverage(p)) == GrayscaleAverage(p)
  {
    var q := GrayscaleAverage(p);
    GrayscaleAverageOfGray(q);
  }
}
