/** Pixel buffers: the `image` record of the tool, its two allocating
    constructors and the in-place per-pixel transform. */
module Images {
  import opened Pixels
  import Grid

  /** An image: `Width * Height` packed pixels stored row by row. The record
      is copied by value in the source, so two copies share one buffer; a
      class whose fields never change after construction has the same
      sharing. */
  class Image {
    const Width: int
    const Height: int
    const Data: array<Pixel>

    predicate Valid()
    {
      0 <= Width && 0 <= Height && Data.Length == Width * Height
    }

    constructor (width: int, height: int, data: array<Pixel>)
      ensures Width == width && Height == height && Data == data
    {
      Width := width;
      Height := height;
      Data := data;
    }
  }

  /** Allocates a new buffer of the same size and copies every pixel. */
  method CopyImage(other: Image) returns (result: Image)
    requires other.Valid()
    ensures fresh(result) && fresh(result.Data) && result.Valid()
    ensures result.Width == other.Width && result.Height == other.Height
    ensures result.Data[..] == other.Data[..]
  {
    var width, height := other.Width, other.Height;
    var data := new Pixel[width * height];
    var y := 0;
    while y < height
      invariant 0 <= y <= height
      invariant Grid.Index(0, y, width) <= data.Length
      invariant forall i :: 0 <= i < Grid.Index(0, y, width) ==> data[i] == other.Data[i]
    {
      var x := 0;
      while x < width
        invariant 0 <= x <= width
        invariant Grid.Index(x, y, width) <= data.Length
        invariant forall i :: 0 <= i < Grid.Index(x, y, width) ==> data[i] == other.Data[i]
      {
        Grid.IndexInBounds(x, y, width, height);
        Grid.NextColumn(x, y, width);
        data[Grid.Index(x, y, width)] := other.Data[Grid.Index(x, y, width)];
        x := x + 1;
      }
      Grid.NextRow(y, width);
      y := y + 1;
    }
    result := new Image(width, height, data);
  }

  /** Allocates a `width * height` buffer; it is all zero when `fillZero` is
      set and left uninitialised otherwise. */
  method MakeEmptyImage(width: int, height: int, fillZero: bool) returns (result: Image)
    requires 0 <= width && 0 <= height
    ensures fresh(result) && fresh(result.Data) && result.Valid()
    ensures result.Width == width && result.Height == height
    ensures fillZero ==> forall i :: 0 <= i < result.Data.Length ==> result.Data[i] == 0
  {
    Grid.MulNonNegative(width, height);
    var data := new Pixel[width * height];
    if fillZero {
      var y := 0;
      while y < height
        invariant 0 <= y <= height
        invariant Grid.Index(0, y, width) <= data.Length
        invariant forall i :: 0 <= i < Grid.Index(0, y, width) ==> data[i] == 0
      {
        var x := 0;
        while x < width
          invariant 0 <= x <= width
          invariant Grid.Index(x, y, width) <= data.Length
          invariant forall i :: 0 <= i < Grid.Index(x, y, width) ==> data[i] == 0
        {
          Grid.IndexInBounds(x, y, width, height);
          Grid.NextColumn(x, y, width);
          data[Grid.Index(x, y, width)] := 0;
          x := x + 1;
        }
        Grid.NextRow(y, width);
        y := y + 1;
      }
    }
    result := new Image(width, height, data);
  }

  /** The pixels `s` with `transform` applied to each one. */
  function Transformed(s: seq<Pixel>, transform: Pixel -> Pixel): (r: seq<Pixel>)
    ensures |r| == |s|
    ensures forall i :: 0 <= i < |s| ==> r[i] == transform(s[i])
  {
    if s == [] then [] else [transform(s[0])] + Transformed(s[1..], transform)
  }

  /** Applying an idempotent transform a second time changes nothing. */
  lemma {:induction false} TransformedIdempotent(s: seq<Pixel>, transform: Pixel -> Pixel)
    requires forall p :: transform(transform(p)) == transform(p)
    ensures Transformed(Transformed(s, transform), transform) == Transformed(s, transform)
  {
    if s != [] {
      TransformedIdempotent(s[1..], transform);
    }
  }

  /** Replaces every pixel of the image by `transform` of its old value,
      visiting the rows in order and each row left to right. */
  method ApplyTransform(image: Image, transform: Pixel -> Pixel)
    requires image.Valid()
    modifies image.Data
    ensures image.Data[..] == Transformed(old(image.Data[..]), transform)
  {
    var y := 0;
    while y < image.Height
      invariant 0 <= y <= image.Height
      invariant Grid.Index(0, y, image.Width) <= image.Data.Length
      invariant forall i :: 0 <= i < Grid.Index(0, y, image.Width) ==>
        image.Data[i] == transform(old(image.Data[i]))
      invariant forall i :: Grid.Index(0, y, image.Width) <= i < image.Data.Length ==>
        image.Data[i] == old(image.Data[i])
    {
      var x := 0;
      while x < image.Width
        invariant 0 <= x <= image.Width
        invariant Grid.Index(x, y, image.Width) <= image.Data.Length
        invariant forall i :: 0 <= i < Grid.Index(x, y, image.Width) ==>
          image.Data[i] == transform(old(image.Data[i]))
        invariant forall i :: Grid.Index(x, y, image.Width) <= i < image.Data.Length ==>
          image.Data[i] == old(image.Data[i])
      {
        Grid.IndexInBounds(x, y, image.Width, image.Height);
        Grid.NextColumn(x, y, image.Width);
        var pixel := Grid.Index(x, y, image.Width);
        image.Data[pixel] := transform(image.Data[pixel]);
        x := x + 1;
      }
      Grid.NextRow(y, image.Width);
      y := y + 1;
    }
    assert Grid.Index(0, y, image.Width) == image.Data.Length;
  }

  /** The red-channel transform keeps a pure red pixel and strips white to red. */
  lemma ExtractRedOnRedAndWhite()
    ensures Transformed([0xFF0000FF, 0xFFFFFFFF], ExtractRed) == [0xFF0000FF, 0xFF0000FF]
  {
  }
}
