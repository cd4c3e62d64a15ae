/** The registry of named images that the display layer walks in order. */
module Catalog {
  import opened Pixels
  import opened Images

  /** One named image; the buffer is shared with whoever registered it. */
  datatype ImageEntry = ImageEntry(Name: string, Image: Image)

  /** The growable list of entries; entries are only ever appended. */
  class ImageList {
    var Entries: seq<ImageEntry>

    constructor ()
      ensures Entries == []
    {
      Entries := [];
    }
  }

  /** Appends one entry and returns its position, the length the list had before. */
  method AddImageEntry(images: ImageList, name: string, image: Image) returns (index: nat)
    modifies images
    ensures images.Entries == old(images.Entries) + [ImageEntry(name, image)]
    ensures index == |old(images.Entries)| && index == |images.Entries| - 1
    ensures images.Entries[index] == ImageEntry(name, image)
  {
    var entry := ImageEntry(name, image);
    images.Entries := images.Entries + [entry];
    index := |images.Entries| - 1;
  }

  /** The start of the tool's pipeline: register the loaded image, then
      register a copy of it and strip that copy to its red channel. The
      original keeps its pixels because the copy owns a fresh buffer. */
  method RegisterOriginalAndRed(original: Image) returns (images: ImageList, first: nat, second: nat)
    requires original.Valid()
    ensures fresh(images)
    ensures first == 0 && second == 1 && |images.Entries| == 2
    ensures images.Entries[0] == ImageEntry("Original", original)
    ensures images.Entries[1].Name == "Extract red"
    ensures images.Entries[1].Image.Width == original.Width
    ensures images.Entries[1].Image.Height == original.Height
    ensures images.Entries[1].Image.Data[..] == Transformed(original.Data[..], ExtractRed)
  {
    images := new ImageList();
    first := AddImageEntry(images, "Original", original);
    var copy := CopyImage(original);
    second := AddImageEntry(images, "Extract red", copy);
    ApplyTransform(images.Entries[second].Image, ExtractRed);
  }
}
