/**
 * Pixel buffers as the canvas API hands them out: a width, a height and
 * four bytes (R, G, B, A) per pixel, in row-major order.  This module is the
 * model of the host surface the engine reads and writes (`getImageData`,
 * `putImageData`); the engine itself only ever goes through these two calls.
 */
module Raster {
  import opened Arith

  /** The contents of an ImageData object, as a value. */
  datatype Image = Image(width: nat, height: nat, data: seq<bv8>) {
    /** Exactly four bytes per pixel, as every ImageData has. */
    predicate WellFormed()
      ensures WellFormed() ==> |data| % 4 == 0
    {
      DivModUnique(4 * width * height, 4, width * height, 0);
      |data| == 4 * width * height
    }
  }

  /** Byte offset of pixel (x, y) in a row-major RGBA buffer of the given width. */
  function Offset(width: nat, x: nat, y: nat): nat {
    4 * (y * width + x)
  }

  /** Column of the pixel that byte `k` belongs to. */
  function PixelX(width: nat, k: nat): nat
    requires width > 0
  {
    (k / 4) % width
  }

  /** Row of the pixel that byte `k` belongs to. */
  function PixelY(width: nat, k: nat): nat
    requires width > 0
  {
    (k / 4) / width
  }

  /** Every pixel of a `w` by `h` buffer has all four of its bytes inside the buffer. */
  lemma OffsetInBounds(w: nat, h: nat, x: nat, y: nat, c: nat)
    requires x < w && y < h && c < 4
    ensures Offset(w, x, y) + c < 4 * w * h
  {
    MulMonotone(y + 1, h, w);
    assert (y + 1) * w == y * w + w;
    assert h * w == w * h;
  }

  /** Addressing a pixel and then decoding the byte index gives the pixel back. */
  lemma Compose(w: nat, x: nat, y: nat, c: nat)
    requires x < w && c < 4
    ensures (Offset(w, x, y) + c) / 4 == y * w + x
    ensures (Offset(w, x, y) + c) % 4 == c
    ensures PixelX(w, Offset(w, x, y) + c) == x
    ensures PixelY(w, Offset(w, x, y) + c) == y
  {
    DivModUnique(Offset(w, x, y) + c, 4, y * w + x, c);
    DivModUnique(y * w + x, w, y, x);
  }

  /** Decoding a byte index and addressing the pixel again gives the index back. */
  lemma Decompose(w: nat, h: nat, k: nat)
    requires w > 0 && k < 4 * w * h
    ensures PixelX(w, k) < w && PixelY(w, k) < h
    ensures Offset(w, PixelX(w, k), PixelY(w, k)) + k % 4 == k
  {
    var p := k / 4;
    assert p * w == w * p;
    assert p == PixelY(w, k) * w + PixelX(w, k);
    if PixelY(w, k) >= h {
      MulMonotone(h, PixelY(w, k), w);
    }
  }

  // ---------------------------------------------------------------------
  // Reading and writing pixels

  /** Byte `c` of pixel (x, y). */
  function At(img: Image, x: nat, y: nat, c: nat): bv8
    requires img.WellFormed() && x < img.width && y < img.height && c < 4
  {
    OffsetInBounds(img.width, img.height, x, y, c);
    img.data[Offset(img.width, x, y) + c]
  }

  /** Byte `c` of pixel (x, y), or 0 (transparent black) outside the buffer. */
  function Sample(img: Image, x: int, y: int, c: nat): bv8
    requires img.WellFormed() && c < 4
  {
    if 0 <= x < img.width && 0 <= y < img.height then At(img, x, y, c) else 0
  }

  /**
   * `getImageData(x0, y0, w, h)`: a fresh `w` by `h` buffer holding the
   * pixels of the rectangle at (x0, y0); pixels outside the source read as
   * transparent black.
   */
  function Region(img: Image, x0: int, y0: int, w: nat, h: nat): (r: Image)
    requires img.WellFormed() && w > 0 && h > 0
    ensures r.WellFormed() && r.width == w && r.height == h
  {
    Image(w, h, seq(4 * w * h, k requires 0 <= k < 4 * w * h =>
      Sample(img, x0 + PixelX(w, k), y0 + PixelY(w, k), k % 4)))
  }

  /** The byte at index `k` after `chunk` is written at (x0, y0). */
  function PutByte(img: Image, chunk: Image, x0: int, y0: int, k: nat): bv8
    requires img.WellFormed() && chunk.WellFormed() && img.width > 0 && k < |img.data|
  {
    var x, y := PixelX(img.width, k), PixelY(img.width, k);
    if x0 <= x < x0 + chunk.width && y0 <= y < y0 + chunk.height then
      At(chunk, x - x0, y - y0, k % 4)
    else
      img.data[k]
  }

  /**
   * `putImageData(chunk, x0, y0)`: every pixel of the buffer covered by
   * `chunk` placed at (x0, y0) is replaced by the chunk's pixel, alpha
   * included; the part of the chunk outside the buffer is dropped.
   */
  function Put(img: Image, chunk: Image, x0: int, y0: int): (r: Image)
    requires img.WellFormed() && chunk.WellFormed()
    ensures r.WellFormed() && r.width == img.width && r.height == img.height
  {
    if img.width == 0 then img
    else Image(img.width, img.height, seq(|img.data|, k requires 0 <= k < |img.data| =>
      PutByte(img, chunk, x0, y0, k)))
  }

  /** A region holds exactly the pixels it was read from. */
  lemma RegionAt(img: Image, x0: int, y0: int, w: nat, h: nat, x: nat, y: nat, c: nat)
    requires img.WellFormed() && w > 0 && h > 0 && x < w && y < h && c < 4
    ensures At(Region(img, x0, y0, w, h), x, y, c) == Sample(img, x0 + x, y0 + y, c)
  {
    var k := Offset(w, x, y) + c;
    Compose(w, x, y, c);
    OffsetInBounds(w, h, x, y, c);
    assert Region(img, x0, y0, w, h).data[k] == Sample(img, x0 + PixelX(w, k), y0 + PixelY(w, k), k % 4);
  }

  /** After a put, a pixel comes from the chunk where the chunk covers it and is unchanged elsewhere. */
  lemma PutAt(img: Image, chunk: Image, x0: int, y0: int, x: nat, y: nat, c: nat)
    requires img.WellFormed() && chunk.WellFormed()
    requires x < img.width && y < img.height && c < 4
    ensures At(Put(img, chunk, x0, y0), x, y, c) ==
      if x0 <= x < x0 + chunk.width && y0 <= y < y0 + chunk.height
      then At(chunk, x - x0, y - y0, c)
      else At(img, x, y, c)
  {
    var k := Offset(img.width, x, y) + c;
    Compose(img.width, x, y, c);
    OffsetInBounds(img.width, img.height, x, y, c);
    assert Put(img, chunk, x0, y0).data[k] == PutByte(img, chunk, x0, y0, k);
  }

  /** Two buffers of the same size that agree on every byte of every pixel are equal. */
  lemma Extensionality(a: Image, b: Image)
    requires a.WellFormed() && b.WellFormed()
    requires a.width == b.width && a.height == b.height
    requires forall x: nat, y: nat, c: nat | x < a.width && y < a.height && c < 4 ::
      At(a, x, y, c) == At(b, x, y, c)
    ensures a == b
  {
    forall k | 0 <= k < |a.data|
      ensures a.data[k] == b.data[k]
    {
      Decompose(a.width, a.height, k);
      assert a.data[k] == At(a, PixelX(a.width, k), PixelY(a.width, k), k % 4);
    }
  }

  /**
   * Writing back the region that was read from the same place changes
   * nothing, wherever the region lies: the part outside the buffer was read
   * as transparent black and is clipped again on the way back.
   */
  lemma PutOwnRegion(img: Image, x0: int, y0: int, w: nat, h: nat)
    requires img.WellFormed() && w > 0 && h > 0
    ensures Put(img, Region(img, x0, y0, w, h), x0, y0) == img
  {
    var r := Put(img, Region(img, x0, y0, w, h), x0, y0);
    forall x: nat, y: nat, c: nat | x < img.width && y < img.height && c < 4
      ensures At(r, x, y, c) == At(img, x, y, c)
    {
      PutAt(img, Region(img, x0, y0, w, h), x0, y0, x, y, c);
      if x0 <= x < x0 + w && y0 <= y < y0 + h {
        RegionAt(img, x0, y0, w, h, x - x0, y - y0, c);
      }
    }
    Extensionality(r, img);
  }

  // ---------------------------------------------------------------------
  // The host objects

  /** A host ImageData object: fixed dimensions and a byte array the engine writes in place. */
  class ImageData {
    const width: nat
    const height: nat
    const data: array<bv8>

    predicate Valid()
      ensures Valid() ==> data.Length % 4 == 0
    {
      DivModUnique(4 * width * height, 4, width * height, 0);
      data.Length == 4 * width * height
    }

    /** The current contents, as a value. */
    function Snapshot(): (img: Image)
      reads data
      requires Valid()
      ensures img.WellFormed() && img.width == width && img.height == height
    {
      Image(width, height, data[..])
    }

    constructor (img: Image)
      requires img.WellFormed()
      ensures Valid() && fresh(data) && Snapshot() == img
    {
      width, height := img.width, img.height;
      data := new bv8[|img.data|](k requires 0 <= k < |img.data| => img.data[k]);
    }
  }

  /** A 2D canvas context: the pixels it currently shows. */
  class Canvas {
    var image: Image

    ghost predicate Valid()
      reads this
    {
      image.WellFormed()
    }

    constructor (img: Image)
      requires img.WellFormed()
      ensures Valid() && image == img
    {
      image := img;
    }

    /** `getImageData`: a new ImageData copied from the canvas (the host refuses an empty one). */
    method GetImageData(x: int, y: int, w: nat, h: nat) returns (d: ImageData)
      requires Valid() && w > 0 && h > 0
      ensures fresh(d) && fresh(d.data) && d.Valid()
      ensures d.Snapshot() == Region(image, x, y, w, h)
    {
      d := new ImageData(Region(image, x, y, w, h));
    }

    /** `putImageData`: writes `d` onto the canvas at (x, y). */
    method PutImageData(d: ImageData, x: int, y: int)
      requires Valid() && d.Valid()
      modifies this
      ensures Valid() && image == Put(old(image), d.Snapshot(), x, y)
    {
      image := Put(image, d.Snapshot(), x, y);
    }
  }
}
