/**
 * The per-pixel masks (lib/masks.js).  A mask is built once, possibly with a
 * parameter that is range-checked on construction, and then rewrites the
 * RGBA bytes of an ImageData in place, four bytes per step.
 */
module Masks {
  import opened Wrappers
  import opened Constants
  import opened Raster

  /** One pixel, as `rgba` reads it. */
  datatype Pixel = Pixel(r: bv8, g: bv8, b: bv8, a: bv8)

  /** `rgba(data, index)`: the four bytes of the pixel that starts at `index`. */
  function Rgba(data: seq<bv8>, index: nat): (p: Pixel)
    requires index + 3 < |data|
    ensures [p.r, p.g, p.b, p.a] == data[index..index + 4]
  {
    Pixel(data[index], data[index + 1], data[index + 2], data[index + 3])
  }

  /** What `Xor` and `OldXor` throw when the mask is not a byte. */
  datatype MaskError = MaskOutOfRange(mask: int)

  /** A mask closure that rewrites a whole ImageData. */
  datatype ImageMask = XorMask(mask: bv8) | RgbMask

  /** A legacy mask closure that rewrites a list of chunks. */
  datatype ChunkMask = OldXorMask(mask: bv8)

  // ---------------------------------------------------------------------
  // Specifications of the byte rewrites

  /** Byte `k` of the buffer after `Xor(mask)`: a colour byte is xor-ed, an alpha byte kept. */
  function XorAt(s: seq<bv8>, mask: bv8, k: nat): bv8
    requires k < |s|
  {
    if k % 4 == 3 then s[k] else XorByte(s[k], mask)
  }

  /** `b ^= mask` on one byte. */
  function XorByte(b: bv8, mask: bv8): bv8 {
    b ^ mask
  }

  /** The buffer after `Xor(mask)`. */
  function XorBytes(s: seq<bv8>, mask: bv8): (r: seq<bv8>)
    ensures |r| == |s|
  {
    seq(|s|, k requires 0 <= k < |s| => XorAt(s, mask, k))
  }

  /** Byte `k` of the buffer after `RGB()`. */
  function RotateAt(s: seq<bv8>, k: nat): bv8
    requires k < |s| && |s| % 4 == 0
  {
    if k % 4 == 0 then s[k + 2]       // red   <- blue
    else if k % 4 == 3 then s[k]      // alpha is kept
    else s[k - 1]                     // green <- red, blue <- green
  }

  /** The buffer after `RGB()`: every pixel (r, g, b, a) becomes (b, r, g, a). */
  function RotateBytes(s: seq<bv8>): (r: seq<bv8>)
    requires |s| % 4 == 0
    ensures |r| == |s|
  {
    seq(|s|, k requires 0 <= k < |s| => RotateAt(s, k))
  }

  /** What a mask closure does to the bytes of the ImageData it is run on. */
  function Transform(m: ImageMask, s: seq<bv8>): (r: seq<bv8>)
    requires |s| % 4 == 0
    ensures |r| == |s|
  {
    match m
    case XorMask(mask) => XorBytes(s, mask)
    case RgbMask => RotateBytes(s)
  }

  // ---------------------------------------------------------------------
  // Construction

  /** The range check both xor masks run before they build their closure. */
  function CheckMask(mask: int): (r: Result<bv8, MaskError>)
    ensures r.Success? <==> 0x00 <= mask <= 0xff
    ensures r.Success? ==> r.value == mask as bv8
    ensures r.Failure? ==> r.error == MaskOutOfRange(mask)
  {
    if mask < 0x00 || mask > 0xff then Failure(MaskOutOfRange(mask)) else Success(mask as bv8)
  }

  /** `Mask.Xor(mask)`: throws for a mask outside 0x00..0xff, otherwise the xor closure. */
  function NewXor(mask: int): (r: Result<ImageMask, MaskError>)
    ensures r.Success? <==> 0x00 <= mask <= 0xff
    ensures r.Success? ==> r.value.XorMask? && r.value.mask == mask as bv8
    ensures r.Failure? ==> r.error == MaskOutOfRange(mask)
  {
    match CheckMask(mask)
    case Success(m) => Success(XorMask(m))
    case Failure(e) => Failure(e)
  }

  /** `Mask.OldXor(mask)`: the same check, then the chunk-based closure. */
  function NewOldXor(mask: int): (r: Result<ChunkMask, MaskError>)
    ensures r.Success? <==> 0x00 <= mask <= 0xff
    ensures r.Success? ==> r.value.mask == mask as bv8
    ensures r.Failure? ==> r.error == MaskOutOfRange(mask)
  {
    match CheckMask(mask)
    case Success(m) => Success(OldXorMask(m))
    case Failure(e) => Failure(e)
  }

  /** `Mask.Buttons`: the masks offered on the toolbar, by name. */
  function Buttons(): (table: map<string, ImageMask>)
    ensures table.Keys == {"neg", "xor", "rgb"}
    ensures table["neg"] == XorMask(NEG)
    ensures table["xor"] == XorMask(XOR)
    ensures table["rgb"] == RgbMask
  {
    map["neg" := NewXor(0xff).value, "xor" := NewXor(0x80).value, "rgb" := RgbMask]
  }

  // ---------------------------------------------------------------------
  // The closures, run in place

  /** The `i += 4` loop of `Xor`: xors bytes 4k, 4k+1 and 4k+2 of `data` with `mask`. */
  method XorInPlace(data: array<bv8>, mask: bv8)
    requires data.Length % 4 == 0
    modifies data
    ensures data[..] == XorBytes(old(data[..]), mask)
  {
    ghost var s := data[..];
    var i := 0;
    while i < data.Length
      invariant 0 <= i <= data.Length && i % 4 == 0
      invariant forall k | 0 <= k < data.Length :: data[k] == if k < i then XorAt(s, mask, k) else s[k]
    {
      data[i] := XorByte(data[i], mask);
      data[i + 1] := XorByte(data[i + 1], mask);
      data[i + 2] := XorByte(data[i + 2], mask);
      i := i + 4;
    }
    assert data[..] == XorBytes(s, mask);
  }

  /** The `i += 4` loop of `RGB`: reads each pixel with `rgba` before it writes the pixel back rotated. */
  method RotateInPlace(data: array<bv8>)
    requires data.Length % 4 == 0
    modifies data
    ensures data[..] == RotateBytes(old(data[..]))
  {
    ghost var s := data[..];
    var i := 0;
    while i < data.Length
      invariant 0 <= i <= data.Length && i % 4 == 0
      invariant forall k | 0 <= k < i :: data[k] == RotateAt(s, k)
      invariant forall k | i <= k < data.Length :: data[k] == s[k]
    {
      var p := Rgba(data[..], i);
      assert p == Rgba(s, i);
      data[i] := p.b;
      data[i + 1] := p.r;
      data[i + 2] := p.g;
      assert (i + 1) % 4 == 1 && (i + 2) % 4 == 2 && (i + 3) % 4 == 3;
      assert data[i] == RotateAt(s, i) && data[i + 1] == RotateAt(s, i + 1);
      assert data[i + 2] == RotateAt(s, i + 2) && data[i + 3] == RotateAt(s, i + 3);
      i := i + 4;
    }
    assert data[..] == RotateBytes(s);
  }

  /** Runs a mask closure on `image`; the closure hands the same object to its callback. */
  method ApplyImageMask(m: ImageMask, image: ImageData) returns (result: ImageData)
    requires image.Valid()
    modifies image.data
    ensures result == image
    ensures image.data[..] == Transform(m, old(image.data[..]))
  {
    match m {
      case XorMask(mask) => XorInPlace(image.data, mask);
      case RgbMask => RotateInPlace(image.data);
    }
    result := image;
  }

  /**
   * The `OldXor` closure: xors the colour bytes of every chunk in turn and
   * calls `putChunks` once, with every chunk, after the last one; with no
   * chunks it never calls it.  The result lists the arguments of the
   * `putChunks` calls in the order they are made.
   */
  method OldXorChunks(m: ChunkMask, chunks: seq<ImageData>) returns (putCalls: seq<seq<ImageData>>)
    requires forall c | c in chunks :: c.Valid()
    requires forall i, j | 0 <= i < j < |chunks| :: chunks[i].data != chunks[j].data
    modifies set c | c in chunks :: c.data
    ensures forall i | 0 <= i < |chunks| :: chunks[i].data[..] == XorBytes(old(chunks[i].data[..]), m.mask)
    ensures putCalls == if |chunks| == 0 then [] else [chunks]
  {
    var processed: seq<ImageData> := [];
    putCalls := [];
    var chunkIndex := 0;
    while chunkIndex < |chunks|
      invariant 0 <= chunkIndex <= |chunks|
      invariant processed == chunks[..chunkIndex]
      invariant putCalls == if 0 < chunkIndex == |chunks| then [chunks] else []
      invariant forall i | 0 <= i < chunkIndex :: chunks[i].data[..] == XorBytes(old(chunks[i].data[..]), m.mask)
      invariant forall i | chunkIndex <= i < |chunks| :: chunks[i].data[..] == old(chunks[i].data[..])
    {
      var chunk := chunks[chunkIndex];
      assert chunk in chunks;
      XorInPlace(chunk.data, m.mask);
      processed := processed + [chunk];
      if chunkIndex + 1 == |chunks| {
        assert processed == chunks;
        putCalls := putCalls + [processed];
      }
      chunkIndex := chunkIndex + 1;
    }
  }

  // ---------------------------------------------------------------------
  // Properties

  /** `Xor(m)` undoes itself: applying it twice restores every byte. */
  lemma XorInvolution(s: seq<bv8>, mask: bv8)
    ensures XorBytes(XorBytes(s, mask), mask) == s
  {
    var r := XorBytes(XorBytes(s, mask), mask);
    forall i | 0 <= i < |s|
      ensures r[i] == s[i]
    {
      assert XorBytes(s, mask)[i] == if i % 4 == 3 then s[i] else s[i] ^ mask;
    }
  }

  /** The `neg` button maps every colour byte b to 255 - b and keeps alpha. */
  lemma NegButtonComplements(s: seq<bv8>)
    requires |s| % 4 == 0
    ensures forall i | 0 <= i < |s| ::
      Transform(Buttons()["neg"], s)[i] == if i % 4 == 3 then s[i] else 255 - s[i]
  {
    var r := Transform(Buttons()["neg"], s);
    forall i | 0 <= i < |s|
      ensures r[i] == if i % 4 == 3 then s[i] else 255 - s[i]
    {
      assert r[i] == XorBytes(s, 0xff)[i];
    }
  }

  /** `RGB()` moves the channels of each pixel: (r, g, b, a) becomes (b, r, g, a). */
  lemma RotatePixel(s: seq<bv8>, i: nat)
    requires |s| % 4 == 0 && i % 4 == 0 && i < |s|
    ensures i + 3 < |s|
    ensures Rgba(RotateBytes(s), i) == Pixel(Rgba(s, i).b, Rgba(s, i).r, Rgba(s, i).g, Rgba(s, i).a)
  {
    var r := RotateBytes(s);
    assert r[i] == RotateAt(s, i) && r[i + 1] == RotateAt(s, i + 1);
    assert r[i + 2] == RotateAt(s, i + 2) && r[i + 3] == RotateAt(s, i + 3);
  }

  /** Three rotations of the channels give back the original buffer. */
  lemma RotateThriceIsIdentity(s: seq<bv8>)
    requires |s| % 4 == 0
    ensures RotateBytes(RotateBytes(RotateBytes(s))) == s
  {
    var r1 := RotateBytes(s);
    var r2 := RotateBytes(r1);
    var r3 := RotateBytes(r2);
    forall j | 0 <= j < |s|
      ensures r3[j] == s[j]
    {
      var i := j - j % 4;
      RotatePixel(s, i);
      RotatePixel(r1, i);
      RotatePixel(r2, i);
      assert Rgba(r3, i) == Rgba(s, i);
      assert j == i || j == i + 1 || j == i + 2 || j == i + 3;
    }
  }

  /** Two rotations do not undo a rotation: `RGB` is not its own inverse. */
  lemma RotateIsNotInvolution()
    ensures exists s: seq<bv8> | |s| % 4 == 0 :: RotateBytes(RotateBytes(s)) != s
  {
    var s: seq<bv8> := [1, 2, 3, 255];
    RotatePixel(s, 0);
    RotatePixel(RotateBytes(s), 0);
    assert RotateBytes(RotateBytes(s))[0] != s[0];
  }
}
