/**
 * lib/filters.js: the chunk filters `Filters.Noop` and `Filters.Negate`,
 * which take a list of chunks and a callback, and the `Filter` object that
 * cuts a selection of a canvas into chunks, runs a filter on them and draws
 * the result back.
 */
module Filters {
  import opened Arith
  import opened Raster
  import opened Chunking
  import opened Geometry
  import Masks

  /** The filter functions that follow the `(chunks, callback)` protocol. */
  datatype ChunkFilter = Noop | Negate

  // ---------------------------------------------------------------------
  // Negation, byte by byte

  /** Byte `k` after `Negate`: every byte whose index `k` has `(k + 1) % 4 != 0` becomes `255 - b`. */
  function NegateAt(s: seq<bv8>, k: nat): bv8
    requires k < |s|
  {
    if (k + 1) % 4 != 0 then 255 - s[k] else s[k]
  }

  /** The bytes of a chunk after `Negate`. */
  function NegateBytes(s: seq<bv8>): (r: seq<bv8>)
    ensures |r| == |s|
  {
    seq(|s|, k requires 0 <= k < |s| => NegateAt(s, k))
  }

  /** What a chunk filter does to the bytes of each chunk. */
  function FilterBytes(f: ChunkFilter, s: seq<bv8>): (r: seq<bv8>)
    ensures |r| == |s|
  {
    match f
    case Noop => s
    case Negate => NegateBytes(s)
  }

  /** The `i += 1` loop of `Negate` over one chunk's bytes. */
  method NegateInPlace(data: array<bv8>)
    modifies data
    ensures data[..] == NegateBytes(old(data[..]))
  {
    ghost var s := data[..];
    var i := 0;
    while i < data.Length
      invariant 0 <= i <= data.Length
      invariant forall k | 0 <= k < data.Length :: data[k] == if k < i then NegateAt(s, k) else s[k]
    {
      if (i + 1) % 4 != 0 {
        data[i] := 255 - data[i];
      }
      i := i + 1;
    }
    assert data[..] == NegateBytes(s);
  }

  /**
   * Runs a chunk filter.  The result lists the arguments of the callback
   * calls in the order they are made: `Noop` calls back once with the list
   * as it was given; `Negate` negates every chunk in turn and calls back
   * once, with every chunk, after the last one, and never with no chunks.
   */
  method RunFilter(f: ChunkFilter, chunks: seq<ImageData>) returns (calls: seq<seq<ImageData>>)
    requires forall i, j | 0 <= i < j < |chunks| :: chunks[i].data != chunks[j].data
    modifies set c | c in chunks :: c.data
    ensures forall i | 0 <= i < |chunks| :: chunks[i].data[..] == FilterBytes(f, old(chunks[i].data[..]))
    ensures calls == if f.Negate? && |chunks| == 0 then [] else [chunks]
  {
    match f {
      case Noop =>
        calls := [chunks];
      case Negate =>
        var filteredChunks: seq<ImageData> := [];
        calls := [];
        var chunkIndex := 0;
        while chunkIndex < |chunks|
          invariant 0 <= chunkIndex <= |chunks|
          invariant filteredChunks == chunks[..chunkIndex]
          invariant calls == if 0 < chunkIndex == |chunks| then [chunks] else []
          invariant forall i | 0 <= i < chunkIndex :: chunks[i].data[..] == NegateBytes(old(chunks[i].data[..]))
          invariant forall i | chunkIndex <= i < |chunks| :: chunks[i].data[..] == old(chunks[i].data[..])
        {
          var chunk := chunks[chunkIndex];
          NegateInPlace(chunk.data);
          filteredChunks := filteredChunks + [chunk];
          if chunkIndex + 1 == |chunks| {
            assert filteredChunks == chunks;
            calls := calls + [filteredChunks];
          }
          chunkIndex := chunkIndex + 1;
        }
    }
  }

  /** Negating twice restores every byte. */
  lemma NegateInvolution(s: seq<bv8>)
    ensures NegateBytes(NegateBytes(s)) == s
  {
    var r := NegateBytes(NegateBytes(s));
    forall k | 0 <= k < |s|
      ensures r[k] == s[k]
    {
      assert NegateBytes(s)[k] == NegateAt(s, k);
    }
  }

  /** On a whole number of pixels, `Negate` does to a chunk what the `neg` mask button does to an image. */
  lemma NegateIsNegButton(s: seq<bv8>)
    requires |s| % 4 == 0
    ensures NegateBytes(s) == Masks.Transform(Masks.Buttons()["neg"], s)
  {
    var r := Masks.Transform(Masks.Buttons()["neg"], s);
    Masks.NegButtonComplements(s);
    forall k | 0 <= k < |s|
      ensures NegateBytes(s)[k] == r[k]
    {
      assert NegateBytes(s)[k] == NegateAt(s, k);
    }
  }

  // ---------------------------------------------------------------------
  // The Filter object

  /** `Filter`: a selection of a canvas, cut into `gridSize` squares, and the filter to run on them. */
  class Filter {
    const filterFunc: ChunkFilter
    const ctx: Canvas
    const gridSize: nat
    const selection: Rectangle
    const chunkLen: nat
    const chunks: seq<ImageData>

    /** Number of chunk columns: `selection.w / gridSize`. */
    function Xs(): nat
      requires gridSize > 0 && selection.w >= 0
    {
      selection.w / gridSize
    }

    /** Number of chunk rows: `selection.h / gridSize`. */
    function Ys(): nat
      requires gridSize > 0 && selection.h >= 0
    {
      selection.h / gridSize
    }

    /** The grid the constructor set up: whole cells, `chunkLen` of them. */
    predicate Grid() {
      && gridSize > 0 && selection.w >= 0 && selection.h >= 0
      && selection.w % gridSize == 0 && selection.h % gridSize == 0
      && chunkLen == Xs() * Ys() && |chunks| == chunkLen
    }

    /** What `draw` relies on: a grid with cells, and a selection with pixels when there are chunks. */
    predicate Sized() {
      gridSize > 0 && selection.w >= 0 && (chunkLen > 0 ==> selection.w > 0 && selection.h > 0)
    }

    ghost predicate Valid()
      reads this, ctx, set c | c in chunks :: c.data
    {
      && Grid() && ctx.Valid()
      && (forall c | c in chunks :: c.Valid())
      && (forall i, j | 0 <= i < j < |chunks| :: chunks[i].data != chunks[j].data)
    }

    /** The chunks still hold the squares of the canvas they were read from. */
    ghost predicate Unfiltered()
      reads this, ctx, set c | c in chunks :: c.data
      requires Valid()
    {
      Snapshots(chunks) == ChunksOf(ctx.image, Xs(), Ys(), gridSize)
    }

    /**
     * `new Filter(filterFunc, gridSize, selection, ctx)`: reads one chunk per
     * cell of the selection, row after row.
     */
    constructor (filterFunc: ChunkFilter, gridSize: nat, selection: Rectangle, ctx: Canvas)
      requires ctx.Valid() && gridSize > 0 && selection.w >= 0 && selection.h >= 0
      requires selection.w % gridSize == 0 && selection.h % gridSize == 0
      ensures this.filterFunc == filterFunc && this.ctx == ctx
      ensures this.gridSize == gridSize && this.selection == selection
      ensures chunkLen == (selection.w / gridSize) * (selection.h / gridSize)
      ensures Valid() && Unfiltered()
      ensures forall c | c in chunks :: fresh(c.data)
    {
      this.filterFunc := filterFunc;
      this.ctx := ctx;
      this.gridSize := gridSize;
      this.selection := selection;
      var xs, ys := selection.w / gridSize, selection.h / gridSize;
      this.chunkLen := xs * ys;
      var acc := ReadChunks(ctx, xs, ys, gridSize);
      this.chunks := acc;
      new;
      assert Snapshots(chunks) == ChunksOf(ctx.image, xs, ys, gridSize);
    }

    /** `getFilteredImageData`: the whole selection, read back from the canvas. */
    method GetFilteredImageData() returns (d: ImageData)
      requires ctx.Valid() && selection.w > 0 && selection.h > 0
      ensures fresh(d) && fresh(d.data) && d.Valid()
      ensures d.Snapshot() == Region(ctx.image, 0, 0, selection.w, selection.h)
    {
      d := ctx.GetImageData(0, 0, selection.w, selection.h);
    }

    /**
     * `draw(callback, filteredChunks)`: puts chunk `i` at cell (`i % xs`,
     * `floor(i / xs)`) and, right after the chunk with index `chunkLen - 1`,
     * calls back with the whole selection read back from the canvas.  The
     * result lists the arguments of the callback calls.
     */
    method Draw(filteredChunks: seq<ImageData>, ghost snaps: seq<Image>) returns (calls: seq<Image>)
      requires Sized() && ctx.Valid() && |snaps| == |filteredChunks|
      requires forall i | 0 <= i < |snaps| :: snaps[i].WellFormed()
      requires forall i | 0 <= i < |filteredChunks| :: filteredChunks[i].Valid() && filteredChunks[i].Snapshot() == snaps[i]
      requires Xs() > 0 || |filteredChunks| == 0
      modifies ctx
      ensures ctx.Valid()
      ensures ctx.image == PutAll(old(ctx.image), snaps, Xs(), gridSize, |filteredChunks|)
      ensures calls == if 1 <= chunkLen <= |filteredChunks|
        then [Region(PutAll(old(ctx.image), snaps, Xs(), gridSize, chunkLen), 0, 0, selection.w, selection.h)]
        else []
    {
      var xs := Xs();
      calls := [];
      for i := 0 to |filteredChunks|
        invariant ctx.Valid()
        invariant ctx.image == PutAll(old(ctx.image), snaps, xs, gridSize, i)
        invariant calls == if 1 <= chunkLen <= i
          then [Region(PutAll(old(ctx.image), snaps, xs, gridSize, chunkLen), 0, 0, selection.w, selection.h)]
          else []
      {
        var call := DrawChunk(filteredChunks[i], i);
        calls := calls + call;
      }
    }

    /**
     * The body of `draw`'s `forEach`: puts chunk `i` at its cell and, when it
     * is the chunk with index `chunkLen - 1`, calls back with the selection.
     */
    method DrawChunk(chunk: ImageData, i: nat) returns (calls: seq<Image>)
      requires Sized() && ctx.Valid() && chunk.Valid() && Xs() > 0
      modifies ctx
      ensures ctx.Valid()
      ensures ctx.image == Put(old(ctx.image), chunk.Snapshot(), CellX(i, Xs()) * gridSize, CellY(i, Xs()) * gridSize)
      ensures calls == if i + 1 == chunkLen then [Region(ctx.image, 0, 0, selection.w, selection.h)] else []
    {
      var xs := Xs();
      var x, y := i % xs, i / xs;
      ctx.PutImageData(chunk, x * gridSize, y * gridSize);
      calls := [];
      if i + 1 == chunkLen {
        var d := GetFilteredImageData();
        calls := [d.Snapshot()];
      }
    }

    /**
     * `applyFilter(callback)`: runs the filter on the stored chunks with
     * `draw` as its continuation.  The result lists the arguments `callback`
     * is called with: the whole selection once, after every chunk has been
     * drawn, and nothing when there are no chunks.
     */
    method ApplyFilter() returns (calls: seq<Image>)
      requires Valid()
      modifies ctx, set c | c in chunks :: c.data
      ensures Valid()
      ensures forall i | 0 <= i < |chunks| :: chunks[i].data[..] == FilterBytes(filterFunc, old(chunks[i].data[..]))
      ensures ctx.image == PutAll(old(ctx.image), Snapshots(chunks), Xs(), gridSize, chunkLen)
      ensures calls == if chunkLen == 0 then [] else [Region(ctx.image, 0, 0, selection.w, selection.h)]
      ensures old(Unfiltered()) && filterFunc.Noop? ==> ctx.image == old(ctx.image)
    {
      var filtered := RunFilter(filterFunc, chunks);
      ghost var snaps := Snapshots(chunks);
      if chunkLen > 0 {
        PositiveFactors(Xs(), Ys());
      }
      calls := [];
      if filtered != [] {
        calls := Draw(filtered[0], snaps);
      }
      assert Snapshots(chunks) == snaps;
      if old(Unfiltered()) && filterFunc.Noop? {
        ghost var before := old(Snapshots(chunks));
        forall i | 0 <= i < |chunks|
          ensures snaps[i] == before[i]
        {
          assert chunks[i].data[..] == old(chunks[i].data[..]);
        }
        assert snaps == before;
        DrawInvertsChunking(old(ctx.image), Xs(), Ys(), gridSize, chunkLen);
      }
    }
  }
}
