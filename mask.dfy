/**
 * lib/mask.js: the `Mask.Mask` object, which cuts a selection of a canvas
 * into chunks, hands them to a mask function together with its own `draw`
 * as the continuation, and puts the processed chunks back together.
 */
module MaskFrame {
  import opened Arith
  import opened Raster
  import opened Chunking
  import opened Geometry
  import opened Filters

  /** `Mask.Mask`: a selection of a canvas, cut into `gridSize` squares, and the mask to run on them. */
  class Mask {
    const maskFunc: ChunkFilter
    const ctx: Canvas
    const gridSize: nat
    const selection: Rectangle
    const chunkLen: nat
    const chunks: seq<ImageData>

    /** Number of chunk columns: `selection.w / gridSize`. */
    function Xs(): nat
      requires gridSize > 0 && selection.w >= 0
    {
      selection.w / gridSize
    }

    /** Number of chunk rows: `selection.h / gridSize`. */
    function Ys(): nat
      requires gridSize > 0 && selection.h >= 0
    {
      selection.h / gridSize
    }

    /** The grid the constructor set up: whole cells, `chunkLen` of them. */
    predicate Grid() {
      && gridSize > 0 && selection.w >= 0 && selection.h >= 0
      && selection.w % gridSize == 0 && selection.h % gridSize == 0
      && chunkLen == Xs() * Ys() && |chunks| == chunkLen
    }

    /** What `draw` relies on: a grid with cells, and a selection with pixels when there are chunks. */
    predicate Sized() {
      gridSize > 0 && selection.w >= 0 && (chunkLen > 0 ==> selection.w > 0 && selection.h > 0)
    }

    ghost predicate Valid()
      reads this, ctx, set c | c in chunks :: c.data
    {
      && Grid() && ctx.Valid()
      && (forall c | c in chunks :: c.Valid())
      && (forall i, j | 0 <= i < j < |chunks| :: chunks[i].data != chunks[j].data)
    }

    /** The chunks still hold the squares of the canvas they were read from. */
    ghost predicate Unprocessed()
      reads this, ctx, set c | c in chunks :: c.data
      requires Valid()
    {
      Snapshots(chunks) == ChunksOf(ctx.image, Xs(), Ys(), gridSize)
    }

    /**
     * `new Mask.Mask(maskFunc, gridSize, selection, ctx)`: reads one chunk per
     * cell of the selection, row after row.
     */
    constructor (maskFunc: ChunkFilter, gridSize: nat, selection: Rectangle, ctx: Canvas)
      requires ctx.Valid() && gridSize > 0 && selection.w >= 0 && selection.h >= 0
      requires selection.w % gridSize == 0 && selection.h % gridSize == 0
      ensures this.maskFunc == maskFunc && this.ctx == ctx
      ensures this.gridSize == gridSize && this.selection == selection
      ensures chunkLen == (selection.w / gridSize) * (selection.h / gridSize)
      ensures Valid() && Unprocessed()
      ensures forall c | c in chunks :: fresh(c.data)
    {
      this.maskFunc := maskFunc;
      this.ctx := ctx;
      this.gridSize := gridSize;
      this.selection := selection;
      var xs, ys := selection.w / gridSize, selection.h / gridSize;
      this.chunkLen := xs * ys;
      var acc := ReadChunks(ctx, xs, ys, gridSize);
      this.chunks := acc;
      new;
      assert Snapshots(chunks) == ChunksOf(ctx.image, xs, ys, gridSize);
    }

    /**
     * `draw(callback, processedChunks)`: puts chunk `i` at cell (`i % xs`,
     * `floor(i / xs)`) and, right after the chunk with index `chunkLen - 1`,
     * calls back with the whole `w` by `h` selection read back from the canvas.  The
     * result lists the arguments of the callback calls.
     */
    method Draw(processedChunks: seq<ImageData>, ghost snaps: seq<Image>) returns (calls: seq<Image>)
      requires Sized() && ctx.Valid() && |snaps| == |processedChunks|
      requires forall i | 0 <= i < |snaps| :: snaps[i].WellFormed()
      requires forall i | 0 <= i < |processedChunks| :: processedChunks[i].Valid() && processedChunks[i].Snapshot() == snaps[i]
      requires Xs() > 0 || |processedChunks| == 0
      modifies ctx
      ensures ctx.Valid()
      ensures ctx.image == PutAll(old(ctx.image), snaps, Xs(), gridSize, |processedChunks|)
      ensures calls == if 1 <= chunkLen <= |processedChunks|
        then [Region(PutAll(old(ctx.image), snaps, Xs(), gridSize, chunkLen), 0, 0, selection.w, selection.h)]
        else []
    {
      var xs := Xs();
      calls := [];
      for i := 0 to |processedChunks|
        invariant ctx.Valid()
        invariant ctx.image == PutAll(old(ctx.image), snaps, xs, gridSize, i)
        invariant calls == if 1 <= chunkLen <= i
          then [Region(PutAll(old(ctx.image), snaps, xs, gridSize, chunkLen), 0, 0, selection.w, selection.h)]
          else []
      {
        var call := DrawChunk(processedChunks[i], i);
        calls := calls + call;
      }
    }

    /**
     * The body of `draw`'s `forEach`: puts chunk `i` at its cell and, when it
     * is the chunk with index `chunkLen - 1`, calls back with the selection.
     */
    method DrawChunk(chunk: ImageData, i: nat) returns (calls: seq<Image>)
      requires Sized() && ctx.Valid() && chunk.Valid() && Xs() > 0
      modifies ctx
      ensures ctx.Valid()
      ensures ctx.image == Put(old(ctx.image), chunk.Snapshot(), CellX(i, Xs()) * gridSize, CellY(i, Xs()) * gridSize)
      ensures calls == if i + 1 == chunkLen then [Region(ctx.image, 0, 0, selection.w, selection.h)] else []
    {
      var xs := Xs();
      var x, y := i % xs, i / xs;
      ctx.PutImageData(chunk, x * gridSize, y * gridSize);
      calls := [];
      if i + 1 == chunkLen {
        var d := ctx.GetImageData(0, 0, selection.w, selection.h);
        calls := [d.Snapshot()];
      }
    }

    /**
     * `applyMask(callback)`: runs the mask on the stored chunks with
     * `draw` as its continuation.  The result lists the arguments `callback`
     * is called with: the whole selection once, after every chunk has been
     * drawn, and nothing when there are no chunks.
     */
    method ApplyMask() returns (calls: seq<Image>)
      requires Valid()
      modifies ctx, set c | c in chunks :: c.data
      ensures Valid()
      ensures forall i | 0 <= i < |chunks| :: chunks[i].data[..] == FilterBytes(maskFunc, old(chunks[i].data[..]))
      ensures ctx.image == PutAll(old(ctx.image), Snapshots(chunks), Xs(), gridSize, chunkLen)
      ensures calls == if chunkLen == 0 then [] else [Region(ctx.image, 0, 0, selection.w, selection.h)]
      ensures old(Unprocessed()) && maskFunc.Noop? ==> ctx.image == old(ctx.image)
    {
      var processed := RunFilter(maskFunc, chunks);
      ghost var snaps := Snapshots(chunks);
      if chunkLen > 0 {
        PositiveFactors(Xs(), Ys());
      }
      calls := [];
      if processed != [] {
        calls := Draw(processed[0], snaps);
      }
      assert Snapshots(chunks) == snaps;
      if old(Unprocessed()) && maskFunc.Noop? {
        ghost var before := old(Snapshots(chunks));
        forall i | 0 <= i < |chunks|
          ensures snaps[i] == before[i]
        {
          assert chunks[i].data[..] == old(chunks[i].data[..]);
        }
        assert snaps == before;
        DrawInvertsChunking(old(ctx.image), Xs(), Ys(), gridSize, chunkLen);
      }
    }
  }
}
