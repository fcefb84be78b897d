/**
 * The grid geometry shared by `Filter` (lib/filters.js) and `Mask.Mask`
 * (lib/mask.js).  A selection of `xs` by `ys` cells of `gridSize` pixels is
 * read as one chunk per cell, row after row, and `draw` puts chunk `i` back
 * at cell (`i % xs`, `floor(i / xs)`).  This module holds the value-level
 * meaning of both loops and the facts that connect them.
 */
module Chunking {
  import opened Arith
  import opened Raster

  /** Column of the cell chunk `i` is drawn at: `i % xs`. */
  function CellX(i: nat, xs: nat): nat
    requires xs > 0
  {
    i % xs
  }

  /** Row of the cell chunk `i` is drawn at: `Math.floor(i / xs)`. */
  function CellY(i: nat, xs: nat): nat
    requires xs > 0
  {
    i / xs
  }

  /** List index of the chunk the constructor reads at cell (x, y): its loops push row after row. */
  function ChunkIndex(x: nat, y: nat, xs: nat): nat {
    y * xs + x
  }

  /** The cell of the chunk read at (x, y) is (x, y) again. */
  lemma CellOfIndex(x: nat, y: nat, xs: nat)
    requires x < xs
    ensures CellX(ChunkIndex(x, y, xs), xs) == x && CellY(ChunkIndex(x, y, xs), xs) == y
  {
    DivModUnique(ChunkIndex(x, y, xs), xs, y, x);
  }

  /** The chunk read at the cell of index `i` is chunk `i`, and that cell lies inside the grid. */
  lemma IndexOfCell(i: nat, xs: nat, ys: nat)
    requires xs > 0 && i < xs * ys
    ensures CellX(i, xs) < xs && CellY(i, xs) < ys
    ensures ChunkIndex(CellX(i, xs), CellY(i, xs), xs) == i
  {
    if CellY(i, xs) >= ys {
      MulMonotone(ys, CellY(i, xs), xs);
    }
  }

  /** A cell inside the grid has an index inside the chunk list. */
  lemma IndexInRange(x: nat, y: nat, xs: nat, ys: nat)
    requires x < xs && y < ys
    ensures ChunkIndex(x, y, xs) < xs * ys
  {
    MulMonotone(y + 1, ys, xs);
  }

  /** A pixel coordinate lies in the band of cell `a` exactly when it divides down to `a`; its offset in the cell is then its remainder. */
  lemma InCell(p: nat, a: nat, g: nat)
    requires g > 0
    ensures a * g <= p < a * g + g <==> p / g == a
    ensures p / g == a ==> p - a * g == p % g
  {
    if a * g <= p < a * g + g {
      DivModUnique(p, g, a, p - a * g);
    }
  }

  /** A pixel left of `xs * g` lies in a column of cells below `xs`. */
  lemma ColumnInGrid(p: nat, xs: nat, g: nat)
    requires g > 0 && p < xs * g
    ensures p / g < xs
  {
    if p / g >= xs {
      MulMonotone(xs, p / g, g);
    }
  }

  /**
   * The chunks the constructor collects, in list order: chunk `i` is the
   * `g` by `g` square whose origin is cell (`i % xs`, `i / xs`) scaled by `g`.
   */
  function ChunksOf(img: Image, xs: nat, ys: nat, g: nat): (chunks: seq<Image>)
    requires img.WellFormed() && g > 0
    ensures |chunks| == xs * ys
    ensures forall i | 0 <= i < |chunks| ::
      chunks[i].WellFormed() && chunks[i].width == g && chunks[i].height == g
  {
    if xs == 0 then []
    else seq(xs * ys, i requires 0 <= i < xs * ys => Region(img, CellX(i, xs) * g, CellY(i, xs) * g, g, g))
  }

  /** Chunk `y * xs + x` is the square with origin (x * g, y * g): the chunk list is row-major. */
  lemma ChunkAtCell(img: Image, xs: nat, ys: nat, g: nat, x: nat, y: nat)
    requires img.WellFormed() && g > 0 && x < xs && y < ys
    ensures ChunkIndex(x, y, xs) < xs * ys
    ensures ChunksOf(img, xs, ys, g)[ChunkIndex(x, y, xs)] == Region(img, x * g, y * g, g, g)
  {
    IndexInRange(x, y, xs, ys);
    CellOfIndex(x, y, xs);
  }

  /** The canvas after `draw` has put the first `n` chunks, chunk `i` at cell (`i % xs`, `i / xs`). */
  function PutAll(img: Image, chunks: seq<Image>, xs: nat, g: nat, n: nat): (r: Image)
    requires img.WellFormed() && n <= |chunks| && (xs > 0 || n == 0)
    requires forall i | 0 <= i < |chunks| :: chunks[i].WellFormed()
    ensures r.WellFormed() && r.width == img.width && r.height == img.height
    decreases n
  {
    if n == 0 then img
    else Put(PutAll(img, chunks, xs, g, n - 1), chunks[n - 1], CellX(n - 1, xs) * g, CellY(n - 1, xs) * g)
  }

  /** Index of the chunk whose cell holds pixel (px, py). */
  function ChunkOfPixel(px: nat, py: nat, xs: nat, g: nat): nat
    requires g > 0
  {
    ChunkIndex(px / g, py / g, xs)
  }

  /** Offset of pixel coordinate `p` inside its cell. */
  function InnerOffset(p: nat, g: nat): (o: nat)
    requires g > 0
    ensures o < g
  {
    p % g
  }

  /**
   * Chunk `i`, put at its cell, covers pixel (px, py) exactly when the pixel's
   * cell is that of chunk `i`; the pixel then sits at its inner offsets in
   * the chunk.
   */
  lemma CoverExactly(px: nat, py: nat, xs: nat, g: nat, i: nat)
    requires xs > 0 && g > 0 && px < xs * g
    ensures var x0, y0 := CellX(i, xs) * g, CellY(i, xs) * g;
      (x0 <= px < x0 + g && y0 <= py < y0 + g <==> ChunkOfPixel(px, py, xs, g) == i) &&
      (ChunkOfPixel(px, py, xs, g) == i ==> px - x0 == InnerOffset(px, g) && py - y0 == InnerOffset(py, g))
  {
    ColumnInGrid(px, xs, g);
    InCell(px, CellX(i, xs), g);
    InCell(py, CellY(i, xs), g);
    CellOfIndex(px / g, py / g, xs);
    assert ChunkIndex(CellX(i, xs), CellY(i, xs), xs) == i;
  }

  /**
   * Drawing the chunks of a grid back in list order writes every pixel of
   * the grid from the chunk of its own cell, at its offset in that cell; the
   * pixels of cells not yet drawn, and those outside the grid, are untouched.
   */
  lemma {:induction false} Reassembly(img: Image, chunks: seq<Image>, xs: nat, g: nat, n: nat, px: nat, py: nat, c: nat)
    requires img.WellFormed() && xs > 0 && g > 0 && n <= |chunks|
    requires forall i | 0 <= i < |chunks| :: chunks[i].WellFormed() && chunks[i].width == g && chunks[i].height == g
    requires px < img.width && py < img.height && c < 4
    ensures px < xs * g ==> (At(PutAll(img, chunks, xs, g, n), px, py, c) ==
      if ChunkOfPixel(px, py, xs, g) < n
      then At(chunks[ChunkOfPixel(px, py, xs, g)], InnerOffset(px, g), InnerOffset(py, g), c)
      else At(img, px, py, c))
    ensures px >= xs * g ==> At(PutAll(img, chunks, xs, g, n), px, py, c) == At(img, px, py, c)
  {
    if px >= xs * g {
      RightOfGrid(img, chunks, xs, g, n, px, py, c);
    } else if n > 0 {
      Reassembly(img, chunks, xs, g, n - 1, px, py, c);
      PutAt(PutAll(img, chunks, xs, g, n - 1), chunks[n - 1], CellX(n - 1, xs) * g, CellY(n - 1, xs) * g, px, py, c);
      CoverExactly(px, py, xs, g, n - 1);
    }
  }

  /** No chunk reaches a pixel right of the grid: its bytes keep their value through every `draw`. */
  lemma {:induction false} RightOfGrid(img: Image, chunks: seq<Image>, xs: nat, g: nat, n: nat, px: nat, py: nat, c: nat)
    requires img.WellFormed() && xs > 0 && g > 0 && n <= |chunks|
    requires forall i | 0 <= i < |chunks| :: chunks[i].WellFormed() && chunks[i].width == g && chunks[i].height == g
    requires px < img.width && py < img.height && xs * g <= px && c < 4
    ensures At(PutAll(img, chunks, xs, g, n), px, py, c) == At(img, px, py, c)
  {
    if n > 0 {
      RightOfGrid(img, chunks, xs, g, n - 1, px, py, c);
      PutAt(PutAll(img, chunks, xs, g, n - 1), chunks[n - 1], CellX(n - 1, xs) * g, CellY(n - 1, xs) * g, px, py, c);
      MulMonotone(CellX(n - 1, xs) + 1, xs, g);
    }
  }

  /** Drawing unmodified chunks reproduces the canvas they were read from, byte for byte. */
  lemma {:induction false} DrawInvertsChunking(img: Image, xs: nat, ys: nat, g: nat, n: nat)
    requires img.WellFormed() && g > 0 && n <= xs * ys
    ensures xs > 0 || n == 0
    ensures PutAll(img, ChunksOf(img, xs, ys, g), xs, g, n) == img
  {
    if n > 0 {
      DrawInvertsChunking(img, xs, ys, g, n - 1);
      PutOwnRegion(img, CellX(n - 1, xs) * g, CellY(n - 1, xs) * g, g, g);
    }
  }

  // ---------------------------------------------------------------------
  // Chunks as host objects

  /** The contents of a list of chunks, as values. */
  function Snapshots(chunks: seq<ImageData>): (r: seq<Image>)
    reads set c | c in chunks :: c.data
    requires forall c | c in chunks :: c.Valid()
    ensures |r| == |chunks|
    ensures forall i | 0 <= i < |r| :: r[i].WellFormed() && r[i] == chunks[i].Snapshot()
  {
    seq(|chunks|, i requires 0 <= i < |chunks| reads set c | c in chunks :: c.data => chunks[i].Snapshot())
  }

  /**
   * The nested loops of the `Filter` and `Mask.Mask` constructors: one
   * `getImageData` per cell, row after row.
   */
  method ReadChunks(ctx: Canvas, xs: nat, ys: nat, gridSize: nat) returns (chunks: seq<ImageData>)
    requires ctx.Valid() && gridSize > 0
    ensures |chunks| == xs * ys
    ensures forall i | 0 <= i < |chunks| ::
      chunks[i].Valid() && fresh(chunks[i].data) && chunks[i].Snapshot() == ChunksOf(ctx.image, xs, ys, gridSize)[i]
    ensures forall i, j | 0 <= i < j < |chunks| :: chunks[i].data != chunks[j].data
  {
    chunks := [];
    ghost var all := ChunksOf(ctx.image, xs, ys, gridSize);
    var y := 0;
    while y < ys
      invariant 0 <= y <= ys && |chunks| == y * xs <= |all|
      invariant forall i | 0 <= i < |chunks| :: chunks[i].Valid() && fresh(chunks[i].data) && chunks[i].Snapshot() == all[i]
      invariant forall i, j | 0 <= i < j < |chunks| :: chunks[i].data != chunks[j].data
    {
      var x := 0;
      while x < xs
        invariant 0 <= x <= xs && |chunks| == y * xs + x <= |all|
        invariant forall i | 0 <= i < |chunks| :: chunks[i].Valid() && fresh(chunks[i].data) && chunks[i].Snapshot() == all[i]
        invariant forall i, j | 0 <= i < j < |chunks| :: chunks[i].data != chunks[j].data
      {
        var chunk := ctx.GetImageData(x * gridSize, y * gridSize, gridSize, gridSize);
        ChunkAtCell(ctx.image, xs, ys, gridSize, x, y);
        assert chunk.Snapshot() == all[|chunks|];
        chunks := chunks + [chunk];
        x := x + 1;
      }
      MulMonotone(y + 1, ys, xs);
      y := y + 1;
    }
  }
}
