/**
 * Grid snapping, as both editors do it (`snapToGrid` in lib/wmask.js and in
 * wmask.js): each coordinate moves to a multiple of the 8-pixel grid,
 * upwards when its remainder is more than half a cell and downwards
 * otherwise.  The remainder is JavaScript's `%`, whose sign follows the
 * dividend, so a negative coordinate always moves towards zero.
 */
module Snapping {
  import opened Arith
  import opened Constants
  import opened Geometry

  /** JavaScript `a % n` for a positive `n`: the remainder of truncating division, signed like `a`. */
  function JsRem(a: int, n: int): (r: int)
    requires n > 0
    ensures -n < r < n
    ensures (a - r) % n == 0
    ensures a >= 0 ==> r >= 0
    ensures a <= 0 ==> r <= 0
  {
    if a >= 0 then
      var q := a / n;
      assert a - a % n == q * n;
      MultipleMod(q, n);
      a % n
    else
      var q := (-a) / n;
      assert a + (-a) % n == (-q) * n;
      MultipleMod(-q, n);
      -((-a) % n)
  }

  /** One coordinate after `snapToGrid`: `v += r > half ? grid - r : -r`, with `r = v % grid`. */
  function SnapCoord(v: int): (s: int)
    ensures s % GRID_SIZE == 0
    ensures v >= 0 ==> s >= 0
  {
    var r := JsRem(v, GRID_SIZE);
    v + if r > GRID_SIZE / 2 then GRID_SIZE - r else -r
  }

  /** A point with both coordinates snapped, as the pure `snapToGrid` of wmask.js returns it. */
  function SnapPoint(p: Point): (q: Point)
    ensures Aligned(q)
  {
    Point(SnapCoord(p.x), SnapCoord(p.y))
  }

  /** Both coordinates lie on the grid. */
  predicate Aligned(p: Point) {
    p.x % GRID_SIZE == 0 && p.y % GRID_SIZE == 0
  }

  // ---------------------------------------------------------------------
  // Properties

  /** A coordinate that is not negative moves by at most half a cell, and lands on the nearest grid line. */
  lemma SnapNearest(v: int, m: int)
    requires v >= 0
    ensures Abs(SnapCoord(v) - v) <= GRID_SIZE / 2
    ensures Abs(SnapCoord(v) - v) <= Abs(m * GRID_SIZE - v)
  {
    var r := v % GRID_SIZE;
    assert v == (v / GRID_SIZE) * GRID_SIZE + r;
    if m * GRID_SIZE > v - r {
      assert m > v / GRID_SIZE;
    } else if m * GRID_SIZE < v - r {
      assert m < v / GRID_SIZE;
    }
  }

  function Abs(a: int): nat {
    if a < 0 then -a else a
  }

  /** Exactly half a cell rounds down; more than half rounds up. */
  lemma SnapRounding(v: int)
    requires v >= 0
    ensures v % GRID_SIZE <= GRID_SIZE / 2 ==> SnapCoord(v) == v - v % GRID_SIZE
    ensures v % GRID_SIZE > GRID_SIZE / 2 ==> SnapCoord(v) == v - v % GRID_SIZE + GRID_SIZE
  {
  }

  /** A negative coordinate moves towards zero, to the grid line it was truncated to. */
  lemma SnapNegativeTowardsZero(v: int)
    requires v < 0
    ensures v <= SnapCoord(v) <= 0
    ensures SnapCoord(v) - v < GRID_SIZE
  {
  }

  /** Snapping a snapped coordinate changes nothing. */
  lemma SnapIdempotent(v: int)
    ensures SnapCoord(SnapCoord(v)) == SnapCoord(v)
  {
    AlignedIsFixed(SnapCoord(v));
  }

  /** A coordinate on the grid is left where it is. */
  lemma AlignedIsFixed(v: int)
    requires v % GRID_SIZE == 0
    ensures SnapCoord(v) == v
  {
    if v < 0 {
      assert -v == (-(v / GRID_SIZE)) * GRID_SIZE;
    }
  }

  /** A rectangle covering whole grid cells: origin and extent on the grid, extent not negative, corners cached. */
  predicate OnGrid(r: Rectangle) {
    && r.x % GRID_SIZE == 0 && r.y % GRID_SIZE == 0
    && r.w >= 0 && r.h >= 0 && r.w % GRID_SIZE == 0 && r.h % GRID_SIZE == 0
    && r.CornersCached()
  }

  /** The rectangle spanned by two points on the grid covers whole grid cells. */
  lemma AlignedSelection(p1: Point, p2: Point)
    requires Aligned(p1) && Aligned(p2)
    ensures OnGrid(FromPoints(p1, p2))
  {
  }
}
