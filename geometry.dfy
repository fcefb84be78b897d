/**
 * The geometry value types of lib/geometry.js (and their copies at the top
 * of wmask.js): a point, and a rectangle that caches its four corners.
 * Neither is ever changed after it is built by the code that uses it as a
 * rectangle, so both are values here.
 */
module Geometry {

  /** A point in 2D space. */
  datatype Point = Point(x: int, y: int) {
    /** `Point.prototype.equals`: both coordinates compared with `===`. */
    predicate Equals(other: Point) {
      x == other.x && y == other.y
    }
  }

  /**
   * A rectangle: its origin, its extent, and the four corners `calcCorners`
   * caches when the rectangle is built.
   */
  datatype Rectangle = Rectangle(x: int, y: int, w: int, h: int, tl: Point, tr: Point, br: Point, bl: Point) {
    /** `topLeft()`: the cached top-left corner. */
    function TopLeft(): Point { tl }

    /** `topRight()`: the cached top-right corner. */
    function TopRight(): Point { tr }

    /** `bottomRight()`: the cached bottom-right corner. */
    function BottomRight(): Point { br }

    /** `bottomLeft()`: the cached bottom-left corner. */
    function BottomLeft(): Point { bl }

    /** `hasArea()`: the rectangle covers a positive area. */
    predicate HasArea() {
      w * h > 0
    }

    /** The corners agree with the origin and the extent, as `calcCorners` leaves them. */
    predicate CornersCached() {
      tl == Point(x, y) && tr == Point(x + w, y) && br == Point(x + w, y + h) && bl == Point(x, y + h)
    }
  }

  /** `calcCorners`: the four corners of the rectangle at (x, y) of extent w by h. */
  function CalcCorners(x: int, y: int, w: int, h: int): (r: Rectangle)
    ensures r.x == x && r.y == y && r.w == w && r.h == h
    ensures r.CornersCached()
  {
    Rectangle(x, y, w, h, Point(x, y), Point(x + w, y), Point(x + w, y + h), Point(x, y + h))
  }

  /** `new Rectangle(topLeft, bottomRight)`: the extent is the difference of the two corners. */
  function NewRectangle(topLeft: Point, bottomRight: Point): (r: Rectangle)
    ensures r.x == topLeft.x && r.y == topLeft.y
    ensures r.w == bottomRight.x - topLeft.x && r.h == bottomRight.y - topLeft.y
    ensures r.CornersCached()
    ensures r.TopLeft() == topLeft && r.BottomRight() == bottomRight
  {
    CalcCorners(topLeft.x, topLeft.y, bottomRight.x - topLeft.x, bottomRight.y - topLeft.y)
  }

  function Min(a: int, b: int): int {
    if a <= b then a else b
  }

  function Max(a: int, b: int): int {
    if a <= b then b else a
  }

  /** `Rectangle.fromPoints`: the rectangle spanned by two opposite corners, whichever two they are. */
  function FromPoints(p1: Point, p2: Point): (r: Rectangle)
    ensures r.w >= 0 && r.h >= 0
    ensures r.TopLeft() == Point(Min(p1.x, p2.x), Min(p1.y, p2.y))
    ensures r.BottomRight() == Point(Max(p1.x, p2.x), Max(p1.y, p2.y))
    ensures r.CornersCached()
  {
    NewRectangle(Point(Min(p1.x, p2.x), Min(p1.y, p2.y)), Point(Max(p1.x, p2.x), Max(p1.y, p2.y)))
  }

  // ---------------------------------------------------------------------
  // Properties

  /** `equals` holds exactly for equal points, so it is reflexive and symmetric. */
  lemma EqualsIsEquality(p: Point, q: Point)
    ensures p.Equals(q) <==> p == q
    ensures p.Equals(p)
    ensures p.Equals(q) == q.Equals(p)
  {
  }

  /** The order of the two points does not matter. */
  lemma FromPointsSymmetric(p1: Point, p2: Point)
    ensures FromPoints(p1, p2) == FromPoints(p2, p1)
  {
  }

  /** Both points lie on the border box of the rectangle they span. */
  lemma FromPointsContains(p1: Point, p2: Point)
    ensures var r := FromPoints(p1, p2);
      r.x <= p1.x <= r.x + r.w && r.y <= p1.y <= r.y + r.h &&
      r.x <= p2.x <= r.x + r.w && r.y <= p2.y <= r.y + r.h
  {
  }

  /** A rectangle spanned by two points has area exactly when the points differ in both coordinates. */
  lemma FromPointsHasArea(p1: Point, p2: Point)
    ensures FromPoints(p1, p2).HasArea() <==> p1.x != p2.x && p1.y != p2.y
  {
  }

  /** The getters return the corners of the rectangle's origin and extent. */
  lemma CornerValues(topLeft: Point, bottomRight: Point)
    ensures var r := NewRectangle(topLeft, bottomRight);
      r.TopLeft() == Point(r.x, r.y) && r.TopRight() == Point(r.x + r.w, r.y) &&
      r.BottomRight() == Point(r.x + r.w, r.y + r.h) && r.BottomLeft() == Point(r.x, r.y + r.h)
  {
  }

  /** Rebuilding a rectangle from its own top-left and bottom-right corners gives the same rectangle. */
  lemma RebuildFromCorners(r: Rectangle)
    requires r.CornersCached()
    ensures NewRectangle(r.TopLeft(), r.BottomRight()) == r
  {
  }

  // ---------------------------------------------------------------------
  // Point objects

  /** A `Point` object, for the places where the editors change a point's coordinates in place. */
  class PointRef {
    var x: int
    var y: int

    /** `new Point(x, y)`. */
    constructor (x: int, y: int)
      ensures this.x == x && this.y == y
    {
      this.x := x;
      this.y := y;
    }

    /** The coordinates the object holds now. */
    function Value(): Point
      reads this
    {
      Point(x, y)
    }
  }
}
