/**
 * wmask.js: the earlier editor, with its own `Point` and `Rectangle` (the
 * same shapes as lib/geometry.js, without `hasArea`).  Its `snapToGrid`
 * builds a new point and is never called by the mouse handlers, so a
 * selection here runs between raw pointer positions, and releasing the
 * button clears it only when the pointer is back on the press point.
 */
module LegacyEditor {
  import opened Constants
  import opened Geometry
  import opened Snapping
  import opened Wrappers
  import Editor

  /** How a mouse-up ends here: a `TypeError` before any change to the selection, or the selection it leaves. */
  datatype UpOutcome = Threw | Kept(selection: Option<Rectangle>)

  /**
   * The decision of `onMouseUp`, given the press point, the release point
   * and the current selection: `equals` on a missing press point throws;
   * otherwise the selection is dropped exactly when the two points agree.
   */
  function MouseUpOutcome(start: Option<Point>, end: Point, selection: Option<Rectangle>): (o: UpOutcome)
    ensures o.Threw? <==> start.None?
    ensures o.Kept? && start.value.Equals(end) ==> o.selection.None?
    ensures o.Kept? && !start.value.Equals(end) ==> o.selection == selection
  {
    if start.None? then Threw
    else if start.value.Equals(end) then Kept(None)
    else Kept(selection)
  }

  /** The editor object, reduced to its selection state. */
  class WMask {
    var cursor: PointRef?
    var mouseDown: bool
    var selectionStart: PointRef?
    var selectionEnd: PointRef?
    var selection: Option<Rectangle>

    /** The coordinates of `selectionStart`, if there is one. */
    ghost function Start(): Option<Point>
      reads this, selectionStart
    {
      if selectionStart == null then None else Some(selectionStart.Value())
    }

    /** The coordinates of `selectionEnd`, if there is one. */
    ghost function End(): Option<Point>
      reads this, selectionEnd
    {
      if selectionEnd == null then None else Some(selectionEnd.Value())
    }

    /** The coordinates of the cursor, if there is one. */
    ghost function Cursor(): Option<Point>
      reads this, cursor
    {
      if cursor == null then None else Some(cursor.Value())
    }

    /** A drag always has a press point, which is not the cursor object; a selection has an extent that is not negative and cached corners. */
    ghost predicate Valid()
      reads this
    {
      && (mouseDown ==> selectionStart != null)
      && (selectionStart != null ==> selectionStart != cursor)
      && (selection.Some? ==> selection.value.w >= 0 && selection.value.h >= 0 && selection.value.CornersCached())
    }

    /** The state a new editor starts in: no cursor, no drag, no selection. */
    constructor ()
      ensures Valid()
      ensures cursor == null && !mouseDown && selectionStart == null && selectionEnd == null && selection == None
    {
      cursor := null;
      mouseDown := false;
      selectionStart := null;
      selectionEnd := null;
      selection := None;
    }

    /** `snapToGrid(p)`: a new point at the grid point nearest to `p`; `p` is left as it is. */
    method SnapToGrid(p: PointRef) returns (snapped: PointRef)
      ensures fresh(snapped)
      ensures snapped.Value() == SnapPoint(p.Value())
    {
      snapped := new PointRef(p.x, p.y);
      var halfGrid := GRID_SIZE / 2;
      var x0 := JsRem(p.x, GRID_SIZE);
      snapped.x := snapped.x + if x0 > halfGrid then GRID_SIZE - x0 else -x0;
      var y0 := JsRem(p.y, GRID_SIZE);
      snapped.y := snapped.y + if y0 > halfGrid then GRID_SIZE - y0 else -y0;
    }

    /** `onMouseMove`: moves the cursor object and, during a drag, spans the selection to the pointer as it is. */
    method OnMouseMove(layerX: int, layerY: int)
      requires Valid()
      modifies this, cursor
      ensures Valid()
      ensures Cursor() == Some(Point(layerX, layerY))
      ensures old(cursor) != null ==> cursor == old(cursor)
      ensures mouseDown == old(mouseDown) && selectionStart == old(selectionStart) && Start() == old(Start())
      ensures old(mouseDown) ==> fresh(selectionEnd) && End() == Some(Point(layerX, layerY))
      ensures old(mouseDown) ==> selection == Some(FromPoints(Start().value, Point(layerX, layerY)))
      ensures !old(mouseDown) ==> selectionEnd == old(selectionEnd) && selection == old(selection)
    {
      if cursor == null {
        cursor := new PointRef(layerX, layerY);
      } else {
        cursor.x := layerX;
        cursor.y := layerY;
      }
      if mouseDown {
        selectionEnd := new PointRef(layerX, layerY);
        selection := Some(FromPoints(selectionStart.Value(), selectionEnd.Value()));
      }
    }

    /** `onMouseDown`: starts a drag at the pointer. */
    method OnMouseDown(layerX: int, layerY: int)
      requires Valid()
      modifies this
      ensures Valid()
      ensures mouseDown && fresh(selectionStart) && Start() == Some(Point(layerX, layerY))
      ensures cursor == old(cursor) && selectionEnd == old(selectionEnd) && selection == old(selection)
    {
      mouseDown := true;
      selectionStart := new PointRef(layerX, layerY);
    }

    /**
     * `onMouseUp`: ends the drag at the pointer of the event being handled
     * and drops the selection when the pointer is back on the press point.
     * `thrown` reports the `TypeError` raised when there is no press point.
     */
    method OnMouseUp(layerX: int, layerY: int) returns (thrown: bool)
      requires Valid()
      modifies this
      ensures Valid()
      ensures !mouseDown && fresh(selectionEnd) && End() == Some(Point(layerX, layerY))
      ensures cursor == old(cursor) && selectionStart == old(selectionStart)
      ensures var o := MouseUpOutcome(old(Start()), Point(layerX, layerY), old(selection));
        && thrown == o.Threw?
        && selection == (if o.Threw? then old(selection) else o.selection)
    {
      selectionEnd := new PointRef(layerX, layerY);
      mouseDown := false;
      if selectionStart == null {
        return true;
      }
      if selectionStart.Value().Equals(selectionEnd.Value()) {
        selection := None;
      }
      thrown := false;
    }

    /** `onMouseLeave`: drops the cursor and, only during a drag, ends it as a mouse-up would. */
    method OnMouseLeave(layerX: int, layerY: int) returns (thrown: bool)
      requires Valid()
      modifies this
      ensures Valid()
      ensures cursor == null && !mouseDown && selectionStart == old(selectionStart)
      ensures !old(mouseDown) ==> !thrown && selectionEnd == old(selectionEnd) && selection == old(selection)
      ensures old(mouseDown) ==> fresh(selectionEnd) && End() == Some(Point(layerX, layerY))
      ensures old(mouseDown) ==>
        !thrown && selection == MouseUpOutcome(old(Start()), Point(layerX, layerY), old(selection)).selection
    {
      cursor := null;
      thrown := false;
      if mouseDown {
        thrown := OnMouseUp(layerX, layerY);
      }
    }
  }

  // ---------------------------------------------------------------------
  // Properties

  /**
   * A drag that moves along one axis only leaves a selection without area
   * here, while the later editor clears it: the points differ, so only the
   * area check of lib/wmask.js drops it.
   */
  lemma OneAxisDragKept(start: Point, end: Point)
    requires start.x == end.x && start.y != end.y
    ensures !FromPoints(start, end).HasArea()
    ensures MouseUpOutcome(Some(start), end, Some(FromPoints(start, end))) == Kept(Some(FromPoints(start, end)))
    ensures Editor.MouseUpOutcome(Some(start), end, Some(FromPoints(start, end))) == Editor.Clear
  {
    assert FromPoints(start, end).w == 0;
  }

  /** A release on the press point always clears the selection, in both editors, whatever the selection. */
  lemma ReleaseOnPressPointClears(p: Point, selection: Option<Rectangle>)
    ensures MouseUpOutcome(Some(p), p, selection) == Kept(None)
    ensures Editor.MouseUpOutcome(Some(p), p, selection) == Editor.Clear
  {
    EqualsIsEquality(p, p);
  }
}
