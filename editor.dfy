/**
 * lib/wmask.js: the selection state of the editor.  The press point and,
 * during a drag, the current point are snapped to the 8-pixel grid in place
 * (the cursor is kept as the pointer reports it); a drag spans a
 * selection from the snapped press point to the snapped current point, and
 * releasing the button either commits the selection (`selectionEnd`) or
 * clears it (`selectionClear`).
 *
 * The pointer position of an event (`layerX`, `layerY`) is a parameter of
 * each handler; the events the handlers dispatch are recorded in `events`.
 */
module Editor {
  import opened Constants
  import opened Geometry
  import opened Snapping
  import opened Wrappers

  /** The events the canvas receives from the editor. */
  datatype SelectionEvent = SelectionClear | SelectionEnd

  /** How a mouse-up ends: the selection is cleared, committed, or a `TypeError` is thrown first. */
  datatype UpOutcome = Clear | Commit | Throws

  /**
   * The decision of `onMouseUp`, given the press point, the snapped release
   * point and the current selection: `selectionStart.equals(selectionEnd)`
   * is tried first, and `selection.hasArea()` only when the points differ;
   * either call throws when its receiver is `null`.
   */
  function MouseUpOutcome(start: Option<Point>, end: Point, selection: Option<Rectangle>): (o: UpOutcome)
    ensures o == Commit <==> start.Some? && !start.value.Equals(end) && selection.Some? && selection.value.HasArea()
    ensures o == Throws <==> start.None? || (!start.value.Equals(end) && selection.None?)
  {
    if start.None? then Throws
    else if start.value.Equals(end) then Clear
    else if selection.None? then Throws
    else if !selection.value.HasArea() then Clear
    else Commit
  }

  /** The editor object, reduced to its selection state. */
  class WMask {
    var cursor: PointRef?
    var mouseDown: bool
    var selectionStart: PointRef?
    var selectionEnd: PointRef?
    var selection: Option<Rectangle>
    /** The events dispatched on the canvas so far. */
    var events: seq<SelectionEvent>

    /** The coordinates of `selectionStart`, if there is one. */
    ghost function Start(): Option<Point>
      reads this, selectionStart
    {
      if selectionStart == null then None else Some(selectionStart.Value())
    }

    /** The coordinates of `selectionEnd`, if there is one. */
    ghost function End(): Option<Point>
      reads this, selectionEnd
    {
      if selectionEnd == null then None else Some(selectionEnd.Value())
    }

    /** The coordinates of the cursor, if there is one. */
    ghost function Cursor(): Option<Point>
      reads this, cursor
    {
      if cursor == null then None else Some(cursor.Value())
    }

    /**
     * A drag always has a press point; both selection points lie on the
     * grid and are not the cursor object; a selection covers whole cells.
     */
    ghost predicate Valid()
      reads this, cursor, selectionStart, selectionEnd
    {
      && (mouseDown ==> selectionStart != null)
      && (selectionStart != null ==> Aligned(selectionStart.Value()) && selectionStart != cursor)
      && (selectionEnd != null ==> Aligned(selectionEnd.Value()) && selectionEnd != cursor)
      && (selection.Some? ==> OnGrid(selection.value))
    }

    /** The state a new editor starts in: no cursor, no drag, no selection. */
    constructor ()
      ensures Valid()
      ensures cursor == null && !mouseDown && selectionStart == null && selectionEnd == null
      ensures selection == None && events == []
    {
      cursor := null;
      mouseDown := false;
      selectionStart := null;
      selectionEnd := null;
      selection := None;
      events := [];
    }

    /** `snapToGrid(p)`: moves `p` itself to the nearest grid point and returns the same object. */
    method SnapToGrid(p: PointRef) returns (q: PointRef)
      modifies p
      ensures q == p
      ensures p.Value() == SnapPoint(old(p.Value()))
    {
      var halfGrid := GRID_SIZE / 2;
      var x0 := JsRem(p.x, GRID_SIZE);
      p.x := p.x + if x0 > halfGrid then GRID_SIZE - x0 else -x0;
      var y0 := JsRem(p.y, GRID_SIZE);
      p.y := p.y + if y0 > halfGrid then GRID_SIZE - y0 else -y0;
      q := p;
    }

    /** `onMouseMove`: moves the cursor object and, during a drag, spans the selection to the snapped pointer. */
    method OnMouseMove(layerX: int, layerY: int)
      requires Valid()
      modifies this, cursor
      ensures Valid()
      ensures Cursor() == Some(Point(layerX, layerY))
      ensures old(cursor) != null ==> cursor == old(cursor)
      ensures mouseDown == old(mouseDown) && selectionStart == old(selectionStart) && Start() == old(Start())
      ensures events == old(events)
      ensures old(mouseDown) ==> fresh(selectionEnd) && End() == Some(SnapPoint(Point(layerX, layerY)))
      ensures old(mouseDown) ==> selection == Some(FromPoints(Start().value, SnapPoint(Point(layerX, layerY))))
      ensures !old(mouseDown) ==> selectionEnd == old(selectionEnd) && End() == old(End()) && selection == old(selection)
    {
      if cursor == null {
        cursor := new PointRef(layerX, layerY);
      } else {
        cursor.x := layerX;
        cursor.y := layerY;
      }
      if mouseDown {
        var p := new PointRef(layerX, layerY);
        selectionEnd := SnapToGrid(p);
        AlignedSelection(selectionStart.Value(), selectionEnd.Value());
        selection := Some(FromPoints(selectionStart.Value(), selectionEnd.Value()));
      }
    }

    /** `onMouseDown`: starts a drag at the snapped pointer. */
    method OnMouseDown(layerX: int, layerY: int)
      requires Valid()
      modifies this
      ensures Valid()
      ensures mouseDown && fresh(selectionStart) && Start() == Some(SnapPoint(Point(layerX, layerY)))
      ensures cursor == old(cursor) && selectionEnd == old(selectionEnd)
      ensures selection == old(selection) && events == old(events)
    {
      mouseDown := true;
      var p := new PointRef(layerX, layerY);
      selectionStart := SnapToGrid(p);
    }

    /**
     * `onMouseUp`: ends the drag at the snapped pointer, then clears the
     * selection when the pointer is back on the press point or the selection
     * has no area, and commits it otherwise.  `thrown` reports the
     * `TypeError` raised when there is no press point, or no selection to
     * ask `hasArea`; nothing is dispatched then.
     */
    method OnMouseUp(layerX: int, layerY: int) returns (thrown: bool)
      requires Valid()
      modifies this
      ensures Valid()
      ensures !mouseDown && fresh(selectionEnd) && End() == Some(SnapPoint(Point(layerX, layerY)))
      ensures cursor == old(cursor) && selectionStart == old(selectionStart)
      ensures var o := MouseUpOutcome(old(Start()), SnapPoint(Point(layerX, layerY)), old(selection));
        && thrown == (o == Throws)
        && selection == (if o == Clear then None else old(selection))
        && events == old(events) + (match o case Clear => [SelectionClear] case Commit => [SelectionEnd] case Throws => [])
      ensures !thrown ==> selection.None? || selection.value.HasArea()
    {
      var p := new PointRef(layerX, layerY);
      selectionEnd := SnapToGrid(p);
      mouseDown := false;
      if selectionStart == null {
        return true;
      }
      var trigger := SelectionClear;
      if selectionStart.Value().Equals(selectionEnd.Value()) {
        selection := None;
      } else if selection.None? {
        return true;
      } else if !selection.value.HasArea() {
        selection := None;
      } else {
        trigger := SelectionEnd;
      }
      events := events + [trigger];
      thrown := false;
    }

    /** `onMouseLeave`: drops the cursor and, only during a drag, ends it as a mouse-up would. */
    method OnMouseLeave(layerX: int, layerY: int) returns (thrown: bool)
      requires Valid()
      modifies this
      ensures Valid()
      ensures cursor == null && !mouseDown && selectionStart == old(selectionStart)
      ensures !old(mouseDown) ==> !thrown && selectionEnd == old(selectionEnd) && selection == old(selection) && events == old(events)
      ensures old(mouseDown) ==> fresh(selectionEnd) && End() == Some(SnapPoint(Point(layerX, layerY)))
      ensures old(mouseDown) ==> var o := MouseUpOutcome(old(Start()), SnapPoint(Point(layerX, layerY)), old(selection));
        && thrown == (o == Throws)
        && selection == (if o == Clear then None else old(selection))
        && events == old(events) + (match o case Clear => [SelectionClear] case Commit => [SelectionEnd] case Throws => [])
    {
      cursor := null;
      thrown := false;
      if mouseDown {
        thrown := OnMouseUp(layerX, layerY);
      }
    }
  }
}
