/**
 * The pan/zoom transform: `offsetX`, `offsetY` and `scale` map world
 * coordinates (where notes live) to screen coordinates (where the pointer is).
 * Coordinates are exact reals.
 */
module Viewport {

  datatype Point = Point(x: real, y: real)

  /** The three transform variables; the drawing transform is `screen = world * scale + offset`. */
  datatype View = View(offsetX: real, offsetY: real, scale: real)

  /** The transform the board starts with: no offset, scale 1. */
  const Initial: View := View(0.0, 0.0, 1.0)

  /** `ctx.setTransform(scale, 0, 0, scale, offsetX, offsetY)`: where a world point is drawn. */
  function WorldToScreen(v: View, w: Point): Point {
    Point(w.x * v.scale + v.offsetX, w.y * v.scale + v.offsetY)
  }

  /** `screenToWorld`: the world point drawn at a screen point, the inverse of the drawing transform. */
  function ScreenToWorld(v: View, s: Point): (w: Point)
    requires v.scale != 0.0
    ensures WorldToScreen(v, w) == s
  {
    var x := (s.x - v.offsetX) / v.scale;
    var y := (s.y - v.offsetY) / v.scale;
    assert x * v.scale == s.x - v.offsetX;
    assert y * v.scale == s.y - v.offsetY;
    assert WorldToScreen(v, Point(x, y)) == Point(s.x, s.y);
    Point(x, y)
  }

  /** Converting a world point to the screen and back gives the same world point. */
  lemma WorldScreenWorld(v: View, w: Point)
    requires v.scale != 0.0
    ensures ScreenToWorld(v, WorldToScreen(v, w)) == w
  {
  }

  /** The pointer state of the drag handlers together with the transform they move. */
  datatype Drag = Drag(view: View, dragging: bool, last: Point)

  /**
   * `mousemove`: while dragging, the offset moves by the pointer's
   * displacement since the last event and the pointer position is recorded;
   * otherwise nothing changes.
   */
  function Move(d: Drag, pointer: Point): (r: Drag)
    ensures r.dragging == d.dragging && r.view.scale == d.view.scale
    ensures !d.dragging ==> r == d
    ensures d.dragging ==> r.last == pointer
    ensures d.dragging ==> r.view.offsetX - d.view.offsetX == pointer.x - d.last.x
    ensures d.dragging ==> r.view.offsetY - d.view.offsetY == pointer.y - d.last.y
  {
    if d.dragging then
      var dx := pointer.x - d.last.x;
      var dy := pointer.y - d.last.y;
      Drag(View(d.view.offsetX + dx, d.view.offsetY + dy, d.view.scale), true, pointer)
    else d
  }

  /** A run of `mousemove` events, in order. */
  function MoveAll(d: Drag, pointers: seq<Point>): Drag
    decreases |pointers|
  {
    if pointers == [] then d else MoveAll(Move(d, pointers[0]), pointers[1..])
  }

  /** Moves that arrive while not dragging change nothing. */
  lemma {:induction false} MoveAllIdle(d: Drag, pointers: seq<Point>)
    requires !d.dragging
    ensures MoveAll(d, pointers) == d
    decreases |pointers|
  {
    if pointers != [] {
      MoveAllIdle(Move(d, pointers[0]), pointers[1..]);
    }
  }

  /**
   * Over a drag, the total change of the offset equals the total displacement
   * of the pointer, from where the drag last recorded it to the final event;
   * the scale is untouched.
   */
  lemma {:induction false} DragTelescopes(d: Drag, pointers: seq<Point>)
    requires d.dragging && pointers != []
    ensures var r := MoveAll(d, pointers); var p := pointers[|pointers| - 1];
      && r.dragging && r.last == p
      && r.view == View(d.view.offsetX + (p.x - d.last.x), d.view.offsetY + (p.y - d.last.y), d.view.scale)
    decreases |pointers|
  {
    if |pointers| > 1 {
      DragTelescopes(Move(d, pointers[0]), pointers[1..]);
    }
  }

  /** The wheel's zoom factor: 1.1 when the wheel moves up (`deltaY < 0`), 0.9 otherwise. */
  function ZoomFactor(deltaY: real): (z: real)
    ensures z > 0.0
    ensures z > 1.0 <==> deltaY < 0.0
  {
    if deltaY < 0.0 then 1.1 else 0.9
  }

  /**
   * The `wheel` handler: the scale is multiplied by the zoom factor and the
   * offset moved by `(m * zoom - m) * scale`, where `m` is the world point
   * under the cursor before the zoom and `scale` is the NEW scale.
   */
  function Zoomed(v: View, cursor: Point, deltaY: real): (r: View)
    requires v.scale > 0.0
    ensures r.scale > 0.0
    ensures r.scale == v.scale * ZoomFactor(deltaY)
  {
    var m := ScreenToWorld(v, cursor);
    var zoom := ZoomFactor(deltaY);
    var scale := v.scale * zoom;
    View(v.offsetX - (m.x * zoom - m.x) * scale, v.offsetY - (m.y * zoom - m.y) * scale, scale)
  }

  /**
   * The world point under the cursor after a zoom is the one before it
   * multiplied by `1/zoom + zoom - 1`: 111/110 when zooming in, 91/90 when
   * zooming out. So the cursor stays on the same world point only where that
   * point is the world origin.
   */
  lemma ZoomDrift(v: View, cursor: Point, deltaY: real)
    requires v.scale > 0.0
    ensures var m := ScreenToWorld(v, cursor); var k := if deltaY < 0.0 then 111.0 / 110.0 else 91.0 / 90.0;
      ScreenToWorld(Zoomed(v, cursor, deltaY), cursor) == Point(m.x * k, m.y * k)
  {
    var m := ScreenToWorld(v, cursor);
    var z := ZoomFactor(deltaY);
    var s := v.scale;
    var r := Zoomed(v, cursor, deltaY);
    assert cursor.x - v.offsetX == m.x * s;
    assert cursor.y - v.offsetY == m.y * s;
    assert cursor.x - r.offsetX == m.x * s + (m.x * z - m.x) * (s * z);
    assert cursor.y - r.offsetY == m.y * s + (m.y * z - m.y) * (s * z);
    assert (m.x * s + (m.x * z - m.x) * (s * z)) / (s * z) == m.x * (1.0 / z + z - 1.0);
    assert (m.y * s + (m.y * z - m.y) * (s * z)) / (s * z) == m.y * (1.0 / z + z - 1.0);
  }

  /**
   * The go-to-coordinate handler's new transform: the offset that puts the
   * world point `target` at the centre of a `width` by `height` canvas, at the
   * current scale.
   */
  function Centered(v: View, width: real, height: real, target: Point): (r: View)
    requires v.scale != 0.0
    ensures r.scale == v.scale
    ensures ScreenToWorld(r, Point(width / 2.0, height / 2.0)) == target
  {
    View(width / 2.0 - target.x * v.scale, height / 2.0 - target.y * v.scale, v.scale)
  }
}
