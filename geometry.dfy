/** Geometry shared by the art board and the drag-area selector: element
    handles, points, and the bounding boxes the layout engine reports. */
module Geometry {

  /** An element handle. The DOM node identity becomes an integer id. */
  type ElementId = int

  datatype Point = Point(x: real, y: real)

  /** A bounding box as `getBoundingClientRect().toJSON()` reports it: the
      origin and size, and the four edges as separate fields. */
  datatype Rect = Rect(x: real, y: real, width: real, height: real,
                       left: real, top: real, right: real, bottom: real)
  {
    /** The box of a laid-out element: sizes are non-negative and the edges
        are derived from the origin and the size. */
    predicate Valid() {
      && 0.0 <= width && 0.0 <= height
      && left == x && top == y
      && right == x + width && bottom == y + height
    }
  }

  /** The layout collaborator: the current bounding box of every element. */
  type Layout = ElementId -> Rect

  /** The box moved by `dx` horizontally and `dy` vertically; the size is kept. */
  function Translate(r: Rect, dx: real, dy: real): (t: Rect)
    ensures r.Valid() ==> t.Valid()
    ensures t.width == r.width && t.height == r.height
  {
    Rect(r.x + dx, r.y + dy, r.width, r.height,
         r.left + dx, r.top + dy, r.right + dx, r.bottom + dy)
  }

  function Abs(v: real): (r: real)
    ensures 0.0 <= r && (r == v || r == -v)
  {
    if v < 0.0 then -v else v
  }
}
