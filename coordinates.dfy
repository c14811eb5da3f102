/**
 * The map from the 1084 x 799 editor canvas (origin top-left, y down)
 * onto a landscape US-letter page of 792 x 612 points (origin bottom-left,
 * y up), over exact reals.
 */
module Coordinates {

  const WebWidth: real := 1084.0
  const WebHeight: real := 799.0

  /** `landscape(letter)`: letter is 612 x 792 points, turned on its side. */
  const PageWidth: real := 792.0
  const PageHeight: real := 612.0

  datatype Point = Point(x: real, y: real)

  predicate OnCanvas(left: real, top: real)
  {
    0.0 <= left <= WebWidth && 0.0 <= top <= WebHeight
  }

  predicate OnPage(p: Point)
  {
    0.0 <= p.x <= PageWidth && 0.0 <= p.y <= PageHeight
  }

  /** `convert_coordinates(left, top)`: scale both axes and flip the vertical one. */
  function ConvertCoordinates(left: real, top: real): (p: Point)
    ensures OnCanvas(left, top) ==> OnPage(p)
  {
    Point((left / WebWidth) * PageWidth, PageHeight - (top / WebHeight) * PageHeight)
  }

  /** The inverse map, from page points back to canvas positions. */
  function CanvasPosition(p: Point): (c: Point)
    ensures ConvertCoordinates(c.x, c.y) == p
  {
    Point(p.x / PageWidth * WebWidth, (PageHeight - p.y) / PageHeight * WebHeight)
  }

  /** The canvas corners land on the page corners, with the vertical axis flipped. */
  lemma Corners()
    ensures ConvertCoordinates(0.0, 0.0) == Point(0.0, PageHeight)
    ensures ConvertCoordinates(WebWidth, WebHeight) == Point(PageWidth, 0.0)
    ensures ConvertCoordinates(WebWidth, 0.0) == Point(PageWidth, PageHeight)
    ensures ConvertCoordinates(0.0, WebHeight) == Point(0.0, 0.0)
  {
  }

  /** x grows strictly with `left`; y shrinks strictly as `top` grows. */
  lemma StrictlyMonotone(left1: real, top1: real, left2: real, top2: real)
    ensures left1 < left2 <==> ConvertCoordinates(left1, top1).x < ConvertCoordinates(left2, top2).x
    ensures top1 < top2 <==> ConvertCoordinates(left1, top1).y > ConvertCoordinates(left2, top2).y
  {
  }

  /** Converting a position and mapping it back gives the position again. */
  lemma RoundTrip(left: real, top: real)
    ensures CanvasPosition(ConvertCoordinates(left, top)) == Point(left, top)
  {
  }
}
