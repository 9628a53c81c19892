/** Page-relative geometry: probe locations, rectangles and the policy that
    turns an open/close pair of locations into one or two fragments. */
module Geometry {
  import opened Values

  /** Height of an A4 page in points. */
  const PageHeight: real := 842.0
  /** Width given to every paired rectangle: probes do not measure width. */
  const DefaultRectWidth: real := 400.0
  /** Smallest height of a rectangle whose node opens and closes on one page. */
  const MinSamePageHeight: real := 15.0
  /** Margin kept at the bottom of the start page and at the top of the end page. */
  const PageMargin: real := 50.0
  /** Smallest height of either fragment of a cross-page node. */
  const MinFragmentHeight: real := 50.0
  /** Side of the square marker drawn for an atomic probe. */
  const MarkerSize: real := 10.0

  /** A probe location as received: every field may be missing. */
  datatype Location = Location(page: Option<int>, x: Option<real>, y: Option<real>)

  /** A location with the defaults applied. */
  datatype Point = Point(page: int, x: real, y: real)

  /** One contiguous fragment of an element on one page. */
  datatype Rect = Rect(page: int, x: real, y: real, w: real, h: real)

  function Max(a: real, b: real): real {
    if a >= b then a else b
  }

  /** Missing page, x and y default to 1, 0 and 0. */
  function Resolve(loc: Location): (p: Point)
    ensures p.page == (if loc.page.Some? then loc.page.value else 1)
    ensures p.x == (if loc.x.Some? then loc.x.value else 0.0)
    ensures p.y == (if loc.y.Some? then loc.y.value else 0.0)
  {
    Point(loc.page.GetOr(1), loc.x.GetOr(0.0), loc.y.GetOr(0.0))
  }

  /** The fragments synthesised when a node opened at `start` closes at `end`:
      one rectangle covering the vertical span on a single page, or, across
      pages, one from the open point down to the bottom margin of the start
      page and one from the top margin of the end page down to the close point. */
  function CloseRects(start: Point, end: Point): (rs: seq<Rect>)
    ensures start.page == end.page ==>
      && |rs| == 1
      && rs[0].page == start.page && rs[0].x == start.x && rs[0].y == start.y
      && rs[0].w == DefaultRectWidth
      && rs[0].h >= MinSamePageHeight
      && rs[0].y + rs[0].h >= end.y
      && (rs[0].h == MinSamePageHeight || rs[0].y + rs[0].h == end.y)
    ensures start.page != end.page ==>
      && |rs| == 2
      && rs[0].page == start.page && rs[0].x == start.x && rs[0].y == start.y
      && rs[0].w == DefaultRectWidth
      && rs[0].h >= MinFragmentHeight
      && rs[0].y + rs[0].h >= PageHeight - PageMargin
      && (rs[0].h == MinFragmentHeight || rs[0].y + rs[0].h == PageHeight - PageMargin)
      && rs[1].page == end.page && rs[1].x == end.x && rs[1].y == PageMargin
      && rs[1].w == DefaultRectWidth
      && rs[1].h >= MinFragmentHeight
      && rs[1].y + rs[1].h >= end.y
      && (rs[1].h == MinFragmentHeight || rs[1].y + rs[1].h == end.y)
  {
    if start.page == end.page then
      [Rect(start.page, start.x, start.y, DefaultRectWidth, Max(end.y - start.y, MinSamePageHeight))]
    else
      [ Rect(start.page, start.x, start.y, DefaultRectWidth,
             Max(PageHeight - start.y - PageMargin, MinFragmentHeight)),
        Rect(end.page, end.x, PageMargin, DefaultRectWidth,
             Max(end.y - PageMargin, MinFragmentHeight)) ]
  }

  /** The fixed-size marker drawn for an atomic probe at `at`. */
  function MarkerRect(at: Point): (r: Rect)
    ensures r.page == at.page && r.x == at.x && r.y == at.y
    ensures r.w == MarkerSize && r.h == MarkerSize
  {
    Rect(at.page, at.x, at.y, MarkerSize, MarkerSize)
  }

  predicate IsMarker(r: Rect) {
    r.w == MarkerSize && r.h == MarkerSize
  }
}
