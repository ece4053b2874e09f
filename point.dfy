/** The point entity of the service: a location on the integer plane.
    Its database identifier and its text form take no part in counting
    squares, so only the two coordinates are kept. */
module Model {

  /** A point with integer coordinates. */
  datatype Point = Point(x: int, y: int)

  /** A coordinate pair, the element type of the point index. */
  type Coord = (int, int)

  /** The coordinate pair of a point, as stored in the index. */
  function Key(p: Point): (c: Coord)
  {
    (p.x, p.y)
  }

  /** The point at a coordinate pair. */
  function At(c: Coord): (p: Point)
  {
    Point(c.0, c.1)
  }

  /** No two entries of the list sit at the same coordinates. */
  predicate DistinctCoordinates(pts: seq<Point>)
  {
    forall i, j :: 0 <= i < j < |pts| ==> Key(pts[i]) != Key(pts[j])
  }
}
