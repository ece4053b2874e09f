/** The square-counting operation of the points service. */
module PointsService {
  import opened Model
  import opened SquareSpec
  import Squares

  /** Counts the axis-aligned squares whose corners occur among the points:
      builds the coordinate index, runs over every ordered pair of list
      entries, counts the pairs that are opposite corners of a square whose
      other two corners are indexed, and divides the count by four. */
  method CountSquares(points: seq<Point>) returns (result: int)
    ensures result == RawMatches(points) / 4
    ensures result >= 0
    ensures points == [] ==> result == 0
    ensures DistinctCoordinates(points) ==> result == |Squares.SquaresIn(Index(points))|
  {
    var pointSet := set p | p in points :: (p.x, p.y);
    assert pointSet == Index(points);
    var count := 0;
    for i := 0 to |points|
      invariant count == Pairs(points[..i], points, pointSet)
    {
      var p1 := points[i];
      for j := 0 to |points|
        invariant count == Pairs(points[..i], points, pointSet) + Row(p1, points[..j], pointSet)
      {
        var p2 := points[j];
        assert points[..j + 1][..j] == points[..j];
        if p1.x == p2.x || p1.y == p2.y {
          continue;
        }
        var dx := Abs(p1.x - p2.x);
        var dy := Abs(p1.y - p2.y);
        if dx != dy {
          continue;
        }
        if (p1.x, p2.y) in pointSet && (p2.x, p1.y) in pointSet {
          count := count + 1;
        }
      }
      assert points[..|points|] == points;
      assert points[..i + 1][..i] == points[..i];
    }
    assert points[..|points|] == points;
    result := count / 4;
    if DistinctCoordinates(points) {
      Squares.CountsEverySquareFourTimes(points);
    }
  }
}
