/** Concrete inputs: the service's own unit-test scenario, and lists with
    repeated coordinates, where the raw count can stop being a multiple of four
    and the result can exceed the number of squares. */
module Scenarios {
  import opened Model
  import opened SquareSpec
  import opened Squares
  import opened Invariance

  /** The points (±1, ±1) and (±2, ±2). */
  function NestedSquares(): (pts: seq<Point>)
  {
    [Point(1, 1), Point(-1, 1), Point(1, -1), Point(-1, -1),
     Point(2, 2), Point(-2, 2), Point(2, -2), Point(-2, -2)]
  }

  function NestedSquaresCoords(): (coords: set<Coord>)
  {
    {(1, 1), (-1, 1), (1, -1), (-1, -1), (2, 2), (-2, 2), (2, -2), (-2, -2)}
  }

  lemma NestedSquaresIndex()
    ensures Index(NestedSquares()) == NestedSquaresCoords()
  {
    var pts := NestedSquares();
    forall c | c in Index(pts) ensures c in NestedSquaresCoords() {
      IndexMembers(pts, c);
    }
    forall c | c in NestedSquaresCoords() ensures c in Index(pts) {
      assert At(c) in pts by {
        if c == (1, 1) { assert pts[0] == At(c); }
        else if c == (-1, 1) { assert pts[1] == At(c); }
        else if c == (1, -1) { assert pts[2] == At(c); }
        else if c == (-1, -1) { assert pts[3] == At(c); }
        else if c == (2, 2) { assert pts[4] == At(c); }
        else if c == (-2, 2) { assert pts[5] == At(c); }
        else if c == (2, -2) { assert pts[6] == At(c); }
        else { assert pts[7] == At(c); }
      }
      assert Key(At(c)) == c;
    }
  }

  /** The squares among (±1, ±1), (±2, ±2) are the two concentric ones. */
  lemma NestedSquaresSquares()
    ensures SquaresIn(NestedSquaresCoords()) == {Square(-1, -1, 2), Square(-2, -2, 4)}
  {
  }

  lemma NestedSquaresDistinct()
    ensures DistinctCoordinates(NestedSquares())
  {
  }

  /** The two concentric squares are the only squares, so the service
      reports two squares, as the unit test expects. */
  lemma NestedSquaresCountTwo()
    ensures RawMatches(NestedSquares()) == 8
    ensures RawMatches(NestedSquares()) / 4 == 2
  {
    NestedSquaresIndex();
    NestedSquaresSquares();
    NestedSquaresDistinct();
    CountsEverySquareFourTimes(NestedSquares());
    assert |{Square(-1, -1, 2), Square(-2, -2, 4)}| == 2;
  }

  /** The unit square (0, 0), (1, 0), (0, 1), (1, 1). */
  function UnitSquare(): (pts: seq<Point>)
  {
    [Point(0, 0), Point(1, 0), Point(0, 1), Point(1, 1)]
  }

  function UnitSquareCoords(): (coords: set<Coord>)
  {
    {(0, 0), (1, 0), (0, 1), (1, 1)}
  }

  lemma UnitSquareIndex()
    ensures Index(UnitSquare()) == UnitSquareCoords()
    ensures Index(UnitSquare() + [Point(0, 0)]) == UnitSquareCoords()
  {
    var pts := UnitSquare();
    forall c | c in Index(pts) ensures c in UnitSquareCoords() {
      IndexMembers(pts, c);
    }
    forall c | c in UnitSquareCoords() ensures c in Index(pts) {
      assert At(c) in pts by {
        if c == (0, 0) { assert pts[0] == At(c); }
        else if c == (1, 0) { assert pts[1] == At(c); }
        else if c == (0, 1) { assert pts[2] == At(c); }
        else { assert pts[3] == At(c); }
      }
      assert Key(At(c)) == c;
    }
    var more := pts + [Point(0, 0)];
    forall c ensures c in Index(more) <==> c in Index(pts) {
      IndexMembers(more, c);
      IndexMembers(pts, c);
      if c in Index(more) {
        var i :| 0 <= i < |more| && Key(more[i]) == c;
        if i == 4 {
          assert Key(pts[0]) == c;
        } else {
          assert Key(pts[i]) == c;
        }
      }
    }
  }

  lemma UnitSquareSquares()
    ensures SquaresIn(UnitSquareCoords()) == {Square(0, 0, 1)}
  {
    var index := UnitSquareCoords();
    assert Square(0, 0, 1) in SquaresIn(index) by { SquaresInIff(Square(0, 0, 1), index); }
  }

  lemma UnitSquareDistinct()
    ensures DistinctCoordinates(UnitSquare())
  {
  }

  /** The unit square is counted four times. */
  lemma UnitSquareRaw()
    ensures RawMatches(UnitSquare()) == 4
  {
    UnitSquareIndex();
    UnitSquareSquares();
    UnitSquareDistinct();
    CountsEverySquareFourTimes(UnitSquare());
  }

  /** Only the opposite corner (1, 1) matches (0, 0) in the unit square. */
  lemma OriginRow()
    ensures Row(Point(0, 0), UnitSquare(), UnitSquareCoords()) == 1
  {
    var pts, index := UnitSquare(), UnitSquareCoords();
    var o := Point(0, 0);
    assert [o][..0] == [];
    assert Row(o, [o], index) == 0;
    assert [o, Point(1, 0)][..1] == [o];
    assert Row(o, [o, Point(1, 0)], index) == 0;
    assert [o, Point(1, 0), Point(0, 1)][..2] == [o, Point(1, 0)];
    assert Row(o, [o, Point(1, 0), Point(0, 1)], index) == 0;
    assert pts[..3] == [o, Point(1, 0), Point(0, 1)];
  }

  /** Storing the corner (0, 0) of the unit square a second time gives six
      matching ordered pairs: the raw count is then not a multiple of four,
      and the service still reports one square. */
  lemma RepeatedCornerSixMatches()
    ensures RawMatches(UnitSquare() + [Point(0, 0)]) == 6
    ensures RawMatches(UnitSquare() + [Point(0, 0)]) / 4 == 1
  {
    var a, x := UnitSquare(), Point(0, 0);
    var index := UnitSquareCoords();
    UnitSquareIndex();
    UnitSquareRaw();
    OriginRow();
    PairsAppendOuter(a, [x], a + [x], index);
    PairsAppendInner(a, a, [x], index);
    PairsWithOne(a, x, index);
    RowAppend(x, a, [x], index);
    assert [x][..0] == [];
    assert Row(x, [x], index) == 0;
    assert Pairs([x], a + [x], index) == Row(x, a + [x], index) by {
      assert [x][..0] == [];
    }
  }

  /** Storing every point of a list without repeated coordinates twice makes
      the service report four times as many squares as the list holds. */
  lemma DoubledListOvercounts(pts: seq<Point>)
    requires DistinctCoordinates(pts)
    ensures RawMatches(pts + pts) / 4 == 4 * |SquaresIn(Index(pts + pts))|
  {
    DuplicatingQuadruples(pts);
    CountsEverySquareFourTimes(pts);
  }

  /** The unit square stored twice holds one square, and the service
      reports four. */
  lemma DoubledUnitSquareReportsFour()
    ensures |SquaresIn(Index(UnitSquare() + UnitSquare()))| == 1
    ensures RawMatches(UnitSquare() + UnitSquare()) / 4 == 4
  {
    UnitSquareIndex();
    UnitSquareSquares();
    UnitSquareRaw();
    DuplicatingQuadruples(UnitSquare());
  }
}
