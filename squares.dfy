/** The geometry behind the division by four: a matching ordered pair is
    exactly an ordered diagonal of a square whose four corners are indexed,
    and every such square has four ordered diagonals. */
module Squares {
  import opened Model
  import opened SquareSpec

  /** An axis-aligned square: its lower-left corner and its side length. */
  datatype Square = Square(left: int, bottom: int, side: int)

  function LowerLeft(s: Square): (corner: Point) { Point(s.left, s.bottom) }
  function LowerRight(s: Square): (corner: Point) { Point(s.left + s.side, s.bottom) }
  function UpperLeft(s: Square): (corner: Point) { Point(s.left, s.bottom + s.side) }
  function UpperRight(s: Square): (corner: Point) { Point(s.left + s.side, s.bottom + s.side) }

  /** s has positive side and all four of its corners occur in the index. */
  ghost predicate IsSquareIn(s: Square, index: set<Coord>)
  {
    && s.side > 0
    && Key(LowerLeft(s)) in index
    && Key(LowerRight(s)) in index
    && Key(UpperLeft(s)) in index
    && Key(UpperRight(s)) in index
  }

  /** The squares of the index, enumerated by lower-left and upper-right corner. */
  ghost function SquaresIn(index: set<Coord>): (squares: set<Square>)
  {
    set a, b | a in index && b in index && a.0 < b.0 && b.0 - a.0 == b.1 - a.1
                 && (a.0, b.1) in index && (b.0, a.1) in index
      :: Square(a.0, a.1, b.0 - a.0)
  }

  /** The enumeration finds exactly the squares with positive side whose
      four corners are indexed. */
  lemma SquaresInIff(s: Square, index: set<Coord>)
    ensures s in SquaresIn(index) <==> IsSquareIn(s, index)
  {
  }

  /** The four ordered diagonals of a square. */
  function Diagonals(s: Square): (diagonals: set<(Point, Point)>)
  {
    { (LowerLeft(s), UpperRight(s)), (UpperRight(s), LowerLeft(s)),
      (LowerRight(s), UpperLeft(s)), (UpperLeft(s), LowerRight(s)) }
  }

  /** The square that has p and q as opposite corners. */
  function SquareOf(p: Point, q: Point): (s: Square)
  {
    Square(if p.x < q.x then p.x else q.x, if p.y < q.y then p.y else q.y, Abs(p.x - q.x))
  }

  /** A square of positive side has four different ordered diagonals, and
      each of them determines the square. */
  lemma DiagonalsOfSquare(s: Square)
    requires s.side > 0
    ensures |Diagonals(s)| == 4
    ensures forall d :: d in Diagonals(s) ==> SquareOf(d.0, d.1) == s
  {
  }

  /** For two indexed points, the match test of the inner loop holds exactly
      when they are opposite corners of a square whose four corners are all
      indexed; that square is then the one they span. */
  lemma MatchesIffDiagonal(p: Point, q: Point, index: set<Coord>)
    requires Key(p) in index && Key(q) in index
    ensures Matches(p, q, index) <==> exists s :: IsSquareIn(s, index) && (p, q) in Diagonals(s)
    ensures Matches(p, q, index) ==> IsSquareIn(SquareOf(p, q), index) && (p, q) in Diagonals(SquareOf(p, q))
  {
    if Matches(p, q, index) {
      var s := SquareOf(p, q);
      assert IsSquareIn(s, index) && (p, q) in Diagonals(s);
    }
  }

  /** The ordered pairs of indexed points that pass the match test. */
  ghost function MatchedPairs(index: set<Coord>): (pairs: set<(Point, Point)>)
  {
    set a, b | a in index && b in index && Matches(At(a), At(b), index) :: (At(a), At(b))
  }

  /** If every element of D belongs to the part of exactly one element of S,
      and every element of S owns a part of k elements inside D, then D has
      k elements for each element of S. */
  lemma {:induction false} CountByParts<A, B>(D: set<A>, S: set<B>, owner: A -> B, part: B -> set<A>, k: nat)
    requires forall d :: d in D ==> owner(d) in S && d in part(owner(d))
    requires forall s :: s in S ==> |part(s)| == k && part(s) <= D
    requires forall s, d :: s in S && d in part(s) ==> owner(d) == s
    ensures |D| == k * |S|
    decreases S
  {
    if S == {} {
      assert D == {};
    } else {
      var s :| s in S;
      var D', S' := D - part(s), S - {s};
      forall t | t in S' ensures part(t) <= D' {
        forall d | d in part(t) ensures d !in part(s) {
          assert owner(d) == t;
        }
      }
      CountByParts(D', S', owner, part, k);
      assert D == D' + part(s);
    }
  }

  /** Every square of the index is matched by exactly four ordered pairs. */
  lemma MatchedPairsFourPerSquare(index: set<Coord>)
    ensures |MatchedPairs(index)| == 4 * |SquaresIn(index)|
  {
    var D, S := MatchedPairs(index), SquaresIn(index);
    forall d | d in D
      ensures SquareOf(d.0, d.1) in S && d in Diagonals(SquareOf(d.0, d.1))
    {
      var a, b :| a in index && b in index && Matches(At(a), At(b), index) && d == (At(a), At(b));
      MatchesIffDiagonal(d.0, d.1, index);
      SquaresInIff(SquareOf(d.0, d.1), index);
    }
    forall s | s in S ensures |Diagonals(s)| == 4 && Diagonals(s) <= D {
      SquaresInIff(s, index);
      DiagonalsOfSquare(s);
      forall d | d in Diagonals(s) ensures d in D {
        MatchesIffDiagonal(d.0, d.1, index);
        assert At(Key(d.0)) == d.0 && At(Key(d.1)) == d.1;
      }
    }
    forall s, d | s in S && d in Diagonals(s) ensures SquareOf(d.0, d.1) == s {
      SquaresInIff(s, index);
      DiagonalsOfSquare(s);
    }
    CountByParts(D, S, (d: (Point, Point)) => SquareOf(d.0, d.1), Diagonals, 4);
  }

  /** The ordered pairs of entries of ps and qs that pass the match test. */
  ghost function MatchSet(ps: seq<Point>, qs: seq<Point>, index: set<Coord>): (pairs: set<(Point, Point)>)
  {
    set p, q | p in ps && q in qs && Matches(p, q, index) :: (p, q)
  }

  lemma DistinctPrefix(pts: seq<Point>, n: nat)
    requires DistinctCoordinates(pts) && n <= |pts|
    ensures DistinctCoordinates(pts[..n])
    ensures forall i :: n <= i < |pts| ==> pts[i] !in pts[..n]
  {
  }

  /** Without repeated coordinates, one run of the inner loop counts the
      different matching pairs it meets. */
  lemma {:induction false} RowCountsPairs(p: Point, qs: seq<Point>, index: set<Coord>)
    requires DistinctCoordinates(qs)
    ensures Row(p, qs, index) == |set q | q in qs && Matches(p, q, index) :: (p, q)|
    decreases |qs|
  {
    if qs != [] {
      var qs', q := qs[..|qs| - 1], qs[|qs| - 1];
      DistinctPrefix(qs, |qs| - 1);
      RowCountsPairs(p, qs', index);
      var before := set q' | q' in qs' && Matches(p, q', index) :: (p, q');
      var after := set q' | q' in qs && Matches(p, q', index) :: (p, q');
      assert qs == qs' + [q];
      if Matches(p, q, index) {
        assert after == before + {(p, q)};
        assert (p, q) !in before;
      } else {
        assert after == before;
      }
    }
  }

  /** Without repeated coordinates, the nested loops count the different
      matching pairs. */
  lemma {:induction false} PairsCountsPairs(ps: seq<Point>, qs: seq<Point>, index: set<Coord>)
    requires DistinctCoordinates(ps) && DistinctCoordinates(qs)
    ensures Pairs(ps, qs, index) == |MatchSet(ps, qs, index)|
    decreases |ps|
  {
    if ps != [] {
      var ps', p := ps[..|ps| - 1], ps[|ps| - 1];
      DistinctPrefix(ps, |ps| - 1);
      PairsCountsPairs(ps', qs, index);
      RowCountsPairs(p, qs, index);
      var row := set q | q in qs && Matches(p, q, index) :: (p, q);
      assert ps == ps' + [p];
      assert MatchSet(ps, qs, index) == MatchSet(ps', qs, index) + row;
      assert MatchSet(ps', qs, index) !! row;
    }
  }

  /** For a list without repeated coordinates the raw match count is exactly
      four times the number of different squares with positive side whose
      corners all occur in the list: each square has two diagonals and each
      diagonal is met in both orders. */
  lemma CountsEverySquareFourTimes(pts: seq<Point>)
    requires DistinctCoordinates(pts)
    ensures RawMatches(pts) == 4 * |SquaresIn(Index(pts))|
  {
    var index := Index(pts);
    PairsCountsPairs(pts, pts, index);
    forall d | d in MatchSet(pts, pts, index) ensures d in MatchedPairs(index) {
      assert At(Key(d.0)) == d.0 && At(Key(d.1)) == d.1;
    }
    forall d | d in MatchedPairs(index) ensures d in MatchSet(pts, pts, index) {
      var a, b :| a in index && b in index && Matches(At(a), At(b), index) && d == (At(a), At(b));
      IndexMembers(pts, a);
      IndexMembers(pts, b);
    }
    assert MatchSet(pts, pts, index) == MatchedPairs(index);
    MatchedPairsFourPerSquare(index);
  }
}
