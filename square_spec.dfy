/** What CountSquares computes, stated as functions: the point index, the
    test applied to one ordered pair of list entries, and the number of
    ordered pairs that pass it. */
module SquareSpec {
  import opened Model

  function Abs(n: int): (m: nat)
  {
    if n < 0 then -n else n
  }

  /** The index of every coordinate pair that occurs in the list. */
  function Index(pts: seq<Point>): (index: set<Coord>)
  {
    set p | p in pts :: Key(p)
  }

  /** The test the inner loop applies to the ordered pair (p1, p2): the two
      points differ in both coordinates, span a square bounding box, and both
      remaining corners occur in the index. */
  predicate Matches(p1: Point, p2: Point, index: set<Coord>)
  {
    && p1.x != p2.x
    && p1.y != p2.y
    && Abs(p1.x - p2.x) == Abs(p1.y - p2.y)
    && (p1.x, p2.y) in index
    && (p2.x, p1.y) in index
  }

  /** How many entries q of qs make (p1, q) match: one run of the inner loop. */
  function Row(p1: Point, qs: seq<Point>, index: set<Coord>): (n: nat)
  {
    if qs == [] then 0
    else Row(p1, qs[..|qs| - 1], index) + (if Matches(p1, qs[|qs| - 1], index) then 1 else 0)
  }

  /** How many ordered pairs (p, q), p from ps and q from qs, match. */
  function Pairs(ps: seq<Point>, qs: seq<Point>, index: set<Coord>): (n: nat)
  {
    if ps == [] then 0
    else Pairs(ps[..|ps| - 1], qs, index) + Row(ps[|ps| - 1], qs, index)
  }

  /** The counter's final value: matching ordered pairs of list entries,
      against the index of the whole list. */
  function RawMatches(pts: seq<Point>): (n: nat)
  {
    Pairs(pts, pts, Index(pts))
  }

  /** Every entry of the list is in the index, and nothing else is. */
  lemma IndexMembers(pts: seq<Point>, c: Coord)
    ensures c in Index(pts) <==> exists i :: 0 <= i < |pts| && Key(pts[i]) == c
  {
  }

  /** The match test is symmetric in its two points. */
  lemma MatchesSymmetric(p1: Point, p2: Point, index: set<Coord>)
    ensures Matches(p1, p2, index) <==> Matches(p2, p1, index)
  {
  }

  /** A pair whose points share an X or a Y never matches. */
  lemma SharedCoordinateNeverMatches(p1: Point, p2: Point, index: set<Coord>)
    requires p1.x == p2.x || p1.y == p2.y
    ensures !Matches(p1, p2, index)
  {
  }

  /** No point matches itself, whatever the index holds. */
  lemma NoSelfMatch(p: Point, index: set<Coord>)
    ensures !Matches(p, p, index)
  {
  }

  /** Splitting the inner list splits the count. */
  lemma {:induction false} RowAppend(p: Point, b: seq<Point>, c: seq<Point>, index: set<Coord>)
    ensures Row(p, b + c, index) == Row(p, b, index) + Row(p, c, index)
    decreases |c|
  {
    if c == [] {
      assert b + c == b;
    } else {
      var c' := c[..|c| - 1];
      assert (b + c)[..|b + c| - 1] == b + c';
      RowAppend(p, b, c', index);
    }
  }

  /** Splitting the inner list splits the pair count. */
  lemma {:induction false} PairsAppendInner(a: seq<Point>, b: seq<Point>, c: seq<Point>, index: set<Coord>)
    ensures Pairs(a, b + c, index) == Pairs(a, b, index) + Pairs(a, c, index)
    decreases |a|
  {
    if a != [] {
      PairsAppendInner(a[..|a| - 1], b, c, index);
      RowAppend(a[|a| - 1], b, c, index);
    }
  }

  /** Splitting the outer list splits the pair count. */
  lemma {:induction false} PairsAppendOuter(a: seq<Point>, b: seq<Point>, c: seq<Point>, index: set<Coord>)
    ensures Pairs(a + b, c, index) == Pairs(a, c, index) + Pairs(b, c, index)
    decreases |b|
  {
    if b == [] {
      assert a + b == a;
    } else {
      var b' := b[..|b| - 1];
      assert (a + b)[..|a + b| - 1] == a + b';
      PairsAppendOuter(a, b', c, index);
    }
  }

  /** Pairing a list with one point counts the same as pairing that point
      with the list, because the match test is symmetric. */
  lemma {:induction false} PairsWithOne(a: seq<Point>, q: Point, index: set<Coord>)
    ensures Pairs(a, [q], index) == Row(q, a, index)
    decreases |a|
  {
    if a != [] {
      PairsWithOne(a[..|a| - 1], q, index);
      MatchesSymmetric(a[|a| - 1], q, index);
      assert [q][..0] == [];
      assert Row(a[|a| - 1], [q], index) == if Matches(a[|a| - 1], q, index) then 1 else 0;
    }
  }

  /** Pairing a list with itself always counts an even number of matches:
      (p, q) matches exactly when (q, p) does, and no point matches itself. */
  lemma {:induction false} PairsWithSelfEven(a: seq<Point>, index: set<Coord>)
    ensures Pairs(a, a, index) % 2 == 0
    decreases |a|
  {
    if a != [] {
      var a', q := a[..|a| - 1], a[|a| - 1];
      assert a == a' + [q];
      PairsWithSelfEven(a', index);
      PairsAppendInner(a', a', [q], index);
      PairsWithOne(a', q, index);
      RowAppend(q, a', [q], index);
      assert [q][..0] == [];
      assert Row(q, [q], index) == 0;
    }
  }

  /** The raw match count is always even. */
  lemma RawMatchesEven(pts: seq<Point>)
    ensures RawMatches(pts) % 2 == 0
  {
    PairsWithSelfEven(pts, Index(pts));
  }

  /** The count is zero exactly when no point of ps matches any point of qs. */
  lemma {:induction false} PairsZeroIff(ps: seq<Point>, qs: seq<Point>, index: set<Coord>)
    ensures Pairs(ps, qs, index) == 0 <==>
            forall i, j :: 0 <= i < |ps| && 0 <= j < |qs| ==> !Matches(ps[i], qs[j], index)
    decreases |ps|
  {
    if ps != [] {
      var ps', p := ps[..|ps| - 1], ps[|ps| - 1];
      PairsZeroIff(ps', qs, index);
      RowZeroIff(p, qs, index);
      if Pairs(ps, qs, index) == 0 {
        forall i, j | 0 <= i < |ps| && 0 <= j < |qs|
          ensures !Matches(ps[i], qs[j], index)
        {
          if i < |ps| - 1 {
            assert ps[i] == ps'[i];
          }
        }
      } else {
        if Pairs(ps', qs, index) != 0 {
          var i, j :| 0 <= i < |ps'| && 0 <= j < |qs| && Matches(ps'[i], qs[j], index);
          assert ps[i] == ps'[i];
        }
      }
    }
  }

  /** A row count is zero exactly when no entry of qs matches p. */
  lemma {:induction false} RowZeroIff(p: Point, qs: seq<Point>, index: set<Coord>)
    ensures Row(p, qs, index) == 0 <==> forall j :: 0 <= j < |qs| ==> !Matches(p, qs[j], index)
    decreases |qs|
  {
    if qs != [] {
      var qs' := qs[..|qs| - 1];
      RowZeroIff(p, qs', index);
      if Row(p, qs, index) == 0 {
        forall j | 0 <= j < |qs| ensures !Matches(p, qs[j], index) {
          if j < |qs| - 1 {
            assert qs[j] == qs'[j];
          }
        }
      } else if Row(p, qs', index) != 0 {
        var j :| 0 <= j < |qs'| && Matches(p, qs'[j], index);
        assert qs[j] == qs'[j];
      }
    }
  }

  /** A matching pair of list entries brings four different coordinate pairs
      into the index: the two points and the two corners looked up. */
  lemma MatchNeedsFourCoordinates(p1: Point, p2: Point, index: set<Coord>)
    requires Key(p1) in index && Key(p2) in index
    requires Matches(p1, p2, index)
    ensures |index| >= 4
  {
    var corners := {Key(p1), Key(p2), (p1.x, p2.y), (p2.x, p1.y)};
    assert |corners| == 4;
    assert corners <= index;
    SubsetSize(corners, index);
  }

  lemma SubsetSize<T>(a: set<T>, b: set<T>)
    requires a <= b
    ensures |a| <= |b|
  {
    assert b == a + (b - a);
  }

  /** With fewer than four different coordinate pairs in the list, nothing
      matches and the count is zero. */
  lemma FewCoordinatesNoMatch(pts: seq<Point>)
    requires |Index(pts)| < 4
    ensures RawMatches(pts) == 0
  {
    var index := Index(pts);
    forall i, j | 0 <= i < |pts| && 0 <= j < |pts|
      ensures !Matches(pts[i], pts[j], index)
    {
      if Matches(pts[i], pts[j], index) {
        MatchNeedsFourCoordinates(pts[i], pts[j], index);
      }
    }
    PairsZeroIff(pts, pts, index);
  }

  /** The index holds at most one coordinate pair per list entry. */
  lemma {:induction false} IndexSize(pts: seq<Point>)
    ensures |Index(pts)| <= |pts|
    decreases |pts|
  {
    if pts != [] {
      var pts' := pts[..|pts| - 1];
      IndexSize(pts');
      assert pts == pts' + [pts[|pts| - 1]];
      assert Index(pts) == Index(pts') + {Key(pts[|pts| - 1])};
    }
  }

  /** With fewer than four list entries the count is zero. */
  lemma FewPointsNoMatch(pts: seq<Point>)
    requires |pts| < 4
    ensures RawMatches(pts) == 0
  {
    IndexSize(pts);
    FewCoordinatesNoMatch(pts);
  }
}
