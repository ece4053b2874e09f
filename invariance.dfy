/** How the count responds to changes of the input list: reordering it,
    storing every point twice, and moving the plane by a translation, a
    reflection or an exchange of the axes. */
module Invariance {
  import opened Model
  import opened SquareSpec

  /** Removing one entry from the inner list removes its contribution. */
  lemma RowRemove(p: Point, qs: seq<Point>, k: nat, index: set<Coord>)
    requires k < |qs|
    ensures Row(p, qs, index) == Row(p, qs[..k] + qs[k + 1..], index) + (if Matches(p, qs[k], index) then 1 else 0)
  {
    assert qs == qs[..k] + [qs[k]] + qs[k + 1..];
    RowAppend(p, qs[..k] + [qs[k]], qs[k + 1..], index);
    RowAppend(p, qs[..k], [qs[k]], index);
    RowAppend(p, qs[..k], qs[k + 1..], index);
    assert [qs[k]][..0] == [];
  }

  /** A run of the inner loop depends only on which entries the list holds,
      not on their order. */
  lemma {:induction false} RowReorder(p: Point, qs: seq<Point>, rs: seq<Point>, index: set<Coord>)
    requires multiset(qs) == multiset(rs)
    ensures Row(p, qs, index) == Row(p, rs, index)
    decreases |qs|
  {
    if qs == [] {
      assert |rs| == |multiset(rs)| == 0;
    } else {
      var qs', q := qs[..|qs| - 1], qs[|qs| - 1];
      assert qs == qs' + [q];
      assert q in multiset(rs);
      var k :| 0 <= k < |rs| && rs[k] == q;
      var rs' := rs[..k] + rs[k + 1..];
      assert rs == rs[..k] + [q] + rs[k + 1..];
      assert multiset(rs) == multiset(rs[..k]) + multiset([q]) + multiset(rs[k + 1..]);
      assert multiset(qs) == multiset(qs') + multiset([q]);
      assert multiset(rs') == multiset(rs[..k]) + multiset(rs[k + 1..]);
      assert multiset(rs') == multiset(rs) - multiset([q]);
      assert multiset(rs') == multiset(qs');
      RowReorder(p, qs', rs', index);
      RowRemove(p, rs, k, index);
    }
  }

  /** The pair count depends only on which entries the two lists hold. */
  lemma {:induction false} PairsReorder(ps: seq<Point>, ps2: seq<Point>, qs: seq<Point>, qs2: seq<Point>, index: set<Coord>)
    requires multiset(ps) == multiset(ps2) && multiset(qs) == multiset(qs2)
    ensures Pairs(ps, qs, index) == Pairs(ps2, qs2, index)
    decreases |ps|
  {
    if ps == [] {
      assert |ps2| == |multiset(ps2)| == 0;
    } else {
      var ps', p := ps[..|ps| - 1], ps[|ps| - 1];
      assert ps == ps' + [p];
      assert p in multiset(ps2);
      var k :| 0 <= k < |ps2| && ps2[k] == p;
      var rest := ps2[..k] + ps2[k + 1..];
      assert ps2 == ps2[..k] + [p] + ps2[k + 1..];
      assert multiset(ps2) == multiset(ps2[..k]) + multiset([p]) + multiset(ps2[k + 1..]);
      assert multiset(ps) == multiset(ps') + multiset([p]);
      assert multiset(rest) == multiset(ps2[..k]) + multiset(ps2[k + 1..]);
      assert multiset(rest) == multiset(ps2) - multiset([p]);
      assert multiset(rest) == multiset(ps');
      PairsReorder(ps', rest, qs, qs2, index);
      RowReorder(p, qs, qs2, index);
      PairsAppendOuter(ps2[..k] + [p], ps2[k + 1..], qs2, index);
      PairsAppendOuter(ps2[..k], [p], qs2, index);
      PairsAppendOuter(ps2[..k], ps2[k + 1..], qs2, index);
      assert [p][..0] == [];
    }
  }

  /** Reordering the input list does not change the raw count, hence not the
      result. */
  lemma ReorderKeepsCount(pts: seq<Point>, pts2: seq<Point>)
    requires multiset(pts) == multiset(pts2)
    ensures RawMatches(pts) == RawMatches(pts2)
  {
    assert Index(pts) == Index(pts2) by {
      forall c ensures c in Index(pts) <==> c in Index(pts2) {
        IndexMembers(pts, c);
        IndexMembers(pts2, c);
        if c in Index(pts) {
          var i :| 0 <= i < |pts| && Key(pts[i]) == c;
          assert pts[i] in multiset(pts2);
        }
        if c in Index(pts2) {
          var i :| 0 <= i < |pts2| && Key(pts2[i]) == c;
          assert pts2[i] in multiset(pts);
        }
      }
    }
    PairsReorder(pts, pts2, pts, pts2, Index(pts));
  }

  /** Storing every point twice multiplies the raw count by four: each
      matching pair of positions is met once for each choice of copies. The
      service then reports as many squares as there were matching ordered
      pairs before. */
  lemma DuplicatingQuadruples(pts: seq<Point>)
    ensures RawMatches(pts + pts) == 4 * RawMatches(pts)
    ensures RawMatches(pts + pts) / 4 == RawMatches(pts)
    ensures Index(pts + pts) == Index(pts)
  {
    var index := Index(pts);
    assert Index(pts + pts) == index by {
      forall c ensures c in Index(pts + pts) <==> c in index {
        IndexMembers(pts + pts, c);
        IndexMembers(pts, c);
        if c in Index(pts + pts) {
          var i :| 0 <= i < |pts + pts| && Key((pts + pts)[i]) == c;
          if i >= |pts| {
            assert Key(pts[i - |pts|]) == c;
          }
        }
      }
    }
    PairsAppendOuter(pts, pts, pts + pts, index);
    PairsAppendInner(pts, pts, pts, index);
  }

  /** The list with f applied to every entry, in the same order. */
  function MapPoints(f: Point -> Point, pts: seq<Point>): (mapped: seq<Point>)
  {
    if pts == [] then [] else MapPoints(f, pts[..|pts| - 1]) + [f(pts[|pts| - 1])]
  }

  /** When f has inverse g, a point is an entry of the mapped list exactly
      when its preimage is an entry of the list. */
  lemma {:induction false} MapPointsMembers(f: Point -> Point, g: Point -> Point, pts: seq<Point>, p: Point)
    requires forall q :: g(f(q)) == q && f(g(q)) == q
    ensures p in MapPoints(f, pts) <==> g(p) in pts
    decreases |pts|
  {
    if pts != [] {
      var pts' := pts[..|pts| - 1];
      MapPointsMembers(f, g, pts', p);
      assert pts == pts' + [pts[|pts| - 1]];
    }
  }

  /** The index of the mapped list is the image of the index of the list. */
  lemma IndexUnderMap(f: Point -> Point, g: Point -> Point, pts: seq<Point>, c: Coord)
    requires forall q :: g(f(q)) == q && f(g(q)) == q
    ensures c in Index(MapPoints(f, pts)) <==> Key(g(At(c))) in Index(pts)
  {
    MapPointsMembers(f, g, pts, At(c));
    if c in Index(MapPoints(f, pts)) {
      var p :| p in MapPoints(f, pts) && Key(p) == c;
      assert p == At(c);
    }
  }

  /** A map that carries the match test over carries each inner-loop run. */
  lemma {:induction false} RowUnderMap(f: Point -> Point, p: Point, qs: seq<Point>, index: set<Coord>, index': set<Coord>)
    requires forall q :: Matches(f(p), f(q), index') == Matches(p, q, index)
    ensures Row(f(p), MapPoints(f, qs), index') == Row(p, qs, index)
    decreases |qs|
  {
    if qs != [] {
      var qs' := qs[..|qs| - 1];
      RowUnderMap(f, p, qs', index, index');
      var m := MapPoints(f, qs);
      assert m[..|m| - 1] == MapPoints(f, qs');
    }
  }

  /** A map that carries the match test over keeps the pair count. */
  lemma {:induction false} PairsUnderMap(f: Point -> Point, ps: seq<Point>, qs: seq<Point>, index: set<Coord>, index': set<Coord>)
    requires forall p, q :: Matches(f(p), f(q), index') == Matches(p, q, index)
    ensures Pairs(MapPoints(f, ps), MapPoints(f, qs), index') == Pairs(ps, qs, index)
    decreases |ps|
  {
    if ps != [] {
      var ps' := ps[..|ps| - 1];
      PairsUnderMap(f, ps', qs, index, index');
      RowUnderMap(f, ps[|ps| - 1], qs, index, index');
      var m := MapPoints(f, ps);
      assert m[..|m| - 1] == MapPoints(f, ps');
    }
  }

  function Shifted(p: Point, dx: int, dy: int): (r: Point) { Point(p.x + dx, p.y + dy) }
  function MirroredX(p: Point): (r: Point) { Point(-p.x, p.y) }
  function MirroredY(p: Point): (r: Point) { Point(p.x, -p.y) }
  function Transposed(p: Point): (r: Point) { Point(p.y, p.x) }

  function ShiftBy(dx: int, dy: int): (f: Point -> Point)
  {
    p => Shifted(p, dx, dy)
  }

  lemma ShiftInverse(dx: int, dy: int)
    ensures var f, g := ShiftBy(dx, dy), ShiftBy(-dx, -dy);
            forall r :: g(f(r)) == r && f(g(r)) == r
  {
  }

  lemma ShiftedMatches(pts: seq<Point>, dx: int, dy: int, p: Point, q: Point)
    ensures Matches(Shifted(p, dx, dy), Shifted(q, dx, dy), Index(MapPoints(ShiftBy(dx, dy), pts)))
            == Matches(p, q, Index(pts))
  {
    var f, g := ShiftBy(dx, dy), ShiftBy(-dx, -dy);
    ShiftInverse(dx, dy);
    var index, index' := Index(pts), Index(MapPoints(f, pts));
    IndexUnderMap(f, g, pts, (p.x + dx, q.y + dy));
    IndexUnderMap(f, g, pts, (q.x + dx, p.y + dy));
    assert g(At((p.x + dx, q.y + dy))) == Point(p.x, q.y);
    assert g(At((q.x + dx, p.y + dy))) == Point(q.x, p.y);
  }

  /** Moving every point by the same offset does not change the raw count. */
  lemma TranslationKeepsCount(pts: seq<Point>, dx: int, dy: int)
    ensures RawMatches(MapPoints(ShiftBy(dx, dy), pts)) == RawMatches(pts)
  {
    var f := ShiftBy(dx, dy);
    var index, index' := Index(pts), Index(MapPoints(f, pts));
    forall p, q ensures Matches(f(p), f(q), index') == Matches(p, q, index) {
      ShiftedMatches(pts, dx, dy, p, q);
    }
    PairsUnderMap(f, pts, pts, index, index');
  }

  /** Reflecting every point in the Y axis does not change the raw count. */
  lemma ReflectionKeepsCount(pts: seq<Point>)
    ensures RawMatches(MapPoints(MirroredX, pts)) == RawMatches(pts)
  {
    var index, index' := Index(pts), Index(MapPoints(MirroredX, pts));
    forall p, q ensures Matches(MirroredX(p), MirroredX(q), index') == Matches(p, q, index) {
      IndexUnderMap(MirroredX, MirroredX, pts, (-p.x, q.y));
      IndexUnderMap(MirroredX, MirroredX, pts, (-q.x, p.y));
    }
    PairsUnderMap(MirroredX, pts, pts, index, index');
  }

  /** Reflecting every point in the X axis does not change the raw count. */
  lemma ReflectionYKeepsCount(pts: seq<Point>)
    ensures RawMatches(MapPoints(MirroredY, pts)) == RawMatches(pts)
  {
    var index, index' := Index(pts), Index(MapPoints(MirroredY, pts));
    forall p, q ensures Matches(MirroredY(p), MirroredY(q), index') == Matches(p, q, index) {
      IndexUnderMap(MirroredY, MirroredY, pts, (p.x, -q.y));
      IndexUnderMap(MirroredY, MirroredY, pts, (q.x, -p.y));
    }
    PairsUnderMap(MirroredY, pts, pts, index, index');
  }

  /** Exchanging X and Y in every point does not change the raw count. */
  lemma TranspositionKeepsCount(pts: seq<Point>)
    ensures RawMatches(MapPoints(Transposed, pts)) == RawMatches(pts)
  {
    var index, index' := Index(pts), Index(MapPoints(Transposed, pts));
    forall p, q ensures Matches(Transposed(p), Transposed(q), index') == Matches(p, q, index) {
      IndexUnderMap(Transposed, Transposed, pts, (p.y, q.x));
      IndexUnderMap(Transposed, Transposed, pts, (q.y, p.x));
    }
    PairsUnderMap(Transposed, pts, pts, index, index');
  }
}
