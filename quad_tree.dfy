/** The point quadtree of tree/quad_tree.py: every node owns a boundary rectangle and a depth,
    and either stores up to four points itself or has exactly four children, one per quadrant
    of its boundary, in north-west, north-east, south-west, south-east order. */
module QuadTrees {
  import opened Rectangles

  /** QT_NODE_CAPACITY */
  const Capacity: nat := 4

  /** A stored point: the integer pair (x, y). */
  datatype Point = Point(x: int, y: int)

  predicate In(b: Rect, p: Point) {
    b.Contains(p.x as real, p.y as real)
  }

  function Elems(s: seq<Point>): set<Point> {
    set p | p in s
  }

  predicate Distinct(s: seq<Point>) {
    forall i, j :: 0 <= i < j < |s| ==> s[i] != s[j]
  }

  // ---------------------------------------------------------------------------------------------
  // Quadrants

  /** The i-th child box of `subdivide`: the parent is halved at the literal midpoint
      (left + width / 2, top + height / 2), in the order NW, NE, SW, SE. */
  function Quadrant(b: Rect, i: nat): Rect
    requires i < 4
  {
    var left, top, width, height := b.x, b.y, b.w, b.h;
    var xcenter := left + width / 2.0;
    var ycenter := top + height / 2.0;
    if i == 0 then Rect(left, top, width / 2.0, height / 2.0)
    else if i == 1 then Rect(xcenter, top, width / 2.0, height / 2.0)
    else if i == 2 then Rect(left, ycenter, width / 2.0, height / 2.0)
    else Rect(xcenter, ycenter, width / 2.0, height / 2.0)
  }

  /** The index of the first quadrant (in child order) whose box contains p, or 4 if none does:
      the child that accepts p when children are tried in order. */
  function FirstQuadrant(b: Rect, p: Point): (k: nat)
    ensures k <= 4
    ensures k < 4 ==> In(Quadrant(b, k), p)
    ensures forall j :: 0 <= j < k && j < 4 ==> !In(Quadrant(b, j), p)
  {
    if In(Quadrant(b, 0), p) then 0
    else if In(Quadrant(b, 1), p) then 1
    else if In(Quadrant(b, 2), p) then 2
    else if In(Quadrant(b, 3), p) then 3
    else 4
  }

  /** Every point of the parent lies in some quadrant, so some child always accepts it. */
  lemma QuadrantsCover(b: Rect, p: Point)
    requires In(b, p)
    ensures FirstQuadrant(b, p) < 4
  {
    var px, py := p.x as real, p.y as real;
    var xcenter, ycenter := b.x + b.w / 2.0, b.y + b.h / 2.0;
    var i := (if px <= xcenter then 0 else 1) + (if py <= ycenter then 0 else 2);
    assert In(Quadrant(b, i), p);
  }

  /** Each quadrant of a proper box lies inside it, and is itself proper. */
  lemma QuadrantInside(b: Rect, i: nat, px: real, py: real)
    requires i < 4 && b.Proper()
    ensures Quadrant(b, i).Proper()
    ensures Quadrant(b, i).Contains(px, py) ==> b.Contains(px, py)
  {
  }

  predicate Interior(r: Rect, px: real, py: real) {
    r.XMin() < px < r.XMax() && r.YMin() < py < r.YMax()
  }

  /** Distinct quadrants share at most edges: no point is inside two of them. */
  lemma QuadrantInteriorsDisjoint(b: Rect, i: nat, j: nat, px: real, py: real)
    requires i < 4 && j < 4 && i != j
    ensures !(Interior(Quadrant(b, i), px, py) && Interior(Quadrant(b, j), px, py))
  {
  }

  function Area(r: Rect): real {
    r.w * r.h
  }

  /** The quadrants' areas add up to the parent's area. */
  lemma QuadrantAreas(b: Rect)
    ensures Area(Quadrant(b, 0)) + Area(Quadrant(b, 1)) + Area(Quadrant(b, 2)) + Area(Quadrant(b, 3))
            == Area(b)
  {
    var hw, hh := b.w / 2.0, b.h / 2.0;
    assert b.w == hw + hw && b.h == hh + hh;
    assert Area(b) == (hw + hw) * (hh + hh);
    assert (hw + hw) * (hh + hh) == 4.0 * (hw * hh);
  }

  // ---------------------------------------------------------------------------------------------
  // Termination measure: integer size of a box

  /** Floor of width plus floor of height (sides below zero count as zero). */
  function Extent(b: Rect): nat {
    (if b.w >= 0.0 then b.w.Floor else 0) + (if b.h >= 0.0 then b.h.Floor else 0)
  }

  lemma HalfFloor(w: real)
    requires w >= 0.0
    ensures 0 <= (w / 2.0).Floor <= w.Floor
    ensures w >= 1.0 ==> (w / 2.0).Floor < w.Floor
  {
  }

  /** Halving never grows the extent, and strictly shrinks it once a side reaches 1. */
  lemma ExtentShrinks(b: Rect, i: nat)
    requires i < 4 && b.Proper()
    ensures Extent(Quadrant(b, i)) <= Extent(b)
    ensures b.w >= 1.0 || b.h >= 1.0 ==> Extent(Quadrant(b, i)) < Extent(b)
  {
    HalfFloor(b.w);
    HalfFloor(b.h);
  }

  /** Two distinct integer points in one box force a side of length at least 1. */
  lemma DistinctPointsSpread(b: Rect, p: Point, q: Point)
    requires In(b, p) && In(b, q) && p != q
    ensures b.w >= 1.0 || b.h >= 1.0
  {
    if p.x != q.x {
      assert p.x < q.x ==> (p.x as real) + 1.0 <= q.x as real;
      assert q.x < p.x ==> (q.x as real) + 1.0 <= p.x as real;
    } else {
      assert p.y < q.y ==> (p.y as real) + 1.0 <= q.y as real;
      assert q.y < p.y ==> (q.y as real) + 1.0 <= p.y as real;
    }
  }

  // ---------------------------------------------------------------------------------------------
  // Redistribution of stored points by `subdivide`, and list removal

  /** The points, in their stored order, that land in child k when `subdivide` offers each stored
      point to the children in order and the first child containing it accepts it. */
  function Distribute(pts: seq<Point>, b: Rect, k: nat): seq<Point>
  {
    if pts == [] then []
    else
      var last := pts[|pts| - 1];
      Distribute(pts[..|pts| - 1], b, k) + (if FirstQuadrant(b, last) == k then [last] else [])
  }

  /** Child k receives exactly the stored points whose first containing quadrant is k, no more
      of them than were stored, and without duplicates. */
  lemma {:induction false} DistributeSpec(pts: seq<Point>, b: Rect, k: nat)
    requires Distinct(pts)
    ensures forall p :: p in Distribute(pts, b, k) <==> p in pts && FirstQuadrant(b, p) == k
    ensures |Distribute(pts, b, k)| <= |pts|
    ensures Distinct(Distribute(pts, b, k))
  {
    if pts != [] {
      var init, last := pts[..|pts| - 1], pts[|pts| - 1];
      assert pts == init + [last];
      assert Distinct(init);
      DistributeSpec(init, b, k);
    }
  }

  /** Redistribution loses no point: when every stored point lies in the box, the children's
      points together are the parent's points. */
  lemma DistributePartition(pts: seq<Point>, b: Rect)
    requires Distinct(pts)
    requires forall p :: p in pts ==> In(b, p)
    ensures Elems(pts) == Elems(Distribute(pts, b, 0)) + Elems(Distribute(pts, b, 1))
                        + Elems(Distribute(pts, b, 2)) + Elems(Distribute(pts, b, 3))
  {
    DistributeSpec(pts, b, 0);
    DistributeSpec(pts, b, 1);
    DistributeSpec(pts, b, 2);
    DistributeSpec(pts, b, 3);
    forall p | p in pts
      ensures FirstQuadrant(b, p) < 4
    {
      QuadrantsCover(b, p);
    }
  }

  /** Different children receive different points. */
  lemma DistributeDisjoint(pts: seq<Point>, b: Rect, i: nat, j: nat)
    requires Distinct(pts) && i != j
    ensures Elems(Distribute(pts, b, i)) !! Elems(Distribute(pts, b, j))
  {
    DistributeSpec(pts, b, i);
    DistributeSpec(pts, b, j);
  }

  /** Python's `list.remove`: drop the first occurrence of p. */
  function Erase(s: seq<Point>, p: Point): seq<Point>
  {
    if s == [] then []
    else if s[0] == p then s[1..]
    else [s[0]] + Erase(s[1..], p)
  }

  /** On a duplicate-free list, removal takes exactly p out and keeps the list duplicate-free. */
  lemma {:induction false} EraseSpec(s: seq<Point>, p: Point)
    requires Distinct(s)
    ensures Elems(Erase(s, p)) == Elems(s) - {p}
    ensures Distinct(Erase(s, p))
    ensures |Erase(s, p)| <= |s|
  {
    if s != [] {
      assert Distinct(s[1..]);
      assert Elems(s) == {s[0]} + Elems(s[1..]);
      if s[0] != p {
        EraseSpec(s[1..], p);
        var t := Erase(s[1..], p);
        assert Elems([s[0]] + t) == {s[0]} + Elems(t);
        assert s[0] !in Elems(s[1..]);
        forall i, j | 0 <= i < j < |[s[0]] + t|
          ensures ([s[0]] + t)[i] != ([s[0]] + t)[j]
        {
          if i == 0 {
            assert ([s[0]] + t)[j] == t[j - 1];
            assert t[j - 1] in Elems(t);
          } else {
            assert ([s[0]] + t)[i] == t[i - 1] && ([s[0]] + t)[j] == t[j - 1];
          }
        }
      }
    }
  }

  /** The stored points that a query box contains, in stored order. */
  function Within(pts: seq<Point>, q: Rect): seq<Point>
  {
    if pts == [] then []
    else
      var last := pts[|pts| - 1];
      Within(pts[..|pts| - 1], q) + (if In(q, last) then [last] else [])
  }

  lemma {:induction false} WithinSpec(pts: seq<Point>, q: Rect)
    requires Distinct(pts)
    ensures forall p :: p in Within(pts, q) <==> p in pts && In(q, p)
    ensures Distinct(Within(pts, q))
  {
    if pts != [] {
      var init, last := pts[..|pts| - 1], pts[|pts| - 1];
      assert pts == init + [last];
      assert Distinct(init);
      WithinSpec(init, q);
    }
  }

  // ---------------------------------------------------------------------------------------------
  // The tree

  /** A node: its boundary, its depth, the points it stores while it is a leaf, and its
      children (`[]` while the node has none, four once it has been subdivided). */
  datatype QuadTree = QuadTree(boundary: Rect, depth: int, points: seq<Point>, children: seq<QuadTree>)

  /** All points stored in the subtree. */
  function Contents(t: QuadTree): set<Point>
    decreases t, 1
  {
    Elems(t.points) + ChildrenContents(t.children)
  }

  function ChildrenContents(cs: seq<QuadTree>): set<Point>
    decreases cs, 0
  {
    if cs == [] then {} else ChildrenContents(cs[..|cs| - 1]) + Contents(cs[|cs| - 1])
  }

  /** The points of a node with four children: its own and theirs. */
  lemma ContentsOfFour(t: QuadTree)
    requires |t.children| == 4
    ensures Contents(t) == Elems(t.points) + Contents(t.children[0]) + Contents(t.children[1])
                         + Contents(t.children[2]) + Contents(t.children[3])
  {
    var cs := t.children;
    assert cs[..3][..2] == cs[..2] && cs[..2][..1] == cs[..1] && cs[..1][..0] == [];
    assert ChildrenContents(cs[..1]) == Contents(cs[0]);
    assert ChildrenContents(cs[..2]) == ChildrenContents(cs[..1]) + Contents(cs[1]);
    assert ChildrenContents(cs[..3]) == ChildrenContents(cs[..2]) + Contents(cs[2]);
    assert ChildrenContents(cs) == ChildrenContents(cs[..3]) + Contents(cs[3]);
  }

  /** The invariant that `insert`, `remove` and `subdivide` keep: at most `Capacity` distinct
      points, never points and children at once; children are four nodes one level deeper
      whose boundaries are the quadrants of this one, holding disjoint sets of points; every
      point lies in the boundary. */
  ghost predicate Valid(t: QuadTree)
    decreases t
  {
    && |t.points| <= Capacity
    && Distinct(t.points)
    && (forall p :: p in Contents(t) ==> In(t.boundary, p))
    && (t.children != [] ==>
          && |t.children| == 4
          && t.points == []
          && (forall i :: 0 <= i < 4 ==>
                && t.children[i].boundary == Quadrant(t.boundary, i)
                && t.children[i].depth == t.depth + 1
                && Valid(t.children[i]))
          && (forall i, j :: 0 <= i < j < 4 ==> Contents(t.children[i]) !! Contents(t.children[j])))
  }

  /** The constructor: a childless node with no points. */
  function Empty(bbox: Rect, depth: int): (t: QuadTree)
    ensures Valid(t) && Contents(t) == {}
    ensures t.boundary == bbox && t.depth == depth && t.children == []
  {
    QuadTree(bbox, depth, [], [])
  }

  /** Replacing child i by a node that gained the points `extra`, none of them stored before and
      all in the boundary, adds exactly those points and keeps the invariant. */
  lemma ReplaceChildGrows(t: QuadTree, i: nat, c: QuadTree, extra: set<Point>)
    requires Valid(t) && t.children != [] && i < 4
    requires Valid(c) && c.boundary == t.children[i].boundary && c.depth == t.children[i].depth
    requires Contents(c) == Contents(t.children[i]) + extra
    requires extra !! Contents(t)
    requires forall p :: p in extra ==> In(t.boundary, p)
    ensures Valid(t.(children := t.children[i := c]))
    ensures Contents(t.(children := t.children[i := c])) == Contents(t) + extra
  {
    ContentsOfFour(t);
    ContentsOfFour(t.(children := t.children[i := c]));
    ReplaceChildValid(t, i, c);
  }

  /** Replacing child i by a node that lost `gone` takes exactly those points out, provided no
      other child holds them, and keeps the invariant. */
  lemma ReplaceChildShrinks(t: QuadTree, i: nat, c: QuadTree, gone: set<Point>)
    requires Valid(t) && t.children != [] && i < 4
    requires Valid(c) && c.boundary == t.children[i].boundary && c.depth == t.children[i].depth
    requires Contents(c) == Contents(t.children[i]) - gone
    requires forall k :: 0 <= k < 4 && k != i ==> gone !! Contents(t.children[k])
    ensures Valid(t.(children := t.children[i := c]))
    ensures Contents(t.(children := t.children[i := c])) == Contents(t) - gone
  {
    ContentsOfFour(t);
    ContentsOfFour(t.(children := t.children[i := c]));
    ReplaceChildValid(t, i, c);
  }

  /** A valid replacement child, disjoint from its siblings and inside the boundary, keeps the
      parent valid. */
  lemma ReplaceChildValid(t: QuadTree, i: nat, c: QuadTree)
    requires Valid(t) && t.children != [] && i < 4
    requires Valid(c) && c.boundary == t.children[i].boundary && c.depth == t.children[i].depth
    requires forall k :: 0 <= k < 4 && k != i ==> Contents(c) !! Contents(t.children[k])
    requires forall p :: p in Contents(c) ==> In(t.boundary, p)
    ensures Valid(t.(children := t.children[i := c]))
  {
    var u := t.(children := t.children[i := c]);
    assert forall k :: 0 <= k < 4 ==> u.children[k] == if k == i then c else t.children[k];
    assert forall k, j :: 0 <= k < j < 4 ==> Contents(u.children[k]) !! Contents(u.children[j]);
    forall k | 0 <= k < 4
      ensures u.children[k].boundary == Quadrant(u.boundary, k)
      ensures u.children[k].depth == u.depth + 1
      ensures Valid(u.children[k])
    {
    }
    ContentsReplaced(t, i, c);
    assert forall p :: p in Contents(u) ==> In(t.boundary, p);
  }

  /** Replacing one child of a node with four children stores nothing beyond the old points and
      the new child's. */
  lemma ContentsReplaced(t: QuadTree, i: nat, c: QuadTree)
    requires |t.children| == 4 && i < 4
    ensures Contents(t.(children := t.children[i := c])) <= Contents(t) + Contents(c)
  {
    var u := t.(children := t.children[i := c]);
    ContentsOfFour(t);
    ContentsOfFour(u);
    if i == 0 {
      assert u.children == [c, t.children[1], t.children[2], t.children[3]];
    } else if i == 1 {
      assert u.children == [t.children[0], c, t.children[2], t.children[3]];
    } else if i == 2 {
      assert u.children == [t.children[0], t.children[1], c, t.children[3]];
    } else {
      assert u.children == [t.children[0], t.children[1], t.children[2], c];
    }
  }

  /** The points `query_range` returns: none when the boundary misses the query box; otherwise
      the node's own points that the box contains, then each child's answer, in child order. */
  function InRange(t: QuadTree, q: Rect): seq<Point>
    decreases t, 1
  {
    if !t.boundary.Intersects(q) then []
    else Within(t.points, q) + ChildrenInRange(t.children, q)
  }

  function ChildrenInRange(cs: seq<QuadTree>, q: Rect): seq<Point>
    decreases cs, 0
  {
    if cs == [] then [] else ChildrenInRange(cs[..|cs| - 1], q) + InRange(cs[|cs| - 1], q)
  }

  /** `query_range`: collect the node's own points in the query box, then extend the list with
      each child's answer. */
  method QueryRange(t: QuadTree, q: Rect) returns (found: seq<Point>)
    ensures found == InRange(t, q)
    decreases t
  {
    found := [];
    if !t.boundary.Intersects(q) {
      return;
    }
    var j := 0;
    while j < |t.points|
      invariant 0 <= j <= |t.points|
      invariant found == Within(t.points[..j], q)
    {
      assert t.points[..j + 1][..j] == t.points[..j];
      if In(q, t.points[j]) {
        found := found + [t.points[j]];
      }
      j := j + 1;
    }
    assert t.points[..|t.points|] == t.points;
    if t.children == [] {
      return;
    }
    var i := 0;
    while i < |t.children|
      invariant 0 <= i <= |t.children|
      invariant found == Within(t.points, q) + ChildrenInRange(t.children[..i], q)
    {
      var part := QueryRange(t.children[i], q);
      assert t.children[..i + 1][..i] == t.children[..i];
      found := found + part;
      i := i + 1;
    }
    assert t.children[..|t.children|] == t.children;
  }

  /** `query_range` is exact: it returns, without repetition, precisely the stored points of the
      subtree that the query box contains (pruning by boundary intersection loses none). */
  lemma {:induction false} InRangeExact(t: QuadTree, q: Rect)
    requires Valid(t)
    ensures forall p :: p in InRange(t, q) <==> p in Contents(t) && In(q, p)
    ensures Distinct(InRange(t, q))
    decreases t, 1
  {
    WithinSpec(t.points, q);
    if !t.boundary.Intersects(q) {
      forall p | p in Contents(t) && In(q, p)
        ensures false
      {
        CommonPointIntersects(t.boundary, q, p.x as real, p.y as real);
      }
    } else if t.children != [] {
      ChildrenInRangeExact(t, q, 4);
      assert t.children[..4] == t.children;
      ContentsOfFour(t);
    }
  }

  lemma {:induction false} ChildrenInRangeExact(t: QuadTree, q: Rect, n: nat)
    requires Valid(t) && t.children != [] && n <= 4
    ensures forall p :: p in ChildrenInRange(t.children[..n], q) <==>
              exists k :: 0 <= k < n && p in Contents(t.children[k]) && In(q, p)
    ensures Distinct(ChildrenInRange(t.children[..n], q))
    decreases t, 0, n
  {
    if n > 0 {
      ChildrenInRangeExact(t, q, n - 1);
      var c := t.children[n - 1];
      InRangeExact(c, q);
      assert t.children[..n][..n - 1] == t.children[..n - 1];
      var a, b := ChildrenInRange(t.children[..n - 1], q), InRange(c, q);
      assert ChildrenInRange(t.children[..n], q) == a + b;
      forall i, j | 0 <= i < j < |a + b|
        ensures (a + b)[i] != (a + b)[j]
      {
        if i < |a| && j >= |a| {
          var u, v := (a + b)[i], (a + b)[j];
          assert u == a[i] && u in a;
          assert v == b[j - |a|] && v in b;
          var k :| 0 <= k < n - 1 && u in Contents(t.children[k]);
          assert v in Contents(c);
        }
      }
    }
  }

  /** A query over the node's whole boundary returns every stored point. */
  lemma FullRangeQuery(t: QuadTree)
    requires Valid(t)
    ensures Elems(InRange(t, t.boundary)) == Contents(t)
  {
    InRangeExact(t, t.boundary);
  }

  /** Whether p is stored anywhere in the subtree, asked as `query_range` over the zero-size box
      at p; used by `Insert` to refuse a point that is already stored. */
  method Stored(t: QuadTree, p: Point) returns (b: bool)
    requires Valid(t)
    ensures b <==> p in Contents(t)
  {
    var q := Rect(p.x as real, p.y as real, 0.0, 0.0);
    var found := QueryRange(t, q);
    InRangeExact(t, q);
    assert In(q, p) && forall u :: In(q, u) ==> u == p;
    b := found != [];
    if b {
      assert found[0] in found;
    }
  }

  /** 0 for a leaf with room for another point, 3 otherwise (part of the termination measure). */
  function Rank(t: QuadTree): nat {
    if t.children == [] && |t.points| < Capacity then 0 else 3
  }

  /** `insert`: refuse a point outside the boundary or already stored; append it to a leaf with
      room; otherwise subdivide a full leaf and hand the point to the first child that accepts
      it. The refusal of a stored point is the correction described in the findings: the
      original guard only looks at the leaf's own list. */
  method Insert(t: QuadTree, x: int, y: int) returns (ok: bool, t': QuadTree)
    requires Valid(t)
    ensures Valid(t') && t'.boundary == t.boundary && t'.depth == t.depth
    ensures ok <==> In(t.boundary, Point(x, y)) && Point(x, y) !in Contents(t)
    ensures Contents(t') == if ok then Contents(t) + {Point(x, y)} else Contents(t)
    ensures !ok ==> t' == t
    ensures t.children == [] && |t.points| < Capacity ==>
              t'.children == [] && t'.points == if ok then t.points + [Point(x, y)] else t.points
    decreases Extent(t.boundary), Rank(t), t, 1
  {
    var p := Point(x, y);
    if !t.boundary.Contains(x as real, y as real) {
      return false, t;
    }
    var stored := Stored(t, p);
    if stored {
      return false, t;
    }
    if |t.points| < Capacity && t.children == [] && p !in t.points {
      ok, t' := true, t.(points := t.points + [p]);
      forall i, j | 0 <= i < j < |t'.points|
        ensures t'.points[i] != t'.points[j]
      {
        if j == |t.points| {
          assert t'.points[i] in t.points;
        }
      }
      assert Elems(t'.points) == Elems(t.points) + {p};
      return;
    }
    ExtentShrinks(t.boundary, 0);
    var s := t;
    if t.children == [] {
      assert t.points[0] in Contents(t);
      DistinctPointsSpread(t.boundary, t.points[0], p);
      s := Subdivide(t);
    }
    ok := true;
    t' := InsertIntoChildren(s, x, y);
  }

  /** The loop of `insert` over the children: offer the point to each child in order until one
      accepts it. */
  method InsertIntoChildren(s: QuadTree, x: int, y: int) returns (t': QuadTree)
    requires Valid(s) && s.children != []
    requires In(s.boundary, Point(x, y)) && Point(x, y) !in Contents(s)
    ensures Valid(t') && t'.boundary == s.boundary && t'.depth == s.depth
    ensures Contents(t') == Contents(s) + {Point(x, y)}
    ensures |t'.children| == 4 && t'.points == s.points
    ensures forall k :: 0 <= k < 4 && k != FirstQuadrant(s.boundary, Point(x, y)) ==>
              t'.children[k] == s.children[k]
    ensures Contents(t'.children[FirstQuadrant(s.boundary, Point(x, y))])
            == Contents(s.children[FirstQuadrant(s.boundary, Point(x, y))]) + {Point(x, y)}
    decreases Extent(Quadrant(s.boundary, 0)), 3, s, 0
  {
    var p := Point(x, y);
    QuadrantsCover(s.boundary, p);
    ghost var home := FirstQuadrant(s.boundary, p);
    ContentsOfFour(s);
    var i := 0;
    while i < |s.children|
      invariant 0 <= i <= home < 4 == |s.children|
    {
      assert Extent(s.children[i].boundary) == Extent(Quadrant(s.boundary, 0));
      var accepted, c := Insert(s.children[i], x, y);
      if accepted {
        ReplaceChildGrows(s, i, c, {p});
        return s.(children := s.children[i := c]);
      }
      i := i + 1;
    }
    assert false;
  }

  /** `subdivide`: create the four quadrant children one level deeper, offer every stored
      point to them in child order (the first that accepts keeps it), and empty the list. */
  method Subdivide(t: QuadTree) returns (s: QuadTree)
    requires Valid(t) && t.children == []
    ensures Valid(s) && s.boundary == t.boundary && s.depth == t.depth
    ensures Contents(s) == Contents(t) && s.points == [] && |s.children| == 4
    ensures forall k :: 0 <= k < 4 ==>
              s.children[k].children == [] &&
              s.children[k].points == Distribute(t.points, t.boundary, k)
    decreases Extent(t.boundary), 2, t, 0
  {
    var left, top, width, height := t.boundary.x, t.boundary.y, t.boundary.w, t.boundary.h;
    var xcenter := left + width / 2.0;
    var ycenter := top + height / 2.0;

    var northWest := Empty(Rect(left, top, width / 2.0, height / 2.0), t.depth + 1);
    var northEast := Empty(Rect(xcenter, top, width / 2.0, height / 2.0), t.depth + 1);
    var southWest := Empty(Rect(left, ycenter, width / 2.0, height / 2.0), t.depth + 1);
    var southEast := Empty(Rect(xcenter, ycenter, width / 2.0, height / 2.0), t.depth + 1);
    var children := [northWest, northEast, southWest, southEast];
    children := RedistributePoints(t, children);
    Redistributed(t, children);
    s := t.(points := [], children := children);
  }

  /** The loop of `subdivide` over the stored points: offer each, in order, to the fresh
      children. Child `k` ends with the stored points whose first containing quadrant is `k`. */
  method RedistributePoints(t: QuadTree, children: seq<QuadTree>) returns (children': seq<QuadTree>)
    requires Valid(t) && t.children == [] && |children| == 4
    requires forall k :: 0 <= k < 4 ==>
               && children[k].boundary == Quadrant(t.boundary, k)
               && children[k].depth == t.depth + 1
               && children[k].children == []
               && children[k].points == []
               && Valid(children[k])
    ensures |children'| == 4
    ensures forall k :: 0 <= k < 4 ==>
              && children'[k].boundary == Quadrant(t.boundary, k)
              && children'[k].depth == t.depth + 1
              && children'[k].children == []
              && Valid(children'[k])
              && children'[k].points == Distribute(t.points, t.boundary, k)
    decreases Extent(t.boundary), 1, 2
  {
    children' := children;
    var j := 0;
    assert t.points[..0] == [];
    while j < |t.points|
      invariant 0 <= j <= |t.points| && |children'| == 4
      invariant forall k :: 0 <= k < 4 ==>
                  && children'[k].boundary == Quadrant(t.boundary, k)
                  && children'[k].depth == t.depth + 1
                  && children'[k].children == []
                  && Valid(children'[k])
                  && children'[k].points == Distribute(t.points[..j], t.boundary, k)
    {
      var p := t.points[j];
      OfferAllowed(t, j);
      children' := Offer(t.boundary, children', p);
      assert t.points[..j + 1] == t.points[..j] + [p];
      j := j + 1;
    }
    assert t.points[..j] == t.points;
  }

  /** The `j`-th stored point lies in the boundary, and no child has received it or is full
      after the points before it have been distributed. */
  lemma OfferAllowed(t: QuadTree, j: nat)
    requires Valid(t) && t.children == [] && j < |t.points|
    ensures In(t.boundary, t.points[j])
    ensures forall k :: 0 <= k < 4 ==>
              && |Distribute(t.points[..j], t.boundary, k)| < Capacity
              && t.points[j] !in Distribute(t.points[..j], t.boundary, k)
  {
    assert t.points[j] in Contents(t);
    assert Distinct(t.points[..j]);
    forall k | 0 <= k < 4
      ensures |Distribute(t.points[..j], t.boundary, k)| <= j
      ensures t.points[j] !in Distribute(t.points[..j], t.boundary, k)
    {
      DistributeSpec(t.points[..j], t.boundary, k);
    }
  }

  /** The inner loop of `subdivide`: offer one point to the fresh children in order; the first
      whose quadrant contains it appends it. */
  method Offer(b: Rect, children: seq<QuadTree>, p: Point) returns (children': seq<QuadTree>)
    requires In(b, p) && |children| == 4
    requires forall k :: 0 <= k < 4 ==>
               && children[k].boundary == Quadrant(b, k)
               && children[k].children == []
               && |children[k].points| < Capacity
               && p !in children[k].points
               && Valid(children[k])
    ensures |children'| == 4
    ensures forall k :: 0 <= k < 4 ==>
              && children'[k].boundary == children[k].boundary
              && children'[k].depth == children[k].depth
              && children'[k].children == []
              && Valid(children'[k])
              && children'[k].points ==
                   children[k].points + if FirstQuadrant(b, p) == k then [p] else []
    decreases Extent(b), 1, 1
  {
    QuadrantsCover(b, p);
    ghost var home := FirstQuadrant(b, p);
    forall k | 0 <= k < 4
      ensures Extent(Quadrant(b, k)) <= Extent(b)
    {
      ExtentShrinks(b, k);
    }
    children' := children;
    var i := 0;
    while i < |children'|
      invariant 0 <= i <= home < 4 == |children'|
      invariant children' == children
    {
      var accepted, c := Insert(children'[i], p.x, p.y);
      if accepted {
        children' := children'[i := c];
        return;
      }
      i := i + 1;
    }
    assert false;
  }

  /** After redistribution the leaf's points are exactly the children's, split by first
      containing quadrant, and the subdivided node satisfies the invariant. */
  lemma Redistributed(t: QuadTree, children: seq<QuadTree>)
    requires Valid(t) && t.children == [] && |children| == 4
    requires forall k :: 0 <= k < 4 ==>
               && children[k].boundary == Quadrant(t.boundary, k)
               && children[k].depth == t.depth + 1
               && children[k].children == []
               && Valid(children[k])
               && children[k].points == Distribute(t.points, t.boundary, k)
    ensures Valid(t.(points := [], children := children))
    ensures Contents(t.(points := [], children := children)) == Contents(t)
  {
    var s := t.(points := [], children := children);
    RedistributedContents(t, children);
    forall i, j | 0 <= i < j < 4
      ensures Contents(children[i]) !! Contents(children[j])
    {
      DistributeDisjoint(t.points, t.boundary, i, j);
    }
  }

  lemma RedistributedContents(t: QuadTree, children: seq<QuadTree>)
    requires t.children == [] && |children| == 4 && Distinct(t.points)
    requires forall p :: p in t.points ==> In(t.boundary, p)
    requires forall k :: 0 <= k < 4 ==>
               && children[k].children == []
               && children[k].points == Distribute(t.points, t.boundary, k)
    ensures forall k :: 0 <= k < 4 ==>
              Contents(children[k]) == Elems(Distribute(t.points, t.boundary, k))
    ensures Contents(t.(points := [], children := children)) == Contents(t) == Elems(t.points)
  {
    forall k | 0 <= k < 4
      ensures Contents(children[k]) == Elems(Distribute(t.points, t.boundary, k))
    {
      assert ChildrenContents(children[k].children) == {};
    }
    ContentsOfFour(t.(points := [], children := children));
    DistributePartition(t.points, t.boundary);
  }

  /** `remove`: a leaf drops the point from its list; an inner node asks its children in order
      until one of them removes it. Children are never merged back. */
  method Remove(t: QuadTree, x: int, y: int) returns (ok: bool, t': QuadTree)
    requires Valid(t)
    ensures Valid(t') && t'.boundary == t.boundary && t'.depth == t.depth
    ensures |t'.children| == |t.children|
    ensures ok <==> Point(x, y) in Contents(t)
    ensures Contents(t') == Contents(t) - {Point(x, y)}
    ensures !ok ==> t' == t
    ensures t.children == [] ==>
              t'.children == [] && t'.points == if ok then Erase(t.points, Point(x, y)) else t.points
    decreases t
  {
    var p := Point(x, y);
    if !t.boundary.Contains(x as real, y as real) {
      return false, t;
    }
    if t.children == [] {
      if p in t.points {
        EraseSpec(t.points, p);
        return true, t.(points := Erase(t.points, p));
      }
      return false, t;
    }
    ContentsOfFour(t);
    var i := 0;
    while i < |t.children|
      invariant 0 <= i <= |t.children|
      invariant forall k :: 0 <= k < i ==> p !in Contents(t.children[k])
    {
      var removed, c := Remove(t.children[i], x, y);
      if removed {
        ReplaceChildShrinks(t, i, c, {p});
        return true, t.(children := t.children[i := c]);
      }
      i := i + 1;
    }
    return false, t;
  }

  // ---------------------------------------------------------------------------------------------
  // The original `insert` on a point that is already stored

  /** What the original `insert` does when it reaches a leaf holding `pts`: refuse a point outside
      the box, append a new point when there is room, or otherwise subdivide and pass the call on
      to the first child whose quadrant contains the point (the earlier children refuse it). The
      guard only asks whether the point is absent from the leaf's own list. */
  datatype LeafCall = Refused | Appended | PassedOn(box: Rect, pts: seq<Point>)

  function LeafInsertAsWritten(b: Rect, pts: seq<Point>, p: Point): (c: LeafCall)
    ensures c.PassedOn? ==> In(b, p) && (|pts| >= Capacity || p in pts)
  {
    if !In(b, p) then Refused
    else if |pts| < Capacity && p !in pts then Appended
    else
      var k := FirstQuadrant(b, p);
      if k < 4 then PassedOn(Quadrant(b, k), Distribute(pts, b, k))
      else Refused
  }

  /** The call at a leaf can return only after the call it passes on has returned, so it
      returns within `fuel` nested calls only if this holds. */
  predicate ReturnsWithin(b: Rect, pts: seq<Point>, p: Point, fuel: nat)
    decreases fuel
  {
    match LeafInsertAsWritten(b, pts, p)
    case Refused => true
    case Appended => true
    case PassedOn(box, rest) => fuel > 0 && ReturnsWithin(box, rest, p, fuel - 1)
  }

  /** Inserting a point that a leaf already holds never returns: the leaf subdivides, the point
      moves into the first child containing it, the call follows it there, and so on forever
      (in Python, until the recursion limit is hit). */
  lemma {:induction false} ReinsertNeverReturns(b: Rect, pts: seq<Point>, p: Point, fuel: nat)
    requires Distinct(pts) && p in pts && In(b, p)
    ensures !ReturnsWithin(b, pts, p, fuel)
    decreases fuel
  {
    QuadrantsCover(b, p);
    var k := FirstQuadrant(b, p);
    DistributeSpec(pts, b, k);
    if fuel > 0 {
      ReinsertNeverReturns(Quadrant(b, k), Distribute(pts, b, k), p, fuel - 1);
    }
  }

  /** Concretely: a second insertion of (1, 1) into a leaf over (0, 0, 8, 8) holding it. */
  lemma ReinsertExample(fuel: nat)
    ensures !ReturnsWithin(Rect(0.0, 0.0, 8.0, 8.0), [Point(1, 1)], Point(1, 1), fuel)
  {
    ReinsertNeverReturns(Rect(0.0, 0.0, 8.0, 8.0), [Point(1, 1)], Point(1, 1), fuel);
  }
}
