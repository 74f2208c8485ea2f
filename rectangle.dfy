/** The axis-aligned rectangle of tree/rectangle.py: a box given as (x, y, width, height)
    whose derived bounds are xmin = x, xmax = x + width, ymin = y, ymax = y + height.
    Coordinates are exact reals, so the halving done by the quadtree stays exact. */
module Rectangles {

  datatype Rect = Rect(x: real, y: real, w: real, h: real) {

    function XMin(): real { x }
    function XMax(): real { x + w }
    function YMin(): real { y }
    function YMax(): real { y + h }

    /** A box with no negative side; every box the quadtree builds from a non-negative box is one. */
    predicate Proper() { w >= 0.0 && h >= 0.0 }

    /** Inclusive point test on both axes. */
    predicate Contains(px: real, py: real) {
      XMin() <= px <= XMax() && YMin() <= py <= YMax()
    }

    /** Inclusive overlap test: true unless a bound of one box strictly excludes the other. */
    predicate Intersects(other: Rect) {
      !(XMax() < other.XMin() ||
        XMin() > other.XMax() ||
        YMax() < other.YMin() ||
        YMin() > other.YMax())
    }
  }

  /** All four corners and the centre of a proper box lie in it: the test is inclusive on every edge. */
  lemma ContainsCorners(r: Rect)
    requires r.Proper()
    ensures r.Contains(r.x, r.y) && r.Contains(r.x + r.w, r.y)
    ensures r.Contains(r.x, r.y + r.h) && r.Contains(r.x + r.w, r.y + r.h)
    ensures r.Contains(r.x + r.w / 2.0, r.y + r.h / 2.0)
  {
  }

  /** A point strictly beyond any one of the four edges is not contained. */
  lemma OutsideNotContained(r: Rect, px: real, py: real)
    requires px < r.x || px > r.x + r.w || py < r.y || py > r.y + r.h
    ensures !r.Contains(px, py)
  {
  }

  /** A box contains something exactly when it is proper. */
  lemma ContainsOnlyIfProper(r: Rect)
    ensures (exists px, py :: r.Contains(px, py)) <==> r.Proper()
  {
    if r.Proper() {
      assert r.Contains(r.x, r.y);
    }
  }

  lemma IntersectsSymmetric(a: Rect, b: Rect)
    ensures a.Intersects(b) <==> b.Intersects(a)
  {
  }

  /** A point in both boxes makes them intersect: pruning a subtree whose boundary misses the
      query box never loses a point that the query box contains. */
  lemma CommonPointIntersects(a: Rect, b: Rect, px: real, py: real)
    requires a.Contains(px, py) && b.Contains(px, py)
    ensures a.Intersects(b)
  {
  }

  /** For proper boxes the converse holds too: intersecting boxes share a point, namely the
      lower-left corner of their overlap. */
  lemma IntersectsIffCommonPoint(a: Rect, b: Rect)
    requires a.Proper() && b.Proper()
    ensures a.Intersects(b) <==> exists px, py :: a.Contains(px, py) && b.Contains(px, py)
  {
    if a.Intersects(b) {
      var px := if a.x < b.x then b.x else a.x;
      var py := if a.y < b.y then b.y else a.y;
      assert a.Contains(px, py) && b.Contains(px, py);
    }
  }

  /** Boxes that only touch intersect: b starts on a's right edge x = a.XMax() with overlapping
      vertical ranges, or on a's bottom edge y = a.YMax() with overlapping horizontal ranges;
      boxes meeting only at a corner are both cases at once. */
  lemma TouchingIntersect(a: Rect, b: Rect)
    requires a.Proper() && b.Proper()
    requires (b.x == a.x + a.w && b.y <= a.y + a.h && a.y <= b.y + b.h)
          || (b.y == a.y + a.h && b.x <= a.x + a.w && a.x <= b.x + b.w)
    ensures a.Intersects(b) && b.Intersects(a)
  {
  }

  /** A box intersects itself exactly when it is proper: a negative side puts its far bound
      before its near one. */
  lemma IntersectsSelf(r: Rect)
    ensures r.Intersects(r) <==> r.Proper()
  {
  }
}
