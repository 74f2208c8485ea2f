/** The node of the compressing quadtree of compressing_tree.py: a box of the image in corner form
    (left, top, right, bottom), its depth, whether it is a leaf, how much detail the image shows
    inside it, its average colour, and its children. The detail is a weighted sum of the standard
    deviations of the box's red, green and blue histograms. */
module CompressingTrees {

  // ---------------------------------------------------------------------------------------------
  // Histogram statistics (`get_deviation`, `get_detail_intensity`)

  /** RED_INTENSITY, GREEN_INTENSITY, BLUE_INTENSITY: the luma weights of ITU-R BT.601. */
  const RedIntensity: real := 0.2989
  const GreenIntensity: real := 0.5870
  const BlueIntensity: real := 0.1140

  /** Python's slice h[lo:hi]: the part of [lo, hi) that lies inside the list. */
  function Slice(h: seq<nat>, lo: nat, hi: nat): (s: seq<nat>)
    requires lo <= hi
    ensures |s| == if |h| <= lo then 0 else if |h| <= hi then |h| - lo else hi - lo
    ensures forall i :: 0 <= i < |s| ==> s[i] == h[lo + i]
  {
    if |h| <= lo then [] else if |h| <= hi then h[lo..] else h[lo..hi]
  }

  /** sum(hist): the number of pixels counted. */
  function Total(h: seq<nat>): nat {
    if h == [] then 0 else Total(h[..|h| - 1]) + h[|h| - 1]
  }

  /** sum(i * x for i, x in enumerate(hist)). */
  function Moment(h: seq<nat>): nat {
    if h == [] then 0 else Moment(h[..|h| - 1]) + (|h| - 1) * h[|h| - 1]
  }

  /** The term x * (m - i) ** 2 of the spread. */
  function Term(x: nat, m: real, i: nat): real {
    x as real * ((m - i as real) * (m - i as real))
  }

  /** sum(x * (m - i) ** 2 for i, x in enumerate(hist)). */
  function Spread(h: seq<nat>, m: real): real {
    if h == [] then 0.0 else Spread(h[..|h| - 1], m) + Term(h[|h| - 1], m, |h| - 1)
  }

  /** The mean intensity, `value`. */
  function Mean(h: seq<nat>): real
    requires Total(h) > 0
  {
    Moment(h) as real / Total(h) as real
  }

  /** The population variance, before the square root is taken. */
  function Variance(h: seq<nat>): real
    requires Total(h) > 0
  {
    Spread(h, Mean(h)) / Total(h) as real
  }

  /** The facts about Python's `x ** 0.5` that the lemmas use: it maps 0 to 0 and positive numbers
      to positive numbers. The square root itself is a parameter of the model. */
  ghost predicate SqrtSign(sqrt: real -> real) {
    sqrt(0.0) == 0.0 && forall x :: x > 0.0 ==> sqrt(x) > 0.0
  }

  /** `get_deviation`: the standard deviation of the counted intensities, 0 for an empty histogram. */
  function Deviation(h: seq<nat>, sqrt: real -> real): (r: real)
    ensures Total(h) == 0 ==> r == 0.0
  {
    if Total(h) > 0 then sqrt(Variance(h)) else 0.0
  }

  /** `get_detail_intensity`: the luma-weighted sum of the deviations of the red (0..255), green
      (256..511) and blue (512..767) parts of the histogram. */
  function DetailIntensity(h: seq<nat>, sqrt: real -> real): real {
    Deviation(Slice(h, 0, 256), sqrt) * RedIntensity
    + Deviation(Slice(h, 256, 512), sqrt) * GreenIntensity
    + Deviation(Slice(h, 512, 768), sqrt) * BlueIntensity
  }

  /** At most one intensity occurs: the region is flat in this channel. */
  predicate Concentrated(h: seq<nat>) {
    forall i, j :: 0 <= i < j < |h| ==> h[i] == 0 || h[j] == 0
  }

  // The sign of each term is settled over the integers: scaled by t * t, a term around the mean
  // mt / t becomes x * (mt - i * t) ** 2.

  /** m is the mean mt / t, a quotient of integers. */
  ghost predicate MeanOf(m: real, mt: int, t: nat) {
    t > 0 && m == mt as real / t as real
  }

  /** The term x * (m - i) ** 2 scaled by t * t: x * (mt - i * t) ** 2. */
  function ScaledTerm(x: nat, mt: int, t: nat, i: nat): int {
    x * ((mt - i * t) * (mt - i * t))
  }

  /** The scale t * t, as a real. */
  function Sq(t: nat): real {
    t as real * t as real
  }

  /** A term of the spread around m = mt / t, times t * t, is the matching scaled term. */
  lemma TermScaled(x: nat, m: real, mt: int, t: nat, i: nat)
    requires MeanOf(m, mt, t)
    ensures Term(x, m, i) * Sq(t) == ScaledTerm(x, mt, t, i) as real
  {
    SquareScaled(m, mt, t, i);
  }

  lemma SquareScaled(m: real, mt: int, t: nat, i: nat)
    requires MeanOf(m, mt, t)
    ensures (m - i as real) * (m - i as real) * Sq(t) == ((mt - i * t) * (mt - i * t)) as real
  {
  }

  lemma ScaledTermSign(x: nat, d: int)
    ensures x * (d * d) >= 0
    ensures x > 0 && d != 0 ==> x * (d * d) > 0
  {
  }

  /** A real s that a positive scale k turns into the integer n has the sign of n. */
  lemma ScaleSign(s: real, k: real, n: int)
    requires k > 0.0 && s * k == n as real
    ensures n >= 0 ==> s >= 0.0
    ensures n > 0 ==> s > 0.0
    ensures n == 0 ==> s == 0.0
  {
  }

  /** A term of the spread around the mean mt / t is never negative; it is positive when the
      intensity occurs and differs from the mean, and zero when it does not occur or is the mean. */
  lemma TermSign(x: nat, m: real, mt: int, t: nat, i: nat)
    requires MeanOf(m, mt, t)
    ensures Term(x, m, i) >= 0.0
    ensures x > 0 && mt != i * t ==> Term(x, m, i) > 0.0
    ensures x == 0 || mt == i * t ==> Term(x, m, i) == 0.0
  {
    TermScaled(x, m, mt, t, i);
    ScaledTermSign(x, mt - i * t);
    ScaleSign(Term(x, m, i), Sq(t), ScaledTerm(x, mt, t, i));
  }

  /** The spread is at least any one of its terms. */
  lemma {:induction false} SpreadAtLeast(h: seq<nat>, m: real, mt: int, t: nat, k: nat)
    requires MeanOf(m, mt, t) && k < |h|
    ensures Spread(h, m) >= Term(h[k], m, k)
  {
    var n := |h| - 1;
    TermSign(h[n], m, mt, t, n);
    if k < n {
      assert h[..n][k] == h[k];
      SpreadAtLeast(h[..n], m, mt, t, k);
    } else {
      SpreadNonNegative(h[..n], m, mt, t);
    }
  }

  /** The spread around the mean is never negative. */
  lemma {:induction false} SpreadNonNegative(h: seq<nat>, m: real, mt: int, t: nat)
    requires MeanOf(m, mt, t)
    ensures Spread(h, m) >= 0.0
  {
    if h != [] {
      var n := |h| - 1;
      SpreadNonNegative(h[..n], m, mt, t);
      TermSign(h[n], m, mt, t, n);
    }
  }

  /** When every occurring intensity is the mean, the spread vanishes. */
  lemma {:induction false} SpreadZero(h: seq<nat>, m: real, mt: int, t: nat)
    requires MeanOf(m, mt, t)
    requires forall i :: 0 <= i < |h| ==> h[i] == 0 || mt == i * t
    ensures Spread(h, m) == 0.0
  {
    if h != [] {
      var n := |h| - 1;
      assert forall i :: 0 <= i < n ==> h[..n][i] == h[i];
      SpreadZero(h[..n], m, mt, t);
      TermSign(h[n], m, mt, t, n);
    }
  }

  /** A histogram whose only non-zero count is at k: its total and moment. */
  lemma {:induction false} ConcentratedSums(h: seq<nat>, k: nat)
    requires k < |h| && forall i :: 0 <= i < |h| && i != k ==> h[i] == 0
    ensures Total(h) == h[k] && Moment(h) == k * h[k]
  {
    var init := h[..|h| - 1];
    if k < |h| - 1 {
      ConcentratedSums(init, k);
    } else {
      ZeroSums(init);
    }
  }

  /** A histogram of zero counts has zero total and moment. */
  lemma {:induction false} ZeroSums(h: seq<nat>)
    requires forall i :: 0 <= i < |h| ==> h[i] == 0
    ensures Total(h) == 0 && Moment(h) == 0
  {
    if h != [] {
      ZeroSums(h[..|h| - 1]);
    }
  }

  /** An empty total means every count is zero. */
  lemma {:induction false} TotalZero(h: seq<nat>)
    requires Total(h) == 0
    ensures forall i :: 0 <= i < |h| ==> h[i] == 0
  {
    if h != [] {
      TotalZero(h[..|h| - 1]);
    }
  }

  /** A flat histogram's mean is its only occurring intensity: the moment is k times the total. */
  lemma MeanAt(h: seq<nat>, k: nat)
    requires k < |h| && h[k] > 0 && Concentrated(h)
    ensures Moment(h) == k * Total(h)
    ensures forall i :: 0 <= i < |h| && i != k ==> h[i] == 0
  {
    ConcentratedSums(h, k);
  }

  /** Two different intensities cannot both be the mean mt / t. */
  lemma DistinctIntensities(mt: int, t: nat, i: nat, j: nat)
    requires t > 0 && i < j
    ensures mt != i * t || mt != j * t
  {
    assert j * t - i * t == (j - i) * t;
    PositiveTimesPositive(j - i, t);
  }

  lemma PositiveTimesPositive(a: int, b: int)
    requires a > 0 && b > 0
    ensures a * b > 0
  {
  }

  /** The variance is never negative, and it is zero exactly when the region is flat. */
  lemma VarianceZeroIffFlat(h: seq<nat>)
    requires Total(h) > 0
    ensures Variance(h) >= 0.0
    ensures Variance(h) == 0.0 <==> Concentrated(h)
  {
    var m, mt, t := Mean(h), Moment(h), Total(h);
    assert MeanOf(m, mt, t);
    SpreadNonNegative(h, m, mt, t);
    if Concentrated(h) {
      var k :| 0 <= k < |h| && h[k] > 0 by {
        if forall i :: 0 <= i < |h| ==> h[i] == 0 {
          ZeroSums(h);
        }
      }
      MeanAt(h, k);
      SpreadZero(h, m, mt, t);
    } else {
      var i, j :| 0 <= i < j < |h| && h[i] > 0 && h[j] > 0;
      DistinctIntensities(mt, t, i, j);
      var k := if mt != i * t then i else j;
      TermSign(h[k], m, mt, t, k);
      SpreadAtLeast(h, m, mt, t, k);
    }
    QuotientSign(Spread(h, m), t as real);
  }

  /** Dividing by a positive number keeps the sign and the zero. */
  lemma QuotientSign(s: real, t: real)
    requires t > 0.0 && s >= 0.0
    ensures s / t >= 0.0 && (s / t == 0.0 <==> s == 0.0)
  {
  }

  /** `get_deviation` is never negative, and it is zero exactly when the region is flat in the
      channel (or the histogram is empty). */
  lemma DeviationZeroIffFlat(h: seq<nat>, sqrt: real -> real)
    requires SqrtSign(sqrt)
    ensures Deviation(h, sqrt) >= 0.0
    ensures Deviation(h, sqrt) == 0.0 <==> Concentrated(h)
  {
    if Total(h) > 0 {
      VarianceZeroIffFlat(h);
    } else {
      TotalZero(h);
    }
  }

  /** The detail intensity is never negative, and it is zero exactly when the region is flat in
      all three channels. */
  lemma DetailZeroIffFlat(h: seq<nat>, sqrt: real -> real)
    requires SqrtSign(sqrt)
    ensures DetailIntensity(h, sqrt) >= 0.0
    ensures DetailIntensity(h, sqrt) == 0.0 <==>
              Concentrated(Slice(h, 0, 256)) && Concentrated(Slice(h, 256, 512))
              && Concentrated(Slice(h, 512, 768))
  {
    DeviationZeroIffFlat(Slice(h, 0, 256), sqrt);
    DeviationZeroIffFlat(Slice(h, 256, 512), sqrt);
    DeviationZeroIffFlat(Slice(h, 512, 768), sqrt);
  }

  // ---------------------------------------------------------------------------------------------
  // Boxes in corner form

  /** An image box (left, top, right, bottom), as Pillow's `crop` and `getbbox` use it. */
  datatype Box = Box(left: real, top: real, right: real, bottom: real)

  predicate Proper(b: Box) {
    b.left <= b.right && b.top <= b.bottom
  }

  /** Closed containment of a point. */
  predicate Covers(b: Box, x: real, y: real) {
    b.left <= x <= b.right && b.top <= y <= b.bottom
  }

  function BoxArea(b: Box): real {
    (b.right - b.left) * (b.bottom - b.top)
  }

  /** The i-th box of `subdivide`, cut at the midpoint left + (right - left) / 2 (and likewise
      vertically), in the order top-left, top-right, bottom-left, bottom-right. */
  function CornerQuadrant(b: Box, i: nat): Box
    requires i < 4
  {
    var xcenter := b.left + (b.right - b.left) / 2.0;
    var ycenter := b.top + (b.bottom - b.top) / 2.0;
    if i == 0 then Box(b.left, b.top, xcenter, ycenter)
    else if i == 1 then Box(xcenter, b.top, b.right, ycenter)
    else if i == 2 then Box(b.left, ycenter, xcenter, b.bottom)
    else Box(xcenter, ycenter, b.right, b.bottom)
  }

  /** The quadrants of a proper box are proper and lie inside it. */
  lemma CornerQuadrantInside(b: Box, i: nat, x: real, y: real)
    requires Proper(b) && i < 4
    ensures Proper(CornerQuadrant(b, i))
    ensures Covers(CornerQuadrant(b, i), x, y) ==> Covers(b, x, y)
  {
  }

  /** Every point of the box lies in one of its quadrants. */
  lemma CornerQuadrantsCover(b: Box, x: real, y: real)
    requires Covers(b, x, y)
    ensures exists i :: 0 <= i < 4 && Covers(CornerQuadrant(b, i), x, y)
  {
    var xcenter := b.left + (b.right - b.left) / 2.0;
    var ycenter := b.top + (b.bottom - b.top) / 2.0;
    var i := (if x <= xcenter then 0 else 1) + (if y <= ycenter then 0 else 2);
    assert Covers(CornerQuadrant(b, i), x, y);
  }

  /** The quadrants' areas add up to the box's area. */
  lemma CornerQuadrantAreas(b: Box)
    ensures BoxArea(CornerQuadrant(b, 0)) + BoxArea(CornerQuadrant(b, 1))
            + BoxArea(CornerQuadrant(b, 2)) + BoxArea(CornerQuadrant(b, 3)) == BoxArea(b)
  {
    var hw, hh := (b.right - b.left) / 2.0, (b.bottom - b.top) / 2.0;
    assert b.right - b.left == hw + hw && b.bottom - b.top == hh + hh;
    assert BoxArea(b) == (hw + hw) * (hh + hh);
    assert (hw + hw) * (hh + hh) == 4.0 * (hw * hh);
  }

  /** Open containment: the point is strictly inside the box. */
  predicate Inside(b: Box, x: real, y: real) {
    b.left < x < b.right && b.top < y < b.bottom
  }

  /** Distinct quadrants share at most edges: no point is strictly inside two of them. */
  lemma CornerQuadrantsDisjoint(b: Box, i: nat, j: nat, x: real, y: real)
    requires i < 4 && j < 4 && i != j
    ensures !(Inside(CornerQuadrant(b, i), x, y) && Inside(CornerQuadrant(b, j), x, y))
  {
  }

  // ---------------------------------------------------------------------------------------------
  // The image and the nodes

  /** An RGB colour with integer channels. */
  datatype Color = Color(red: int, green: int, blue: int)

  /** What the compressor asks of the Pillow image: its size, `getbbox()`, and for any box the
      histogram of the cropped region (`histogram()`) and its average colour (the channel means
      truncated to int). */
  datatype Image = Image(
    width: nat,
    height: nat,
    bbox: Box,
    histogram: Box -> seq<nat>,
    averageColor: Box -> Color)

  /** A compressing-tree node. Its quadtree point list is never used and is not modelled. */
  datatype Quad = Quad(box: Box, depth: int, leaf: bool, detail: real, color: Color, children: seq<Quad>)

  /** The node's detail and colour are those of the image region its box crops. */
  predicate Describes(q: Quad, image: Image, sqrt: real -> real) {
    && q.detail == DetailIntensity(image.histogram(q.box), sqrt)
    && q.color == image.averageColor(q.box)
  }

  /** The constructor `CompressingTree(image, bbox, depth)`: a childless node that is not (yet) a
      leaf, with the detail intensity and average colour of the cropped region. */
  function NewQuad(image: Image, box: Box, depth: int, sqrt: real -> real): (q: Quad)
    ensures q.box == box && q.depth == depth && !q.leaf && q.children == []
    ensures Describes(q, image, sqrt)
  {
    Quad(box, depth, false, DetailIntensity(image.histogram(box), sqrt), image.averageColor(box), [])
  }

  /** `add_child`: append a new node for the box to the children. */
  function AddChild(n: Quad, image: Image, box: Box, depth: int, sqrt: real -> real): (m: Quad)
    ensures m.box == n.box && m.depth == n.depth && m.leaf == n.leaf
    ensures m.detail == n.detail && m.color == n.color
    ensures |m.children| == |n.children| + 1 && m.children[..|n.children|] == n.children
    ensures var c := m.children[|n.children|];
      c.box == box && c.depth == depth && !c.leaf && c.children == [] && Describes(c, image, sqrt)
  {
    n.(children := n.children + [NewQuad(image, box, depth, sqrt)])
  }

  /** The order in which the four threads of `subdivide` finish: a permutation of 0..3. */
  predicate IsOrder(order: seq<nat>) {
    && |order| == 4
    && (forall j :: 0 <= j < 4 ==> order[j] < 4)
    && (forall i, j :: 0 <= i < j < 4 ==> order[i] != order[j])
  }

  /** Every quadrant index appears in an order. */
  lemma OrderIsOnto(order: seq<nat>, k: nat)
    requires IsOrder(order) && k < 4
    ensures exists j :: 0 <= j < 4 && order[j] == k
  {
    var a, b, c, d := order[0], order[1], order[2], order[3];
    assert a < 4 && b < 4 && c < 4 && d < 4;
    assert a != b && a != c && a != d && b != c && b != d && c != d;
    if a != k && b != k && c != k {
      assert d == k;
    }
  }

  /** The node after `subdivide`: its children are the nodes of the four quadrants, in the order in
      which their threads finished. */
  function Subdivided(n: Quad, image: Image, sqrt: real -> real, order: seq<nat>): (m: Quad)
    requires IsOrder(order)
    ensures m.box == n.box && m.depth == n.depth && m.leaf == n.leaf
    ensures m.detail == n.detail && m.color == n.color
    ensures |m.children| == 4
    ensures forall j :: 0 <= j < 4 ==>
              && m.children[j].box == CornerQuadrant(n.box, order[j])
              && m.children[j].depth == n.depth + 1
              && !m.children[j].leaf
              && m.children[j].children == []
              && Describes(m.children[j], image, sqrt)
  {
    n.(children := seq(4, j requires 0 <= j < 4 =>
                           NewQuad(image, CornerQuadrant(n.box, order[j]), n.depth + 1, sqrt)))
  }

  /** `subdivide`: reset the children, then one thread per quadrant box appends its node; the
      threads finish in `order`. */
  method Subdivide(n: Quad, image: Image, sqrt: real -> real, order: seq<nat>) returns (m: Quad)
    requires IsOrder(order)
    ensures m == Subdivided(n, image, sqrt, order)
  {
    var left, top, width, height := n.box.left, n.box.top, n.box.right, n.box.bottom;
    var xcenter := left + (width - left) / 2.0;
    var ycenter := top + (height - top) / 2.0;
    var boxes := [
      Box(left, top, xcenter, ycenter),
      Box(xcenter, top, width, ycenter),
      Box(left, ycenter, xcenter, height),
      Box(xcenter, ycenter, width, height)
    ];
    m := n.(children := []);
    var j := 0;
    while j < 4
      invariant 0 <= j <= 4
      invariant m == n.(children := seq(j, k requires 0 <= k < j =>
                        NewQuad(image, CornerQuadrant(n.box, order[k]), n.depth + 1, sqrt)))
    {
      assert boxes[order[j]] == CornerQuadrant(n.box, order[j]);
      m := AddChild(m, image, boxes[order[j]], n.depth + 1, sqrt);
      j := j + 1;
    }
  }

  /** Whatever order the threads finish in, each quadrant of the box is some child's box. */
  lemma SubdividedHasEveryQuadrant(n: Quad, image: Image, sqrt: real -> real, order: seq<nat>, k: nat)
    requires IsOrder(order) && k < 4
    ensures exists j :: 0 <= j < 4 && Subdivided(n, image, sqrt, order).children[j].box == CornerQuadrant(n.box, k)
  {
    OrderIsOnto(order, k);
    var j :| 0 <= j < 4 && order[j] == k;
    assert Subdivided(n, image, sqrt, order).children[j].box == CornerQuadrant(n.box, k);
  }

  /** Every point of the box lies in some child's box. */
  lemma SubdividedCovers(n: Quad, image: Image, sqrt: real -> real, order: seq<nat>, x: real, y: real)
    requires IsOrder(order) && Covers(n.box, x, y)
    ensures exists j :: 0 <= j < 4 && Covers(Subdivided(n, image, sqrt, order).children[j].box, x, y)
  {
    CornerQuadrantsCover(n.box, x, y);
    var k :| 0 <= k < 4 && Covers(CornerQuadrant(n.box, k), x, y);
    OrderIsOnto(order, k);
    var j :| 0 <= j < 4 && order[j] == k;
    assert Covers(Subdivided(n, image, sqrt, order).children[j].box, x, y);
  }

  /** The children's areas add up to the box's area, whatever the order. */
  lemma SubdividedArea(n: Quad, image: Image, sqrt: real -> real, order: seq<nat>)
    requires IsOrder(order)
    ensures var m := Subdivided(n, image, sqrt, order);
      && |m.children| == 4
      && BoxArea(m.children[0].box) + BoxArea(m.children[1].box)
         + BoxArea(m.children[2].box) + BoxArea(m.children[3].box) == BoxArea(n.box)
  {
    var m := Subdivided(n, image, sqrt, order);
    var a := [BoxArea(CornerQuadrant(n.box, 0)), BoxArea(CornerQuadrant(n.box, 1)),
              BoxArea(CornerQuadrant(n.box, 2)), BoxArea(CornerQuadrant(n.box, 3))];
    assert forall j :: 0 <= j < 4 ==> BoxArea(m.children[j].box) == a[order[j]];
    CornerQuadrantAreas(n.box);
    PermutedSum(order, a[0], a[1], a[2], a[3]);
  }

  /** Summing four values in a permuted order gives the same sum. */
  lemma PermutedSum(order: seq<nat>, a0: real, a1: real, a2: real, a3: real)
    requires IsOrder(order)
    ensures var a := [a0, a1, a2, a3];
      a[order[0]] + a[order[1]] + a[order[2]] + a[order[3]] == a0 + a1 + a2 + a3
  {
    OrderIsOnto(order, 0);
    OrderIsOnto(order, 1);
    OrderIsOnto(order, 2);
    OrderIsOnto(order, 3);
  }
}
