/** The compression driver: build the compressing tree down to the leaves, collect the quadrants
    of a chosen depth, paint them, and the depth sequence of the animation. */
module ImageCompressors {
  import opened CompressingTrees

  /** `MAX_DEPTH`: no node is subdivided at this depth or deeper. */
  const MaxDepth: int := 8

  /** `DETAIL_THRESHOLD`: a node whose detail is at most this is not subdivided. */
  const DetailThreshold: real := 15.0

  /** How many more levels a node at this depth may still be subdivided. */
  function Remaining(depth: int): nat {
    if depth >= MaxDepth then 0 else MaxDepth - depth
  }

  /** The test of `build`: the node becomes a leaf. */
  predicate StopsAt(n: Quad) {
    n.depth >= MaxDepth || n.detail <= DetailThreshold
  }

  /** For every box, the order in which the threads of its subdivision finish. */
  ghost predicate Schedule(schedule: Box -> seq<nat>) {
    forall b :: IsOrder(schedule(b))
  }

  /** A node as the constructor leaves it: not a leaf, no children. */
  predicate Fresh(n: Quad) {
    !n.leaf && n.children == []
  }

  // ---------------------------------------------------------------------------------------------
  // Building the tree

  /** The node after `build`: a leaf when it stops, otherwise subdivided with every child built. */
  function BuildTree(n: Quad, image: Image, sqrt: real -> real, schedule: Box -> seq<nat>): (t: Quad)
    requires Schedule(schedule)
    ensures t.box == n.box && t.depth == n.depth && t.detail == n.detail && t.color == n.color
    decreases Remaining(n.depth), 1
  {
    if StopsAt(n) then n.(leaf := true)
    else
      var s := Subdivided(n, image, sqrt, schedule(n.box));
      s.(children := BuildAll(s.children, n.depth + 1, image, sqrt, schedule))
  }

  /** The children after the loop of `build`: each one built, in place. */
  function BuildAll(cs: seq<Quad>, d: int, image: Image, sqrt: real -> real, schedule: Box -> seq<nat>): (r: seq<Quad>)
    requires Schedule(schedule) && d <= MaxDepth
    requires forall i :: 0 <= i < |cs| ==> cs[i].depth == d
    ensures |r| == |cs|
    ensures forall i :: 0 <= i < |cs| ==> r[i] == BuildTree(cs[i], image, sqrt, schedule)
    decreases Remaining(d - 1), 0, |cs|
  {
    if cs == [] then []
    else BuildAll(cs[..|cs| - 1], d, image, sqrt, schedule) + [BuildTree(cs[|cs| - 1], image, sqrt, schedule)]
  }

  /** The shape `build` gives a tree: a node is a leaf exactly when it stops, leaves have no
      children, every other node has the four quadrants of its box as children one level deeper
      (in the order their threads finished), and each node describes its region of the image. */
  ghost predicate WellBuilt(t: Quad, image: Image, sqrt: real -> real, schedule: Box -> seq<nat>)
    decreases t
  {
    && Describes(t, image, sqrt)
    && (t.leaf <==> StopsAt(t))
    && (t.leaf ==> t.children == [])
    && (!t.leaf ==>
          && IsOrder(schedule(t.box))
          && |t.children| == 4
          && (forall j :: 0 <= j < 4 ==>
                && t.children[j].box == CornerQuadrant(t.box, schedule(t.box)[j])
                && t.children[j].depth == t.depth + 1
                && WellBuilt(t.children[j], image, sqrt, schedule)))
  }

  /** One more child extends the built children by that child built. */
  lemma BuildAllStep(cs: seq<Quad>, d: int, n: nat, image: Image, sqrt: real -> real, schedule: Box -> seq<nat>)
    requires Schedule(schedule) && d <= MaxDepth && n < |cs|
    requires forall i :: 0 <= i < |cs| ==> cs[i].depth == d
    ensures BuildAll(cs[..n + 1], d, image, sqrt, schedule)
            == BuildAll(cs[..n], d, image, sqrt, schedule) + [BuildTree(cs[n], image, sqrt, schedule)]
  {
    assert cs[..n + 1][..n] == cs[..n];
  }

  /** Building a fresh node that describes its region yields a well-built tree. */
  lemma {:induction false} BuildTreeWellBuilt(n: Quad, image: Image, sqrt: real -> real, schedule: Box -> seq<nat>)
    requires Schedule(schedule) && Fresh(n) && Describes(n, image, sqrt)
    ensures WellBuilt(BuildTree(n, image, sqrt, schedule), image, sqrt, schedule)
    decreases Remaining(n.depth), 1
  {
    var t := BuildTree(n, image, sqrt, schedule);
    if StopsAt(n) {
      assert t == n.(leaf := true);
    } else {
      var order := schedule(n.box);
      var s := Subdivided(n, image, sqrt, order);
      var built := BuildAll(s.children, n.depth + 1, image, sqrt, schedule);
      assert t == s.(children := built);
      BuildAllWellBuilt(s.children, n.depth + 1, image, sqrt, schedule);
      forall j | 0 <= j < 4
        ensures t.children[j].box == CornerQuadrant(t.box, order[j])
        ensures t.children[j].depth == t.depth + 1
        ensures WellBuilt(t.children[j], image, sqrt, schedule)
      {
        assert t.children[j] == BuildTree(s.children[j], image, sqrt, schedule);
      }
    }
  }

  lemma {:induction false} BuildAllWellBuilt(cs: seq<Quad>, d: int, image: Image, sqrt: real -> real, schedule: Box -> seq<nat>)
    requires Schedule(schedule) && d <= MaxDepth
    requires forall i :: 0 <= i < |cs| ==> cs[i].depth == d && Fresh(cs[i]) && Describes(cs[i], image, sqrt)
    ensures forall i :: 0 <= i < |cs| ==> WellBuilt(BuildAll(cs, d, image, sqrt, schedule)[i], image, sqrt, schedule)
    decreases Remaining(d - 1), 0, |cs|
  {
    if cs != [] {
      BuildAllWellBuilt(cs[..|cs| - 1], d, image, sqrt, schedule);
      BuildTreeWellBuilt(cs[|cs| - 1], image, sqrt, schedule);
    }
  }

  /** No node of a well-built tree whose root is not too deep lies deeper than `MaxDepth`. */
  ghost predicate DepthsAtMost(t: Quad, m: int)
    decreases t
  {
    t.depth <= m && forall j :: 0 <= j < |t.children| ==> DepthsAtMost(t.children[j], m)
  }

  lemma {:induction false} WellBuiltDepthBound(t: Quad, image: Image, sqrt: real -> real, schedule: Box -> seq<nat>)
    requires WellBuilt(t, image, sqrt, schedule) && t.depth <= MaxDepth
    ensures DepthsAtMost(t, MaxDepth)
    decreases t
  {
    forall j | 0 <= j < |t.children|
      ensures DepthsAtMost(t.children[j], MaxDepth)
    {
      WellBuiltDepthBound(t.children[j], image, sqrt, schedule);
    }
  }

  // ---------------------------------------------------------------------------------------------
  // The deepest leaf

  /** The leaves of the tree, left to right. */
  function Leaves(t: Quad): (r: seq<Quad>)
    ensures forall i :: 0 <= i < |r| ==> r[i].leaf
    decreases t, 1
  {
    if t.leaf then [t] else LeavesAll(t.children)
  }

  function LeavesAll(cs: seq<Quad>): (r: seq<Quad>)
    ensures forall i :: 0 <= i < |r| ==> r[i].leaf
    decreases cs, 0
  {
    if cs == [] then [] else LeavesAll(cs[..|cs| - 1]) + Leaves(cs[|cs| - 1])
  }

  /** `current_depth` after `build` has visited the tree, starting from `acc`: raised to the
      depth of every leaf reached, in the order `build` reaches them. */
  function Deepest(acc: int, t: Quad): (r: int)
    decreases t, 1
  {
    if t.leaf then (if t.depth > acc then t.depth else acc) else DeepestAll(acc, t.children)
  }

  function DeepestAll(acc: int, cs: seq<Quad>): (r: int)
    decreases cs, 0
  {
    if cs == [] then acc else Deepest(DeepestAll(acc, cs[..|cs| - 1]), cs[|cs| - 1])
  }

  /** One more built child extends the walk by that child. */
  lemma DeepestAllStep(acc: int, cs: seq<Quad>, c: Quad)
    ensures DeepestAll(acc, cs + [c]) == Deepest(DeepestAll(acc, cs), c)
  {
    assert (cs + [c])[..|cs|] == cs;
  }

  /** `current_depth` never decreases, ends at least as deep as every leaf, and is either where it
      started or the depth of some leaf: the maximum of its start and the leaf depths. */
  lemma {:induction false} DeepestIsMaximum(acc: int, t: Quad)
    ensures Deepest(acc, t) >= acc
    ensures forall i :: 0 <= i < |Leaves(t)| ==> Leaves(t)[i].depth <= Deepest(acc, t)
    ensures Deepest(acc, t) == acc || exists i :: 0 <= i < |Leaves(t)| && Leaves(t)[i].depth == Deepest(acc, t)
    decreases t, 1
  {
    if t.leaf {
      assert Leaves(t) == [t];
      if t.depth > acc {
        assert Leaves(t)[0].depth == Deepest(acc, t);
      }
    } else {
      assert Deepest(acc, t) == DeepestAll(acc, t.children) && Leaves(t) == LeavesAll(t.children);
      DeepestAllIsMaximum(acc, t.children);
      if Deepest(acc, t) != acc {
        var i :| 0 <= i < |LeavesAll(t.children)| && LeavesAll(t.children)[i].depth == Deepest(acc, t);
        assert Leaves(t)[i].depth == Deepest(acc, t);
      }
    }
  }

  lemma {:induction false} DeepestAllIsMaximum(acc: int, cs: seq<Quad>)
    ensures DeepestAll(acc, cs) >= acc
    ensures forall i :: 0 <= i < |LeavesAll(cs)| ==> LeavesAll(cs)[i].depth <= DeepestAll(acc, cs)
    ensures DeepestAll(acc, cs) == acc ||
            exists i :: 0 <= i < |LeavesAll(cs)| && LeavesAll(cs)[i].depth == DeepestAll(acc, cs)
    decreases cs, 0
  {
    if cs != [] {
      var init, last := cs[..|cs| - 1], cs[|cs| - 1];
      var mid := DeepestAll(acc, init);
      DeepestAllIsMaximum(acc, init);
      DeepestIsMaximum(mid, last);
      var a, b := LeavesAll(init), Leaves(last);
      assert LeavesAll(cs) == a + b;
      assert forall i :: 0 <= i < |a| ==> (a + b)[i] == a[i];
      assert forall i :: 0 <= i < |b| ==> (a + b)[|a| + i] == b[i];
      if DeepestAll(acc, cs) != acc {
        if DeepestAll(acc, cs) == mid {
          var i :| 0 <= i < |a| && a[i].depth == mid;
          assert (a + b)[i].depth == DeepestAll(acc, cs);
        } else {
          var i :| 0 <= i < |b| && b[i].depth == DeepestAll(acc, cs);
          assert (a + b)[|a| + i].depth == DeepestAll(acc, cs);
        }
      }
    }
  }

  /** In a well-built tree whose root is not too deep, every leaf is at most `MaxDepth` deep. */
  lemma {:induction false} LeavesDepthBound(t: Quad, image: Image, sqrt: real -> real, schedule: Box -> seq<nat>)
    requires WellBuilt(t, image, sqrt, schedule) && t.depth <= MaxDepth
    ensures forall i :: 0 <= i < |Leaves(t)| ==> Leaves(t)[i].depth <= MaxDepth
    decreases t, 1
  {
    if !t.leaf {
      LeavesAllDepthBound(t, image, sqrt, schedule, 4);
      assert t.children[..4] == t.children;
    }
  }

  lemma {:induction false} LeavesAllDepthBound(t: Quad, image: Image, sqrt: real -> real, schedule: Box -> seq<nat>, n: nat)
    requires WellBuilt(t, image, sqrt, schedule) && !t.leaf && t.depth <= MaxDepth && n <= 4
    ensures forall i :: 0 <= i < |LeavesAll(t.children[..n])| ==> LeavesAll(t.children[..n])[i].depth <= MaxDepth
    decreases t, 0, n
  {
    if n > 0 {
      var cs := t.children[..n];
      assert cs[..n - 1] == t.children[..n - 1];
      LeavesAllDepthBound(t, image, sqrt, schedule, n - 1);
      LeavesDepthBound(t.children[n - 1], image, sqrt, schedule);
      var a, b := LeavesAll(t.children[..n - 1]), Leaves(t.children[n - 1]);
      assert LeavesAll(cs) == a + b;
      assert forall i :: 0 <= i < |b| ==> (a + b)[|a| + i] == b[i];
    }
  }

  /** After `build` from a root at depth 0, `current_depth` lies between 0 and `MaxDepth`. */
  lemma CurrentDepthBounded(t: Quad, image: Image, sqrt: real -> real, schedule: Box -> seq<nat>)
    requires WellBuilt(t, image, sqrt, schedule) && 0 <= t.depth <= MaxDepth
    ensures 0 <= Deepest(0, t) <= MaxDepth
  {
    DeepestIsMaximum(0, t);
    LeavesDepthBound(t, image, sqrt, schedule);
  }

  // ---------------------------------------------------------------------------------------------
  // Searching one depth

  /** The nodes `recursive_search(t, d)` appends: the node itself when it is a leaf or at depth
      `d`, otherwise the answers of its children in child order. */
  function Search(t: Quad, d: int): (r: seq<Quad>)
    ensures forall i :: 0 <= i < |r| ==> r[i].leaf || r[i].depth == d
    decreases t, 1
  {
    if t.leaf || t.depth == d then [t] else SearchAll(t.children, d)
  }

  function SearchAll(cs: seq<Quad>, d: int): (r: seq<Quad>)
    ensures forall i :: 0 <= i < |r| ==> r[i].leaf || r[i].depth == d
    decreases cs, 0
  {
    if cs == [] then [] else SearchAll(cs[..|cs| - 1], d) + Search(cs[|cs| - 1], d)
  }

  /** Searching a well-built tree from a root not below `d`: every node found describes its
      region and lies between the root's depth and `d`. */
  lemma {:induction false} SearchDepthBound(t: Quad, d: int, image: Image, sqrt: real -> real, schedule: Box -> seq<nat>)
    requires WellBuilt(t, image, sqrt, schedule) && t.depth <= d
    ensures forall i :: 0 <= i < |Search(t, d)| ==>
              && t.depth <= Search(t, d)[i].depth <= d
              && Describes(Search(t, d)[i], image, sqrt)
    decreases t, 1
  {
    if !(t.leaf || t.depth == d) {
      SearchAllDepthBound(t, d, image, sqrt, schedule, 4);
      assert t.children[..4] == t.children;
    }
  }

  lemma {:induction false} SearchAllDepthBound(t: Quad, d: int, image: Image, sqrt: real -> real, schedule: Box -> seq<nat>, n: nat)
    requires WellBuilt(t, image, sqrt, schedule) && !t.leaf && t.depth < d && n <= 4
    ensures forall i :: 0 <= i < |SearchAll(t.children[..n], d)| ==>
              && t.depth < SearchAll(t.children[..n], d)[i].depth <= d
              && Describes(SearchAll(t.children[..n], d)[i], image, sqrt)
    decreases t, 0, n
  {
    if n > 0 {
      var cs := t.children[..n];
      assert cs[..n - 1] == t.children[..n - 1];
      SearchAllDepthBound(t, d, image, sqrt, schedule, n - 1);
      SearchDepthBound(t.children[n - 1], d, image, sqrt, schedule);
      var a, b := SearchAll(t.children[..n - 1], d), Search(t.children[n - 1], d);
      assert SearchAll(cs, d) == a + b;
      assert forall i :: 0 <= i < |b| ==> (a + b)[|a| + i] == b[i];
    }
  }

  /** Every point of a well-built tree's box is covered by some node the search finds. */
  lemma {:induction false} SearchCovers(t: Quad, d: int, image: Image, sqrt: real -> real, schedule: Box -> seq<nat>, x: real, y: real)
    requires WellBuilt(t, image, sqrt, schedule) && Covers(t.box, x, y)
    ensures exists i :: 0 <= i < |Search(t, d)| && Covers(Search(t, d)[i].box, x, y)
    decreases t
  {
    if t.leaf || t.depth == d {
      assert Search(t, d)[0] == t;
    } else {
      var order := schedule(t.box);
      CornerQuadrantsCover(t.box, x, y);
      var k :| 0 <= k < 4 && Covers(CornerQuadrant(t.box, k), x, y);
      OrderIsOnto(order, k);
      var j :| 0 <= j < 4 && order[j] == k;
      var c := t.children[j];
      assert c.box == CornerQuadrant(t.box, k) && WellBuilt(c, image, sqrt, schedule);
      SearchCovers(c, d, image, sqrt, schedule, x, y);
      var i :| 0 <= i < |Search(c, d)| && Covers(Search(c, d)[i].box, x, y);
      SearchAllContains(t.children, d, j, i);
      var m :| 0 <= m < |SearchAll(t.children, d)| && SearchAll(t.children, d)[m] == Search(c, d)[i];
      assert Search(t, d)[m] == Search(c, d)[i];
    }
  }

  /** A node found in one child's search is found in the search of all the children. */
  lemma {:induction false} SearchAllContains(cs: seq<Quad>, d: int, j: nat, i: nat)
    requires j < |cs| && i < |Search(cs[j], d)|
    ensures exists k :: 0 <= k < |SearchAll(cs, d)| && SearchAll(cs, d)[k] == Search(cs[j], d)[i]
    decreases |cs|
  {
    var a, b := SearchAll(cs[..|cs| - 1], d), Search(cs[|cs| - 1], d);
    assert SearchAll(cs, d) == a + b;
    if j == |cs| - 1 {
      assert (a + b)[|a| + i] == b[i];
    } else {
      assert cs[..|cs| - 1][j] == cs[j];
      SearchAllContains(cs[..|cs| - 1], d, j, i);
      var k :| 0 <= k < |a| && a[k] == Search(cs[j], d)[i];
      assert (a + b)[k] == a[k];
    }
  }

  /** The total area of a list of nodes' boxes. */
  function AreaSum(qs: seq<Quad>): real {
    if qs == [] then 0.0 else AreaSum(qs[..|qs| - 1]) + BoxArea(qs[|qs| - 1].box)
  }

  lemma {:induction false} AreaSumConcat(a: seq<Quad>, b: seq<Quad>)
    ensures AreaSum(a + b) == AreaSum(a) + AreaSum(b)
    decreases |b|
  {
    if b == [] {
      assert a + b == a;
    } else {
      assert (a + b)[..|a + b| - 1] == a + b[..|b| - 1];
      assert (a + b)[|a + b| - 1] == b[|b| - 1];
      AreaSumConcat(a, b[..|b| - 1]);
    }
  }

  /** The boxes a search of a well-built tree finds add up to the area of the root's box: with
      covering, the found quadrants tile the root box. */
  lemma {:induction false} SearchArea(t: Quad, d: int, image: Image, sqrt: real -> real, schedule: Box -> seq<nat>)
    requires WellBuilt(t, image, sqrt, schedule)
    ensures AreaSum(Search(t, d)) == BoxArea(t.box)
    decreases t, 1
  {
    if t.leaf || t.depth == d {
      assert Search(t, d) == [t];
      assert [t][..0] == [];
    } else {
      SearchAllArea(t.children, d, image, sqrt, schedule);
      ChildrenArea(t, image, sqrt, schedule);
    }
  }

  lemma {:induction false} SearchAllArea(cs: seq<Quad>, d: int, image: Image, sqrt: real -> real, schedule: Box -> seq<nat>)
    requires forall i :: 0 <= i < |cs| ==> WellBuilt(cs[i], image, sqrt, schedule)
    ensures AreaSum(SearchAll(cs, d)) == AreaSum(cs)
    decreases cs, 0
  {
    if cs != [] {
      var init, last := cs[..|cs| - 1], cs[|cs| - 1];
      SearchAllArea(init, d, image, sqrt, schedule);
      SearchArea(last, d, image, sqrt, schedule);
      AreaSumConcat(SearchAll(init, d), Search(last, d));
    }
  }

  /** The four children of a subdivided node of a well-built tree share out its area. */
  lemma ChildrenArea(t: Quad, image: Image, sqrt: real -> real, schedule: Box -> seq<nat>)
    requires WellBuilt(t, image, sqrt, schedule) && !t.leaf
    ensures AreaSum(t.children) == BoxArea(t.box)
  {
    var cs := t.children;
    var order := schedule(t.box);
    var a := [BoxArea(CornerQuadrant(t.box, 0)), BoxArea(CornerQuadrant(t.box, 1)),
              BoxArea(CornerQuadrant(t.box, 2)), BoxArea(CornerQuadrant(t.box, 3))];
    assert forall j :: 0 <= j < 4 ==> BoxArea(cs[j].box) == a[order[j]];
    AreaSumOfFour(cs);
    CornerQuadrantAreas(t.box);
    PermutedSum(order, a[0], a[1], a[2], a[3]);
  }

  lemma AreaSumOfFour(cs: seq<Quad>)
    requires |cs| == 4
    ensures AreaSum(cs) == BoxArea(cs[0].box) + BoxArea(cs[1].box) + BoxArea(cs[2].box) + BoxArea(cs[3].box)
  {
    assert cs[..3][..2] == cs[..2] && cs[..2][..1] == cs[..1] && cs[..1][..0] == [];
    assert AreaSum(cs[..1]) == BoxArea(cs[0].box);
    assert AreaSum(cs[..2]) == BoxArea(cs[0].box) + BoxArea(cs[1].box);
  }

  // ---------------------------------------------------------------------------------------------
  // Painting

  /** The colour a point gets when the boxes are filled one after another on a black canvas: the
      colour of the last box drawn that covers it, black when none does. */
  function Paint(drawn: seq<Quad>, x: real, y: real): (c: Color)
    ensures (forall i :: 0 <= i < |drawn| ==> !Covers(drawn[i].box, x, y)) ==> c == Color(0, 0, 0)
    ensures (exists i :: 0 <= i < |drawn| && Covers(drawn[i].box, x, y)) ==>
              exists i :: 0 <= i < |drawn| && Covers(drawn[i].box, x, y) && c == drawn[i].color
                && forall k :: i < k < |drawn| ==> !Covers(drawn[k].box, x, y)
  {
    if drawn == [] then Color(0, 0, 0)
    else if Covers(drawn[|drawn| - 1].box, x, y) then drawn[|drawn| - 1].color
    else Paint(drawn[..|drawn| - 1], x, y)
  }

  /** Whatever was drawn before, a final batch that covers the point decides its colour. */
  lemma {:induction false} PaintLastBatch(earlier: seq<Quad>, batch: seq<Quad>, x: real, y: real)
    requires exists i :: 0 <= i < |batch| && Covers(batch[i].box, x, y)
    ensures Paint(earlier + batch, x, y) == Paint(batch, x, y)
    decreases |batch|
  {
    var n := |batch| - 1;
    assert (earlier + batch)[..|earlier + batch| - 1] == earlier + batch[..n];
    assert (earlier + batch)[|earlier + batch| - 1] == batch[n];
    if !Covers(batch[n].box, x, y) {
      var i :| 0 <= i < |batch| && Covers(batch[i].box, x, y);
      assert batch[..n][i] == batch[i];
      PaintLastBatch(earlier, batch[..n], x, y);
    }
  }

  /** A frame whose last batch is the search of a well-built tree at depth `d` shows, at every
      point of the root box, the average colour of a quadrant found at that depth which covers the
      point, no matter what earlier searches left in the list. */
  lemma FrameShowsDepth(earlier: seq<Quad>, t: Quad, d: int, image: Image, sqrt: real -> real,
                        schedule: Box -> seq<nat>, x: real, y: real)
    requires WellBuilt(t, image, sqrt, schedule) && t.depth <= d && Covers(t.box, x, y)
    ensures exists i :: 0 <= i < |Search(t, d)| && Covers(Search(t, d)[i].box, x, y)
              && Search(t, d)[i].depth <= d
              && Paint(earlier + Search(t, d), x, y) == image.averageColor(Search(t, d)[i].box)
  {
    var s := Search(t, d);
    SearchCovers(t, d, image, sqrt, schedule, x, y);
    SearchDepthBound(t, d, image, sqrt, schedule);
    PaintLastBatch(earlier, s, x, y);
    var i :| 0 <= i < |s| && Covers(s[i].box, x, y) && Paint(s, x, y) == s[i].color;
    assert Describes(s[i], image, sqrt);
  }

  // ---------------------------------------------------------------------------------------------
  // The compressor

  /** What `quadrants` holds after searches at the given depths: their results, concatenated. */
  function Accumulated(root: Quad, depths: seq<int>): (qs: seq<Quad>)
    ensures depths == [] ==> qs == []
  {
    if depths == [] then [] else Accumulated(root, depths[..|depths| - 1]) + Search(root, depths[|depths| - 1])
  }

  /** `range(n, -1, -1)`: n, n - 1, ..., 0. */
  function Countdown(n: int): (r: seq<int>)
    ensures |r| == if n < 0 then 0 else n + 1
    ensures forall i :: 0 <= i < |r| ==> r[i] == n - i
    decreases if n < 0 then 0 else n + 1
  {
    if n < 0 then [] else [n] + Countdown(n - 1)
  }

  /** The depths `create_gif` renders, in order: the product image, then the countdown. */
  function RenderDepths(cd: int): seq<int> {
    [cd] + Countdown(cd)
  }

  /** The rendered depths up to the `k`-th: the product image's, then the countdown's first `k`. */
  lemma RenderDepthsPrefix(prior: seq<int>, cd: int, k: nat)
    requires k <= |Countdown(cd)|
    ensures prior + RenderDepths(cd)[..k + 1] == (prior + [cd]) + Countdown(cd)[..k]
  {
    assert RenderDepths(cd)[..k + 1] == [cd] + Countdown(cd)[..k];
  }

  /** One step of the countdown loop: appending the frame for the next depth keeps every
      frame equal to the picture of the searches up to its own depth. */
  lemma CountdownFrameStep(gif: seq<Frame>, frame: Frame, t: Quad, prior: seq<int>, depths: seq<int>,
                           width: nat, height: nat, showLines: bool)
    requires |gif| < |depths|
    requires forall k :: 0 <= k < |gif| ==>
               gif[k] == Frame(width, height, Accumulated(t, prior + depths[..k + 1]), showLines)
    requires frame == Frame(width, height, Accumulated(t, prior + depths[..|gif| + 1]), showLines)
    ensures forall k :: 0 <= k < |gif| + 1 ==>
              (gif + [frame])[k] == Frame(width, height, Accumulated(t, prior + depths[..k + 1]), showLines)
  {
    forall k | 0 <= k < |gif| + 1
      ensures (gif + [frame])[k] == Frame(width, height, Accumulated(t, prior + depths[..k + 1]), showLines)
    {
      if k < |gif| {
        assert (gif + [frame])[k] == gif[k];
      }
    }
  }

  /** The product image followed by the countdown images and the last one again are the frames of
      the rendered depths, each holding everything searched up to its own depth. */
  lemma GifFrames(product: Frame, gif: seq<Frame>, t: Quad, prior: seq<int>, cd: nat,
                  width: nat, height: nat, showLines: bool)
    requires product == Frame(width, height, Accumulated(t, prior + [cd]), showLines)
    requires |gif| == cd + 2
    requires forall k :: 0 <= k < cd + 1 ==>
               gif[k] == Frame(width, height, Accumulated(t, (prior + [cd]) + Countdown(cd)[..k + 1]), showLines)
    requires gif[cd + 1] == gif[cd]
    ensures var frames := [product] + gif;
      && |frames| == cd + 3
      && (forall k :: 0 <= k < cd + 2 ==>
            frames[k] == Frame(width, height, Accumulated(t, prior + RenderDepths(cd)[..k + 1]), showLines))
      && frames[cd + 2] == frames[cd + 1]
  {
    var frames := [product] + gif;
    assert RenderDepths(cd)[..1] == [cd];
    forall k | 1 <= k < cd + 2
      ensures frames[k] == Frame(width, height, Accumulated(t, prior + RenderDepths(cd)[..k + 1]), showLines)
    {
      assert frames[k] == gif[k - 1];
      RenderDepthsPrefix(prior, cd, k);
    }
  }

  /** The depths `create_gif` renders: `current_depth + 2` of them, full depth first, then full
      depth down to 0, one level at a time. */
  lemma RenderDepthsShape(cd: nat)
    ensures |RenderDepths(cd)| == cd + 2
    ensures RenderDepths(cd)[0] == cd
    ensures forall k :: 1 <= k <= cd + 1 ==> RenderDepths(cd)[k] == cd - (k - 1)
    ensures RenderDepths(cd)[cd + 1] == 0
  {
  }

  /** A picture of the given size, holding the boxes drawn in order, with or without outlines. */
  datatype Frame = Frame(width: nat, height: nat, drawn: seq<Quad>, showLines: bool)

  /** `create_image`: a frame, or the `ValueError` of `get_leaf_quadrants`. */
  datatype Rendered = Rendered(frame: Frame) | DepthError

  /** `get_leaf_quadrants`: done, or the `ValueError` for a depth beyond the tree's. */
  datatype Status = Done | DepthTooLarge

  /** `ImageCompressor`. The threads' completion order for each subdivided box is `schedule`, the
      square root is `sqrt`. `requested` records the depths searched so far. */
  class ImageCompressor {
    const image: Image
    const sqrt: real -> real
    const schedule: Box -> seq<nat>
    const width: nat
    const height: nat
    var root: Quad
    var quadrants: seq<Quad>
    var currentDepth: int
    ghost var requested: seq<int>

    /** `currentDepth` is the deepest leaf of the tree and `quadrants` holds the results of every
        search so far. */
    ghost predicate Valid()
      reads this
    {
      && Schedule(schedule)
      && currentDepth == Deepest(0, root)
      && quadrants == Accumulated(root, requested)
    }

    /** The root is the tree `build` makes from a node for the image's bounding box at depth 0. */
    ghost predicate Built()
      reads this
    {
      Schedule(schedule) && root == BuildTree(NewQuad(image, image.bbox, 0, sqrt), image, sqrt, schedule)
    }

    /** The built tree is well built from the image's bounding box at depth 0, no node of it lies
        deeper than `MaxDepth`, and `currentDepth` is between 0 and `MaxDepth`. */
    lemma ValidTree()
      requires Valid() && Built()
      ensures WellBuilt(root, image, sqrt, schedule) && root.depth == 0 && root.box == image.bbox
      ensures DepthsAtMost(root, MaxDepth) && 0 <= currentDepth <= MaxDepth
    {
      BuildTreeWellBuilt(NewQuad(image, image.bbox, 0, sqrt), image, sqrt, schedule);
      WellBuiltDepthBound(root, image, sqrt, schedule);
      CurrentDepthBounded(root, image, sqrt, schedule);
    }

    /** `__init__`: record the size, start with no quadrants and depth 0, and build the tree from
        a node for the image's bounding box. */
    constructor (image: Image, sqrt: real -> real, schedule: Box -> seq<nat>)
      requires Schedule(schedule)
      ensures Valid() && Built()
      ensures this.image == image && this.sqrt == sqrt && this.schedule == schedule
      ensures width == image.width && height == image.height
      ensures quadrants == [] && requested == []
    {
      this.image := image;
      this.sqrt := sqrt;
      this.schedule := schedule;
      width, height := image.width, image.height;
      quadrants := [];
      requested := [];
      currentDepth := 0;
      root := NewQuad(image, image.bbox, 0, sqrt);
      new;
      root := Build(root);
    }

    /** `build`: a node that stops becomes a leaf and raises `currentDepth` to its depth;
        otherwise it is subdivided and each child is built in turn. */
    method Build(node: Quad) returns (built: Quad)
      requires Schedule(schedule) && !node.leaf
      modifies this
      ensures built == BuildTree(node, image, sqrt, schedule)
      ensures currentDepth == Deepest(old(currentDepth), built)
      ensures root == old(root) && quadrants == old(quadrants) && requested == old(requested)
      decreases Remaining(node.depth)
    {
      if node.depth >= MaxDepth || node.detail <= DetailThreshold {
        if node.depth > currentDepth {
          currentDepth := node.depth;
        }
        built := node.(leaf := true);
        return;
      }
      var s := Subdivide(node, image, sqrt, schedule(node.box));
      var cs, d := s.children, node.depth + 1;
      var done: seq<Quad> := [];
      var j := 0;
      while j < |cs|
        invariant 0 <= j <= |cs|
        invariant done == BuildAll(cs[..j], d, image, sqrt, schedule)
        invariant currentDepth == DeepestAll(old(currentDepth), done)
        invariant root == old(root) && quadrants == old(quadrants) && requested == old(requested)
      {
        BuildAllStep(cs, d, j, image, sqrt, schedule);
        var child := Build(cs[j]);
        DeepestAllStep(old(currentDepth), done, child);
        done := done + [child];
        j := j + 1;
      }
      assert cs[..j] == cs;
      built := s.(children := done);
    }

    /** `recursive_search`: append the node when it is a leaf or at the depth, otherwise search
        each child in turn. */
    method RecursiveSearch(q: Quad, d: int)
      modifies this
      ensures quadrants == old(quadrants) + Search(q, d)
      ensures root == old(root) && currentDepth == old(currentDepth) && requested == old(requested)
      decreases q
    {
      if q.leaf || q.depth == d {
        quadrants := quadrants + [q];
        return;
      }
      var j := 0;
      while j < |q.children|
        invariant 0 <= j <= |q.children|
        invariant quadrants == old(quadrants) + SearchAll(q.children[..j], d)
        invariant root == old(root) && currentDepth == old(currentDepth) && requested == old(requested)
      {
        assert q.children[..j + 1][..j] == q.children[..j];
        RecursiveSearch(q.children[j], d);
        j := j + 1;
      }
      assert q.children[..j] == q.children;
    }

    /** `get_leaf_quadrants`: refuse a depth beyond the tree's, otherwise append the search of
        the whole tree at that depth. */
    method GetLeafQuadrants(d: int) returns (status: Status)
      requires Valid()
      modifies this
      ensures Valid() && root == old(root) && currentDepth == old(currentDepth)
      ensures status == DepthTooLarge <==> d > currentDepth
      ensures status == DepthTooLarge ==> quadrants == old(quadrants) && requested == old(requested)
      ensures status == Done ==>
                quadrants == old(quadrants) + Search(root, d) && requested == old(requested) + [d]
    {
      if d > currentDepth {
        return DepthTooLarge;
      }
      RecursiveSearch(root, d);
      requested := requested + [d];
      assert requested[..|requested| - 1] == old(requested);
      status := Done;
    }

    /** `create_image`: on a black canvas of the image's size, draw every quadrant collected so
        far, after adding those of the requested depth. */
    method CreateImage(customDepth: int, showLines: bool) returns (r: Rendered)
      requires Valid()
      modifies this
      ensures Valid() && root == old(root) && currentDepth == old(currentDepth)
      ensures r.DepthError? <==> customDepth > currentDepth
      ensures r.DepthError? ==> quadrants == old(quadrants) && requested == old(requested)
      ensures r.Rendered? ==>
                && requested == old(requested) + [customDepth]
                && r.frame == Frame(width, height, Accumulated(root, requested), showLines)
    {
      var status := GetLeafQuadrants(customDepth);
      if status == DepthTooLarge {
        return DepthError;
      }
      var drawn: seq<Quad> := [];
      for i := 0 to |quadrants|
        invariant drawn == quadrants[..i]
      {
        drawn := drawn + [quadrants[i]];
      }
      assert drawn == quadrants;
      r := Rendered(Frame(width, height, drawn, showLines));
    }

    /** The loop of `create_gif`: one image per depth from `currentDepth` down to 0. Image `k`
        holds everything searched up to its own depth. */
    method RenderCountdown(showLines: bool) returns (gif: seq<Frame>)
      requires Valid()
      modifies this
      ensures Valid() && root == old(root) && currentDepth == old(currentDepth)
      ensures |gif| == |Countdown(currentDepth)|
      ensures requested == old(requested) + Countdown(currentDepth)
      ensures forall k :: 0 <= k < |gif| ==>
                gif[k] == Frame(width, height, Accumulated(root, old(requested) + Countdown(currentDepth)[..k + 1]), showLines)
    {
      var cd := currentDepth;
      ghost var t, prior := root, requested;
      ghost var depths := Countdown(cd);
      gif := [];
      var i := cd;
      while i >= 0
        invariant i <= cd && |gif| == cd - i && |gif| <= |depths|
        invariant Valid() && root == t && currentDepth == cd
        invariant requested == prior + depths[..|gif|]
        invariant forall k :: 0 <= k < |gif| ==>
                    gif[k] == Frame(width, height, Accumulated(t, prior + depths[..k + 1]), showLines)
      {
        assert depths[|gif|] == i;
        var r := CreateImage(i, showLines);
        assert r.Rendered?;
        assert depths[..|gif| + 1] == depths[..|gif|] + [i];
        assert requested == prior + depths[..|gif| + 1];
        CountdownFrameStep(gif, r.frame, t, prior, depths, width, height, showLines);
        gif := gif + [r.frame];
        i := i - 1;
      }
      assert depths[..|gif|] == depths;
    }

    /** `create_gif`: the full-depth image, then one image per depth from `currentDepth` down to
        0, then the last one again. Frame `k` holds everything searched up to its own depth. */
    method CreateGif(showLines: bool) returns (frames: seq<Frame>)
      requires Valid()
      modifies this
      ensures Valid() && root == old(root) && currentDepth == old(currentDepth)
      ensures currentDepth >= 0 && |frames| == currentDepth + 3
      ensures requested == old(requested) + RenderDepths(currentDepth)
      ensures forall k :: 0 <= k < currentDepth + 2 ==>
                frames[k] == Frame(width, height,
                                   Accumulated(root, old(requested) + RenderDepths(currentDepth)[..k + 1]),
                                   showLines)
      ensures frames[currentDepth + 2] == frames[currentDepth + 1]
    {
      DeepestIsMaximum(0, root);
      var cd := currentDepth;
      ghost var t, prior := root, requested;
      var product := CreateImage(cd, showLines);
      assert product.Rendered?;
      var gif := RenderCountdown(showLines);
      gif := gif + [gif[|gif| - 1]];
      frames := [product.frame] + gif;
      GifFrames(product.frame, gif, t, prior, cd, width, height, showLines);
    }
  }
}
