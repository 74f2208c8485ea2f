# Adaptive quadtree image compressor, modelled in Dafny

This project models the quadtree engine of the image compressor. It has four modules, one per
source file.

- `Rectangles` (rectangle.dfy) is `tree/rectangle.py`. A box is given as `(x, y, w, h)`. Its
  bounds are `xmin = x`, `xmax = x + w`, `ymin = y` and `ymax = y + h`. `contains` and
  `intersects` are inclusive tests. Coordinates are exact reals.
- `QuadTrees` (quad_tree.dfy) is `tree/quad_tree.py`, a point index with capacity 4 per node.
  A node is a value: boundary, depth, stored points, and children (`[]` for the source's `None`).
  `insert`, `remove`, `subdivide` and `query_range` are methods with loops, like their source.
  Each is proved against the ghost invariant `Valid` and the set `Contents` of stored points.
  `Valid` says:
  - a node holds at most four distinct points;
  - a node never has points and children at once;
  - children are the four quadrants one level deeper;
  - every point lies in the boundary.
- `CompressingTrees` (compressing_tree.dfy) is `compressing_tree.py`. It models:
  - the histogram statistics (`get_deviation`, `get_detail_intensity`) over reals, with the
    square root as a parameter;
  - the corner-form quadrant split;
  - `subdivide` with its `add_child` loop.
  The four threads of `subdivide` append children in the order they finish. That order is a
  parameter: any permutation of the four quadrants.
- `ImageCompressors` (image_compressor.dfy) is `image_compressor.py`. The class
  `ImageCompressor` has the fields `root`, `quadrants` and `currentDepth`. Its methods are
  `Build`, `RecursiveSearch`, `GetLeafQuadrants`, `CreateImage` and `CreateGif`.
  - Each method is proved against functions: `BuildTree`, `Deepest`, `Search` and `Accumulated`.
  - Lemmas about those functions give the build rules, the depth bounds and the covering and
    area of one search.
  - A frame is the list of quadrants drawn on a black canvas. `Paint` gives the colour a point
    ends up with.

Inputs that come from outside the program are parameters of the model:
- the Pillow image: its size, `getbbox()`, and for every box the histogram and average colour;
- the square root;
- the order in which the threads of each subdivision finish.

## Model

| member | source | states |
|---|---|---|
| Rectangles.ContainsCorners | tree/rectangle.py:15-17 | `contains` is inclusive on every edge: the four corners and the centre of a box with non-negative sides are contained |
| Rectangles.OutsideNotContained | tree/rectangle.py:10-17 | a point beyond `xmin`, `xmax`, `ymin` or `ymax` is not contained |
| Rectangles.ContainsOnlyIfProper | tree/rectangle.py:10-17 | a box contains some point exactly when neither side is negative |
| Rectangles.IntersectsSymmetric | tree/rectangle.py:19-26 | `a.intersects(b)` equals `b.intersects(a)` |
| Rectangles.CommonPointIntersects | tree/rectangle.py:15-26 | boxes sharing a contained point intersect, so pruning by intersection loses no point |
| Rectangles.IntersectsIffCommonPoint | tree/rectangle.py:15-26 | for boxes with non-negative sides, intersecting is the same as sharing a contained point (both directions) |
| Rectangles.Rect.XMin | tree/rectangle.py:10 | `xmin`, the box's left bound `x`; with XMax, YMin and YMax, the bounds `contains` and `intersects` compare (their properties are the lemmas below) |
| Rectangles.Rect.XMax | tree/rectangle.py:11 | `xmax = x + w`, the right bound |
| Rectangles.Rect.YMin | tree/rectangle.py:12 | `ymin`, the top bound `y` |
| Rectangles.Rect.YMax | tree/rectangle.py:13 | `ymax = y + h`, the bottom bound |
| Rectangles.Rect.Contains | tree/rectangle.py:15-17 | defines the inclusive point test; ContainsCorners, OutsideNotContained and ContainsOnlyIfProper state its meaning |
| Rectangles.Rect.Intersects | tree/rectangle.py:19-26 | defines the inclusive overlap test; IntersectsSymmetric, IntersectsIffCommonPoint and TouchingIntersect state its meaning |
| Rectangles.TouchingIntersect | tree/rectangle.py:19-26 | a box starting on another's right edge with overlapping vertical ranges, or on its bottom edge with overlapping horizontal ranges, intersects it both ways; boxes meeting only at a corner are both cases |
| Rectangles.IntersectsSelf | tree/rectangle.py:19-26 | a box intersects itself exactly when its sides are non-negative |
| QuadTrees.Quadrant | tree/quad_tree.py:62-77 | defines the i-th child box, halved at the literal midpoint in NW, NE, SW, SE order; QuadrantInside, QuadrantsCover, QuadrantInteriorsDisjoint and QuadrantAreas state its meaning |
| QuadTrees.FirstQuadrant | tree/quad_tree.py:81-84 | the index of the first quadrant, in child order, that contains a point; no earlier quadrant contains it |
| QuadTrees.QuadrantsCover | tree/quad_tree.py:62-79 | every point of the boundary lies in one of the four quadrants, so some child always accepts it |
| QuadTrees.QuadrantInside | tree/quad_tree.py:62-77 | each quadrant has non-negative sides and lies inside the parent |
| QuadTrees.QuadrantInteriorsDisjoint | tree/quad_tree.py:62-77 | no point is strictly inside two different quadrants |
| QuadTrees.QuadrantAreas | tree/quad_tree.py:62-77 | the four quadrant areas add up to the parent's area |
| QuadTrees.ExtentShrinks | tree/quad_tree.py:66-77 | halving never grows a box's integer size, and shrinks it once a side reaches 1 (the termination measure of `insert`) |
| QuadTrees.DistinctPointsSpread | tree/quad_tree.py:28-37 | a box holding two distinct integer points has a side of at least 1, so a full leaf can always be split further |
| QuadTrees.Distribute | tree/quad_tree.py:81-84 | defines the points child k receives during redistribution; DistributeSpec, DistributePartition and DistributeDisjoint state its meaning |
| QuadTrees.DistributeSpec | tree/quad_tree.py:81-84 | child k receives exactly the stored points whose first containing quadrant is k, without duplicates |
| QuadTrees.DistributePartition | tree/quad_tree.py:81-86 | redistribution loses no point: the children's points together are the parent's |
| QuadTrees.DistributeDisjoint | tree/quad_tree.py:81-84 | different children receive different points |
| QuadTrees.Erase | tree/quad_tree.py:51 | defines `list.remove` (drop the first occurrence); EraseSpec states its meaning |
| QuadTrees.EraseSpec | tree/quad_tree.py:50-51 | `list.remove` on a duplicate-free list takes out exactly that point and keeps the list duplicate-free |
| QuadTrees.WithinSpec | tree/quad_tree.py:96-98 | the node's own points that the query box contains, and no others, without duplicates |
| QuadTrees.Empty | tree/quad_tree.py:12-21 | a new node keeps the invariant, stores nothing and has no children |
| QuadTrees.ReplaceChildGrows | tree/quad_tree.py:39-41 | a child that gained new points inside the boundary leaves the parent valid with exactly those points added |
| QuadTrees.ReplaceChildShrinks | tree/quad_tree.py:55-57 | a child that lost points no sibling holds leaves the parent valid with exactly those points removed |
| QuadTrees.InRange | tree/quad_tree.py:88-108 | defines the answer of `query_range`; InRangeExact, FullRangeQuery and Stored state its meaning, QueryRange proves the loop computes it |
| QuadTrees.QueryRange | tree/quad_tree.py:88-108 | the loop returns `InRange`: nothing when the boundary misses the query box, else the node's own points in the box and then each child's answer in order |
| QuadTrees.InRangeExact | tree/quad_tree.py:88-108 | `query_range` on a valid tree returns exactly the stored points the query box contains, each once |
| QuadTrees.ChildrenInRangeExact | tree/quad_tree.py:103-106 | the children's answers together are exactly the children's stored points in the box, each once |
| QuadTrees.FullRangeQuery | tree/quad_tree.py:88-108 | a query over the whole boundary returns every stored point |
| QuadTrees.Stored | tree/quad_tree.py:88-108 | a zero-size `query_range` at a point finds something exactly when the point is stored |
| QuadTrees.Insert | tree/quad_tree.py:23-42 | keeps the invariant; succeeds iff the point is inside the boundary and not yet stored; then adds exactly that point, otherwise changes nothing; a leaf with room appends it to its list |
| QuadTrees.InsertIntoChildren | tree/quad_tree.py:39-42 | a new point inside the boundary goes to the first child whose quadrant contains it, which gains exactly that point; the other children are unchanged; the tree stays valid with exactly that point added |
| QuadTrees.Subdivide | tree/quad_tree.py:60-86 | a valid leaf becomes a valid node with four children, an empty list and the same points; child k holds the points whose first containing quadrant is k |
| QuadTrees.RedistributePoints | tree/quad_tree.py:81-84 | the loop over stored points leaves child k holding `Distribute(points, k)`, and every child valid |
| QuadTrees.OfferAllowed | tree/quad_tree.py:81-84 | the next stored point lies in the boundary, and no child is full or already holds it |
| QuadTrees.Offer | tree/quad_tree.py:82-84 | offering one point appends it to the first child whose quadrant contains it and to no other |
| QuadTrees.Redistributed | tree/quad_tree.py:79-86 | the split node keeps the invariant and stores the same points as the leaf |
| QuadTrees.Remove | tree/quad_tree.py:44-58 | keeps the invariant; succeeds iff the point is stored; then removes exactly that point, otherwise changes nothing; a leaf drops it from its list; children are never merged |
| QuadTrees.LeafInsertAsWritten | tree/quad_tree.py:25-37 | the original leaf step: it passes the call on only for a point inside the box that is already in the list or finds the list full |
| QuadTrees.ReinsertNeverReturns | tree/quad_tree.py:23-42 | inserting a point a leaf already holds never returns, for any number of nested calls |
| QuadTrees.ReinsertExample | tree/quad_tree.py:23-42 | the concrete case: inserting (1, 1) again into a leaf over (0, 0, 8, 8) that holds it |
| CompressingTrees.Slice | compressing_tree.py:91-93 | `hist[lo:hi]`: the buckets from lo up to hi that exist, in order |
| CompressingTrees.MeanAt | compressing_tree.py:81 | in a histogram where only intensity k occurs, the moment is k times the total, so `value` is k |
| CompressingTrees.TermSign | compressing_tree.py:82-83 | each term `x * (value - i) ** 2` is never negative, is positive when intensity i occurs and is not the mean, and is zero when it does not occur or is the mean |
| CompressingTrees.SpreadNonNegative | compressing_tree.py:82-83 | the sum of squared deviations around the mean is never negative |
| CompressingTrees.SpreadAtLeast | compressing_tree.py:82-83 | the sum of squared deviations is at least each of its terms |
| CompressingTrees.SpreadZero | compressing_tree.py:82-83 | when every occurring intensity is the mean, the sum of squared deviations is zero |
| CompressingTrees.VarianceZeroIffFlat | compressing_tree.py:80-83 | for a non-empty histogram the variance is never negative, and is zero exactly when at most one intensity occurs |
| CompressingTrees.Deviation | compressing_tree.py:74-86 | `get_deviation` is 0 for an empty histogram; DeviationZeroIffFlat states the rest of its meaning |
| CompressingTrees.DeviationZeroIffFlat | compressing_tree.py:74-86 | `get_deviation` is never negative, and is zero exactly when the channel is flat or the histogram is empty |
| CompressingTrees.DetailIntensity | compressing_tree.py:88-100 | defines the luma-weighted sum of the three channel deviations; DetailZeroIffFlat states its meaning |
| CompressingTrees.DetailZeroIffFlat | compressing_tree.py:88-100 | the detail intensity is never negative, and is zero exactly when the red, green and blue slices are all flat |
| CompressingTrees.CornerQuadrant | compressing_tree.py:34-46 | defines the i-th corner-form box of `subdivide`; CornerQuadrantInside, CornerQuadrantsCover, CornerQuadrantsDisjoint and CornerQuadrantAreas state its meaning |
| CompressingTrees.CornerQuadrantInside | compressing_tree.py:34-46 | each corner-form quadrant is proper and lies inside the box |
| CompressingTrees.CornerQuadrantsCover | compressing_tree.py:34-46 | every point of the box lies in some quadrant |
| CompressingTrees.CornerQuadrantsDisjoint | compressing_tree.py:34-46 | no point is strictly inside two different quadrants |
| CompressingTrees.CornerQuadrantAreas | compressing_tree.py:34-46 | the quadrant areas add up to the box's area |
| CompressingTrees.NewQuad | compressing_tree.py:17-30 | a new node is not a leaf, has no children, and holds the detail and average colour of its region |
| CompressingTrees.AddChild | compressing_tree.py:57-65 | appends one new node for the box, at the given depth, describing its region; the node's own fields and earlier children are unchanged |
| CompressingTrees.OrderIsOnto | compressing_tree.py:47-55 | whatever order the threads finish in, every quadrant's thread is in it |
| CompressingTrees.Subdivided | compressing_tree.py:32-65 | after `subdivide`, a node has exactly four new children at depth + 1, one per quadrant, in thread completion order |
| CompressingTrees.Subdivide | compressing_tree.py:32-65 | the `add_child` loop produces `Subdivided` |
| CompressingTrees.SubdividedHasEveryQuadrant | compressing_tree.py:41-55 | each quadrant is some child's box |
| CompressingTrees.SubdividedCovers | compressing_tree.py:41-55 | every point of the box is covered by some child |
| CompressingTrees.SubdividedArea | compressing_tree.py:41-55 | the children's areas add up to the box's area, whatever the order |
| ImageCompressors.StopsAt | image_compressor.py:28-31 | defines the leaf test of `build`: depth >= 8 or detail <= 15; BuildTreeWellBuilt states its effect on the tree |
| ImageCompressors.BuildTree | image_compressor.py:26-40 | building keeps a node's box, depth, detail and colour |
| ImageCompressors.BuildAll | image_compressor.py:39-40 | the loop over the children builds each one in place |
| ImageCompressors.BuildTreeWellBuilt | image_compressor.py:26-40 | a built tree is well built: leaf exactly when depth >= 8 or detail <= 15, leaves childless, other nodes with the four quadrants as children one level deeper |
| ImageCompressors.WellBuiltDepthBound | image_compressor.py:28-40 | no node of a built tree lies deeper than `MAX_DEPTH` |
| ImageCompressors.Deepest | image_compressor.py:32-33 | defines `current_depth` after visiting the tree's leaves; DeepestIsMaximum and CurrentDepthBounded state its meaning, Build proves the method computes it |
| ImageCompressors.DeepestIsMaximum | image_compressor.py:32-33 | `current_depth` never decreases; it ends at the maximum of its start and all leaf depths |
| ImageCompressors.LeavesDepthBound | image_compressor.py:28-35 | every leaf of a built tree is at most `MAX_DEPTH` deep |
| ImageCompressors.CurrentDepthBounded | image_compressor.py:28-33 | after building from depth 0, `current_depth` lies between 0 and `MAX_DEPTH` |
| ImageCompressors.Search | image_compressor.py:82-87 | each node `recursive_search` appends is a leaf or lies at the requested depth |
| ImageCompressors.SearchDepthBound | image_compressor.py:82-87 | from a root not below d, every node found lies between the root's depth and d, and describes its region |
| ImageCompressors.SearchCovers | image_compressor.py:82-87 | every point of the root box is covered by some node found |
| ImageCompressors.SearchArea | image_compressor.py:82-87 | the areas of the boxes found add up to the root box's area |
| ImageCompressors.ChildrenArea | compressing_tree.py:41-55 | the four children of a node of a built tree share out its area |
| ImageCompressors.Paint | image_compressor.py:48-65 | a point is black when no drawn box covers it, otherwise the colour of the last drawn box covering it |
| ImageCompressors.PaintLastBatch | image_compressor.py:54-65 | a final batch of boxes covering the point decides its colour, whatever was drawn before |
| ImageCompressors.FrameShowsDepth | image_compressor.py:42-67 | in an image of depth d, each point shows the average colour of a quadrant found at depth at most d covering it |
| ImageCompressors.Accumulated | image_compressor.py:83 | `quadrants`, which starts empty (line 19), is the concatenation of the searches' results in request order; GetLeafQuadrants, CreateImage and CreateGif are proved against it |
| ImageCompressors.Countdown | image_compressor.py:101 | `range(n, -1, -1)` lists n, n - 1, ..., 0 |
| ImageCompressors.RenderDepths | image_compressor.py:98-104 | defines the depths `create_gif` renders: `current_depth`, then the countdown |
| ImageCompressors.RenderDepthsShape | image_compressor.py:98-104 | `current_depth + 2` depths are rendered: full depth, then full depth down to 0 one level at a time, ending at 0 |
| ImageCompressors.GifFrames | image_compressor.py:98-106 | the product frame and the countdown frames, with the last repeated, are the frames of the rendered depths |
| ImageCompressors.ImageCompressor.ValidTree | image_compressor.py:14-24 | the tree from the constructor is well built from the image's bounding box at depth 0, no node lies below `MAX_DEPTH`, and `current_depth` is in 0..8 |
| ImageCompressors.ImageCompressor.constructor | image_compressor.py:14-24 | size recorded, no quadrants, the root built from the bounding box, `current_depth` its deepest leaf |
| ImageCompressors.ImageCompressor.Build | image_compressor.py:26-40 | the node becomes `BuildTree(node)` and `current_depth` becomes `Deepest` of its old value over the built node |
| ImageCompressors.ImageCompressor.RecursiveSearch | image_compressor.py:76-87 | `quadrants` is extended by exactly `Search(q, d)`, and nothing else changes |
| ImageCompressors.ImageCompressor.GetLeafQuadrants | image_compressor.py:69-74 | fails iff d > `current_depth`, and then leaves `quadrants` unchanged; otherwise appends the search of the tree at d |
| ImageCompressors.ImageCompressor.CreateImage | image_compressor.py:42-67 | fails iff the depth is too large; otherwise draws every quadrant collected so far, including this depth's |
| ImageCompressors.ImageCompressor.RenderCountdown | image_compressor.py:101-103 | image k of the countdown draws everything searched up to depth `current_depth - k` |
| ImageCompressors.ImageCompressor.CreateGif | image_compressor.py:89-106 | `current_depth + 3` frames; frame k draws every search up to the k-th rendered depth; the last frame repeats the depth-0 frame |

## Left out

- Pillow is not modelled: `crop`, `histogram`, `getbbox`, `Image.new`, `ImageDraw.rectangle` and `save`. The image is a value with a size, a bounding box, and a histogram and average colour for each box.
- `getbbox()` returning `None` for an all-black image is not modelled: the bounding box is always a box.
- `get_average_color` (compressing_tree.py:67-72) is `numpy.average`, truncated to int. It is a field of the image value, not computed.
- Float rounding is not modelled: divisions are exact reals. The square root `** 0.5` is a parameter. The lemmas only assume it maps 0 to 0 and positive numbers to positive numbers.
- Threads are not modelled. Each `subdivide` runs its four constructions in sequence, in a completion order taken as a parameter. No claim is made that children come in a fixed order, or that the search order is deterministic.
- `CompressingTree` inherits from `QuadTree`. Its point list is unused and not modelled. It passes a corner-form box to `Rectangle`, which reads it as `(x, y, w, h)`, so its `boundary.xmax` and `ymax` mean nothing. Its boxes are therefore modelled in corner form, separately from `Rectangles.Rect`.
- Node identity, aliasing and in-place update of tree nodes are not modelled: nodes are values. Methods return the new node instead of mutating the old one, for both kinds of tree.
- Drawing is not rasterised: a frame is the list of boxes drawn, in order. `Paint` gives each point's colour. Outlines (`show_lines`) are only recorded.
- Writing the GIF file is not modelled: the file name, duration and loop count are left out.
- The command line of `main.py` is not modelled: argparse, file handling, messages and the 0–8 depth check. `args.depth or 7` there turns a requested depth of 0 into 7.
- ImageCompressors.ImageCompressor.Build: requires a node that is not yet a leaf. The source only ever calls `build` on freshly constructed nodes, which are not leaves.
- ImageCompressors.ImageCompressor.CreateGif: the last frame repeats the depth-0 image, as the code does (image_compressor.py:105). It is not a second full-depth frame.
- QuadTrees.Insert: refuses a point that is already stored anywhere in the tree. The code as written never returns in that case; see "Findings".

## Findings

| source | as written | input that shows it | evidently intended | confidence | as-written member | corrected member |
|---|---|---|---|---|---|---|
| tree/quad_tree.py:28-42 | a leaf that already holds (x, y) fails the append test, subdivides, and passes the call to the child now holding the point, again and again with no bound | insert (1, 1) twice into `QuadTree((0, 0, 8, 8))` | a second insert of a stored point returns False and leaves the tree unchanged | not executed | QuadTrees.ReinsertNeverReturns | QuadTrees.Insert |
