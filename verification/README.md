# genartlib geometry core in Dafny

This project models three geometric routines from the genartlib generative-art library and
proves properties about them:

- **Poisson-disc sampling** (`PoissonDisc`, Bridson's algorithm). The model covers the
  constructor, which sizes the acceleration grid, and `generate`, which grows a set of points.
  Each point is spawned in an annulus around an earlier point and kept only if no stored point
  is closer than the margin.
- **Ramer-Douglas-Peucker polyline simplification** (`LineSimplification.simplify`), together
  with its point-to-line distance.
- **Even-odd point-in-polygon test** (`PolyUtils.polygonContainsPoint`) over integer vertex
  coordinates.

Modules:

- `Plane` (plane.dfy): points, offsets and squared distances, shared by the other modules.
- `Wrappers` (wrappers.dfy): `Option`.
- `PolyUtils` (poly_utils.dfy): Java's truncating integer division, the edge-crossing test,
  the crossing count that serves as the reference definition, and the ray-casting loop.
- `LineSimplification` (line_simplification.dfy): the simplifier.
  - The recursion `Rdp` is parameterised by the range of indices the maximum-distance scan
    visits. `WholeList` is the source's behaviour. `InteriorOnly` is the corrected one.
  - Points are ranked by the magnitude of the cross product with the chord, with no square
    root. This is the distance times the chord length. The tolerance test squares both sides.
  - `ScaledDistanceFaithful` proves that both replacements agree with the source's distance.
- `PoissonGrid` (poisson_grid.dfy): sampler parameters, cell indices, the clipped
  neighbour-search box, and counts of occupied cells.
- `PoissonDisc` (poisson_disc.dfy): the grid invariant, the collision scan, one candidate
  attempt, the reference pass `PassOutput` (what one pass outputs, computed from the points
  and the draws alone), one pass of the attempt loop, and `generate`.

Modelling choices for the sampler:

- Coordinates are exact reals.
- The random stream is an oracle:
  - the two draws that place the seed are the parameters `u` and `v` in `[0, 1)`;
  - the k-th attempt moves its parent by `draw(k)`, an offset whose length lies in
    `[margin, 2 margin)`.
- The cell width is any positive `w` with `2 w² = margin²`, which is what `margin / sqrt(2)`
  means.
- Distances are compared squared.
- Grid cells hold indices into the output list. This turns the identity test `p2 == p` into a
  comparison of indices.
- `Generate` runs `generate` once on a freshly constructed sampler.
- Bridson's algorithm, which the class comment names (PoissonDisc.java:7), stores the seed in
  the grid; the code never does. The model follows the code (see Findings).

## Model

| member | source | states |
|---|---|---|
| PolyUtils.JavaDivTruncates | src/java/genartlib/PolyUtils.java:16-17 | Java `int` division truncates toward zero: the remainder is zero or has the dividend's sign and is smaller than the divisor in magnitude, which fixes the quotient; the quotient is no larger in magnitude than the dividend |
| PolyUtils.NoOverflow | src/java/genartlib/PolyUtils.java:15-17 | with every vertex coordinate within 2^14 in magnitude, both vertex differences fit in a 32-bit `int`; once the edge straddles the test line (the short-circuit of line 15), whatever the test point, the divisor is non-zero, `testY - yi`, the product and the shifted quotient fit in an `int`, and that crossing abscissa lies between `xi` and `xj` |
| PolyUtils.EdgeCrosses | src/java/genartlib/PolyUtils.java:15-17 | a crossing edge is not horizontal, has `testY` between its endpoints' y, counting the lower endpoint and not the upper one, and has an endpoint right of the test point; an edge that straddles the line with both endpoints right of the test point always crosses |
| PolyUtils.CrossingBetween | src/java/genartlib/PolyUtils.java:15-17 | for an edge that straddles the test line, the truncated crossing abscissa lies between the two endpoints' x |
| PolyUtils.HorizontalEdgeNeverCrosses | src/java/genartlib/PolyUtils.java:15 | an edge whose two endpoints have the same y never counts as a crossing |
| PolyUtils.PolygonContainsPoint | src/java/genartlib/PolyUtils.java:5-25 | the result is true exactly when an odd number of the edges (v[i-1], v[i]) cross the ray from the test point, where the edge for i = 0 is the closing edge (v[n-1], v[0]), examined first; false for a polygon without vertices; only the vertices are bounded, the test point is any `int` |
| LineSimplification.PointToLineDist | src/java/genartlib/LineSimplification.java:17-36 | the distance is non-negative, it is zero for a degenerate chord, and it is zero at both chord endpoints |
| LineSimplification.ScaledDistanceFaithful | src/java/genartlib/LineSimplification.java:60-67 | ranking points by scaled distance orders them exactly as the true distance does, and the squared tolerance test holds exactly when the true distance is below the tolerance |
| LineSimplification.ScanMax | src/java/genartlib/LineSimplification.java:56-65 | the scan returns an index of maximal distance and no earlier index attains that maximum, because only a strictly larger distance replaces the current one |
| LineSimplification.FirstMaxUnique | src/java/genartlib/LineSimplification.java:61-64 | the first maximiser of a range is unique, so the split point is determined by the input |
| LineSimplification.SplitIndex | src/java/genartlib/LineSimplification.java:53-72 | a split is interior whenever the tolerance is positive or only interior points are scanned |
| LineSimplification.SplitChoice | src/java/genartlib/LineSimplification.java:53-72 | no split exactly when every point lies within the tolerance of the chord; otherwise the split is the first farthest point of the scanned range, and it is not within the tolerance |
| LineSimplification.Rdp | src/java/genartlib/LineSimplification.java:44-78 | lists of at most two points come back unchanged; otherwise the result keeps the first and last points and is no longer than the input |
| LineSimplification.Simplify | src/java/genartlib/LineSimplification.java:43-80 | a list of three or more points collapses to its two endpoints exactly when every point lies within the tolerance of the chord |
| LineSimplification.CollapsesIffAllNear | src/java/genartlib/LineSimplification.java:67-71 | the recursion returns exactly `[first, last]` when all points are near the chord, and never returns two points otherwise |
| LineSimplification.RdpSelects | src/java/genartlib/LineSimplification.java:74-77 | the result is the input restricted to strictly increasing positions that include both ends, so it is an order-preserving subsequence in which the split point appears once; every dropped point lies within the tolerance of the chord joining the kept points around it |
| LineSimplification.NonPositiveTolStalls | src/java/genartlib/LineSimplification.java:58-75 | with a non-positive tolerance and all points on the chord, the scan splits at index 0, so the second recursive call receives the unchanged list |
| LineSimplification.CollinearTripleStalls | src/java/genartlib/LineSimplification.java:58-75 | three points on the x-axis with tolerance 0 split at index 0, so the second recursive call receives the unchanged list and the source's recursion ends in a `StackOverflowError` |
| LineSimplification.SimplifyInteriorScan | src/java/genartlib/LineSimplification.java:56-65 | the corrected simplifier scans interior points only; it is defined for every tolerance and keeps every point when the tolerance is not positive |
| LineSimplification.NonPositiveToleranceKeepsAll | src/java/genartlib/LineSimplification.java:67-77 | with an interior-only scan and a non-positive tolerance every level splits, so the recursion returns the input |
| LineSimplification.InteriorScanAgrees | src/java/genartlib/LineSimplification.java:56-65 | for every positive tolerance the corrected simplifier returns the same list as the source's |
| LineSimplification.RdpScansAgree | src/java/genartlib/LineSimplification.java:53-78 | for every positive tolerance the recursion gives the same result whether or not the scan includes the endpoints, since an endpoint never wins a scan it shares with a point outside the tolerance |
| LineSimplification.SimplifyIdempotent | src/java/genartlib/LineSimplification.java:43-80 | simplifying an already simplified list with the same tolerance returns it unchanged |
| LineSimplification.SimplifyMonotone | src/java/genartlib/LineSimplification.java:43-80 | a larger tolerance never keeps more points |
| PoissonGrid.Trunc | src/java/genartlib/PoissonDisc.java:64-71 | Java's `(int)` cast truncates toward zero: the result is the integer part of a non-negative value and the negated integer part of the magnitude of a negative one |
| PoissonGrid.Ceil | src/java/genartlib/PoissonDisc.java:34-35 | `Math.ceil` returns the least integer not below its argument |
| PoissonGrid.NewSampler | src/java/genartlib/PoissonDisc.java:23-38 | the rows and columns are the fewest whole cells of width margin/√2 that cover the rectangle, and there is at least one of each |
| PoissonGrid.SeedPoint | src/java/genartlib/PoissonDisc.java:43-44 | two draws in `[0, 1)` place the seed inside the half-open rectangle |
| PoissonGrid.CellInBounds | src/java/genartlib/PoissonDisc.java:64-65 | the row and column of a point inside the rectangle index an existing grid cell |
| PoissonGrid.SameCellClose | src/java/genartlib/PoissonDisc.java:30 | two points in the same cell are closer than the margin, since the cell diagonal equals the margin |
| PoissonGrid.SearchBox | src/java/genartlib/PoissonDisc.java:68-71 | the clipped box lies inside the grid |
| PoissonGrid.BoxCoversNeighbours | src/java/genartlib/PoissonDisc.java:68-88 | the clipped box contains the cell of every in-rectangle point closer than the margin to the candidate |
| PoissonGrid.GridFilledUpdate | src/java/genartlib/PoissonDisc.java:93 | writing a point into an empty cell raises the count of occupied cells by exactly one |
| PoissonGrid.GridFilledBound | src/java/genartlib/PoissonDisc.java:37 | a grid never has more occupied cells than rows times columns |
| PoissonDisc.TranslateSpawns | src/java/genartlib/PoissonDisc.java:55-58 | a candidate moved by an annulus offset lies at distance in `[margin, 2 margin)` from its parent |
| PoissonDisc.Place | src/java/genartlib/PoissonDisc.java:93 | storing a point writes its index into the candidate's own cell, keeps the grid's shape, and leaves every other cell unchanged |
| PoissonDisc.HasCollision | src/java/genartlib/PoissonDisc.java:73-87 | the scan reports a collision exactly when some cell of the box holds a point, other than the parent, closer than the margin to the candidate |
| PoissonDisc.FarFromStored | src/java/genartlib/PoissonDisc.java:68-88 | an in-rectangle candidate spawned from its parent and with no collision in the box is at least the margin away from every grid-resident point: the box reaches every closer point's cell, and the parent, which the scan skips, is in the annulus |
| PoissonDisc.AcceptPreservesInv | src/java/genartlib/PoissonDisc.java:89-95 | an accepted candidate's cell is in range and empty, and appending the candidate and storing it keeps every stored point in its own cell and the stored points pairwise separated |
| PoissonDisc.TryCandidate | src/java/genartlib/PoissonDisc.java:60-95 | the candidate is appended, pushed and stored exactly when it lies in the rectangle and the scan finds no collision; otherwise nothing changes; either way an in-rectangle candidate ends up closer than the margin to some grid-resident point other than the parent, or is that point itself; stated on the points alone, the candidate is appended exactly when it lies in the rectangle and no grid-resident point other than the parent is closer than the margin to it |
| PoissonDisc.CollisionIffCovered | src/java/genartlib/PoissonDisc.java:66-89 | with the grid invariant, the scan of the clipped box finds a collision for an in-rectangle candidate spawned from its parent exactly when some grid-resident point other than the parent is closer than the margin to it |
| PoissonDisc.PassOutput | src/java/genartlib/PoissonDisc.java:53-96 | the reference pass on the points alone only appends to its input, at most one point per draw |
| PoissonDisc.PassOutputRecorded | src/java/genartlib/PoissonDisc.java:53-96 | in the reference pass every draw is settled, and every point it adds is the candidate of one of its draws |
| PoissonDisc.Attempt | src/java/genartlib/PoissonDisc.java:55-95 | one attempt keeps the state an extension of the state at the pop, only appends, leaves the grid unchanged when it appends nothing, and advances the reference pass by exactly the next draw |
| PoissonDisc.ExpandPoint | src/java/genartlib/PoissonDisc.java:52-96 | the attempt loop keeps the grid invariant, only appends, pushes every accepted child in order, reports whether any child was accepted, leaves the grid unchanged when none was, spawns every child from the popped point, and consumes exactly `max(0, maxAttempts)` draws; every draw of the pass is settled (its candidate is outside the rectangle or covered by a grid-resident point other than the parent), and every new point is the candidate of one of those draws; the output is exactly the reference pass, which tries the draws in order and appends each candidate exactly when it lies in the rectangle and no grid-resident point other than the parent, including a child accepted earlier in the same pass, is closer than the margin to it |
| PoissonDisc.InitialGrid | src/java/genartlib/PoissonDisc.java:37-48 | the grid before the first pop satisfies the grid invariant, with or without the seed stored |
| PoissonDisc.Generate | src/java/genartlib/PoissonDisc.java:40-104 | the loop terminates; the first point is the seed; every point lies in the rectangle; grid-resident points are pairwise at least the margin apart; the output has at most rows × columns points plus the seed; every later point is a candidate drawn while an earlier point, its recorded parent, was popped, and lies in the annulus around it, so a child of the seed is at least the margin from the seed; every point gets one full pass of `maxAttempts` draws, and each draw of each pass is settled, so no popped point could have accepted another candidate; the recorded active lists start as `[seed]` and end empty, and every pass pops the last entry, takes all `maxAttempts` draws from it, pushes its accepted children in order, and pushes it back after them exactly when a child was accepted (last-in first-out); the children of pass t are exactly what the reference pass makes of that pass's block of draws `t·m … t·m + m − 1` from the output before it |
| PoissonDisc.Pass | src/java/genartlib/PoissonDisc.java:49-100 | one pass of the outer loop only appends to the output, pops the last active entry, pushes the accepted children's indices in order and then the popped entry exactly when one was accepted, consumes `max(0, maxAttempts)` draws, outputs exactly the reference pass of those draws from the popped point, keeps the grid invariant, and either fills a fresh grid cell or shrinks the active list |
| PoissonDisc.SeedNotGuarded | src/java/genartlib/PoissonDisc.java:45-48 | with the seed off the grid, a reachable state accepts a candidate 0.5 away from the seed when the margin is 1 |
| PoissonDisc.SeedInGridGuards | src/java/genartlib/PoissonDisc.java:45-48 | in the same state with the seed stored, the scan finds the seed and rejects that candidate |

## Left out

- Floating point. All coordinates are exact reals, so IEEE-754 rounding is not modelled. For
  example, a row index can round up to `numRows` in the source, and an endpoint's distance can
  be a tiny non-zero value.
- `Math.sqrt`, `Math.pow`, `Math.cos` and `Math.sin` are replaced:
  - distances are compared squared;
  - the cell width is characterised by `2 w² = margin²`;
  - the polar step of a candidate is an offset drawn from the annulus.
- `java.util.Random` is an oracle:
  - the seed draws are the parameters `u` and `v`;
  - each attempt's two draws are folded into one offset `draw(k)`.
- Reuse of a sampler. The source's grid is allocated once in the constructor and never cleared,
  so a second `generate` call on the same object starts with the previous call's points in the
  grid. `PoissonDisc.Generate` models one call on a fresh sampler.
- Java object identity and the `Point` classes. They are value datatypes; the identity test
  `p2 == p` is a comparison of output indices.
- Parameter validation. The source checks nothing, so `margin > 0` and a rectangle with positive
  width and height are preconditions of `PoissonGrid.NewSampler` and `PoissonDisc.Generate`.
- The unused process stack of `simplify` and the file's compile errors. The stack never holds
  more than one list because the loop returns in its first iteration; the model is the evident
  recursion.
- The two halves are read as copies. The source passes `points.subList(...)` views (lines 74-75
  of LineSimplification.java), and a list of at most two points comes back as the same view
  (line 45). Once the type error is fixed by widening the signature to `List`, the following
  happens:
  - `simplifiedSecondHalf.remove(0)` (line 76) deletes a point from the caller's list;
  - the `addAll` into the stale first-half view (line 77) throws
    `ConcurrentModificationException`, for example on any three-point list that splits.

  Only a fix that copies each half (`new ArrayList<>(…)`) behaves as the recursion, which is
  what the model does.
- PolyUtils.PolygonContainsPoint: requires every vertex coordinate to be within 2^14 in
  magnitude instead of modelling 32-bit wrap-around. `PolyUtils.NoOverflow` shows that under
  this bound no intermediate value leaves the `int` range.
- PolyUtils.PolygonContainsPoint: requires `yPoints` to be at least as long as `xPoints`. With a
  shorter `yPoints` and at least one vertex, the source throws an
  `ArrayIndexOutOfBoundsException` in the first iteration, reading `yPoints[0]` (line 13) or
  `yPoints[numVerts - 1]` (line 14). The exception path is not modelled.
- The unused `double` variables of `polygonContainsPoint` (lines 12-14 of PolyUtils.java). They
  do not affect the result.
- LineSimplification.Simplify: requires a positive tolerance, because with a non-positive
  tolerance the source's recursion can end in a `StackOverflowError` (see Findings). The corrected
  `LineSimplification.SimplifyInteriorScan` needs no such requirement.
- LineSimplification.PointToLineDist: takes the square root of the squared chord length as a
  parameter `root`, characterised by `root ≥ 0` and `root² = DenomSq`, instead of computing it.
- Statistical properties of the output are not modelled, such as coverage or density of the
  sample.

## Findings

| source | as written | input that shows it | evidently intended | confidence | as-written member | corrected member |
|---|---|---|---|---|---|---|
| src/java/genartlib/PoissonDisc.java:45-48 | the seed point is appended to the output and the active list but never stored in the grid, so the collision scan cannot see it | margin 1, rectangle `[0,10) × [0,10)`, seed draws 0.5 and 0.5, one attempt per pop, offsets (1,0), (1.5,0), (-1.5,0): the seed (5,5) spawns (6,5), and (6,5) later spawns (4.5,5), which is accepted 0.5 from the seed | store the seed in its grid cell like every accepted point (Bridson's algorithm), so all output points are pairwise at least the margin apart | high, not executed | PoissonDisc.SeedNotGuarded | PoissonDisc.Generate |
| src/java/genartlib/LineSimplification.java:58-75 | the maximum-distance scan includes both endpoints, whose distance is 0; with a tolerance ≤ 0 and all points on the chord it selects index 0 and recurses on the unchanged list | points (0,0), (1,0), (2,0) with tolerance 0 | scan the interior points only, so the split is always interior and the recursion ends; a zero tolerance then keeps every point | medium, not executed | LineSimplification.CollinearTripleStalls | LineSimplification.SimplifyInteriorScan |

Notes on the corrected members:

- `PoissonDisc.Generate` takes a `SeedPolicy`.
  - With `SeedOffGrid` it is the source's behaviour, and separation is proved from the second
    point on.
  - With `SeedInGrid` the seed is stored, and separation is proved for every pair.
  - `PoissonDisc.SeedInGridGuards` shows that this rejects the candidate of the first finding.
- `LineSimplification.InteriorScanAgrees` proves that the corrected simplifier agrees with the
  source for every positive tolerance.
  - With a tolerance ≤ 0 the source terminates on some inputs and overflows the stack on others.
    For example, (0,0), (1,1), (2,0) at tolerance 0 splits at the interior point and terminates.
  - The model of the source is defined for positive tolerances only. Agreement at other
    tolerances is not stated.
