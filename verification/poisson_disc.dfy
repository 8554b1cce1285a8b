/** Bridson's Poisson-disc sampling (`PoissonDisc.generate`, lines 40-104).

    The random stream is an oracle: the two seed draws are the parameters `u` and `v`, and the
    k-th candidate attempt moves its parent by `draw(k)`, an offset whose length lies in
    [margin, 2 margin), as `margin + nextDouble() * margin` at angle `nextDouble() * 2 pi` does.
    Grid cells hold indices into the output list, so the identity test `p2 == p` of line 77 is
    a comparison of indices. The source never enters the seed point (index 0) into the grid, so
    separation is only guaranteed among the points that follow it; `SeedPolicy` selects between
    that behaviour and the corrected one that stores the seed like every other point. */
module PoissonDisc {

  import opened Plane
  import opened Wrappers
  import opened PoissonGrid

  /** Where a candidate spawned from `p` falls: at distance in [margin, 2 margin). */
  predicate Spawned(margin: real, p: Point, q: Point)
  {
    Sq(margin) <= DistSq(p, q) < Sq(2.0 * margin)
  }

  /** Moving by an offset of annulus length lands in the annulus around the start (lines 55-58). */
  lemma TranslateSpawns(margin: real, p: Point, o: Offset)
    requires InAnnulus(margin, o)
    ensures Spawned(margin, p, Translate(p, o))
  {
    var q := Translate(p, o);
    assert p.x - q.x == -o.dx && p.y - q.y == -o.dy;
    NegSq(o.dx);
    NegSq(o.dy);
  }

  lemma NegSq(a: real)
    ensures Sq(-a) == Sq(a)
  {
  }

  /** Every point from index `first` on is at least the margin from every later one. */
  ghost predicate Separated(margin: real, pts: seq<Point>, first: nat)
  {
    forall i, j :: first <= i < j < |pts| ==> DistSq(pts[i], pts[j]) >= Sq(margin)
  }

  ghost predicate AllInRect(s: Sampler, pts: seq<Point>)
  {
    forall i :: 0 <= i < |pts| ==> InRect(s, pts[i])
  }

  predicate HoldsAt(grid: Grid, r: int, c: int, i: nat)
  {
    0 <= r < |grid| && 0 <= c < |grid[r]| && grid[r][c] == Some(i)
  }

  /** Every occupied cell names a point, from index `first` on, that lies in that cell. */
  ghost predicate CellsIndexed(s: Sampler, grid: Grid, pts: seq<Point>, first: nat)
    requires s.cellWidth > 0.0
  {
    forall r, c :: 0 <= r < |grid| && 0 <= c < |grid[r]| && grid[r][c].Some? ==>
      var t := grid[r][c].value;
      first <= t < |pts| && RowOf(s, pts[t]) == r && ColOf(s, pts[t]) == c
  }

  /** Every point from index `first` on is stored in its own cell: no grid entry is ever lost. */
  ghost predicate PointsStored(s: Sampler, grid: Grid, pts: seq<Point>, first: nat)
    requires s.cellWidth > 0.0
  {
    forall i :: first <= i < |pts| ==> HoldsAt(grid, RowOf(s, pts[i]), ColOf(s, pts[i]), i)
  }

  /** The state `generate` keeps between candidates. The points from index `first` on are the
      grid-resident ones: `first` is 1 when the seed stays out of the grid, as in the source, and
      0 when it is stored like every other point. */
  ghost predicate GridInv(s: Sampler, grid: Grid, pts: seq<Point>, first: nat)
  {
    && Valid(s)
    && first <= 1
    && |pts| >= 1
    && Shaped(grid, s.numRows, s.numCols)
    && AllInRect(s, pts)
    && CellsIndexed(s, grid, pts, first)
    && PointsStored(s, grid, pts, first)
    && Separated(s.margin, pts, first)
    && GridFilled(grid) == |pts| - first
  }

  /** Cell (r, q) holds a point other than the parent closer than the margin to `c`
      (lines 76-83). */
  predicate Collides(s: Sampler, grid: Grid, pts: seq<Point>, pIdx: nat, c: Point, r: int, q: int)
  {
    && 0 <= r < |grid| && 0 <= q < |grid[r]|
    && grid[r][q].Some?
    && grid[r][q].value != pIdx
    && grid[r][q].value < |pts|
    && DistSq(pts[grid[r][q].value], c) < Sq(s.margin)
  }

  /** The scan of the clipped neighbour box (lines 68-88), stopping at the first collision. */
  method HasCollision(s: Sampler, grid: Grid, pts: seq<Point>, pIdx: nat, c: Point, first: nat)
    returns (hit: bool)
    requires GridInv(s, grid, pts, first)
    ensures hit <==> exists r, q :: SearchBox(s, c).Contains(r, q) && Collides(s, grid, pts, pIdx, c, r, q)
  {
    var box := SearchBox(s, c);
    hit := false;
    ghost var wr, wq := 0, 0;
    var i := box.minRow;
    while i <= box.maxRow && !hit
      invariant box.minRow <= i
      invariant !hit ==> forall r, q :: box.Contains(r, q) && r < i ==> !Collides(s, grid, pts, pIdx, c, r, q)
      invariant hit ==> box.Contains(wr, wq) && Collides(s, grid, pts, pIdx, c, wr, wq)
      decreases box.maxRow + 1 - i
    {
      var j := box.minCol;
      while j <= box.maxCol && !hit
        invariant box.minCol <= j
        invariant !hit ==> forall r, q :: box.Contains(r, q) && (r < i || (r == i && q < j)) ==>
                              !Collides(s, grid, pts, pIdx, c, r, q)
        invariant hit ==> box.Contains(wr, wq) && Collides(s, grid, pts, pIdx, c, wr, wq)
        decreases box.maxCol + 1 - j
      {
        if grid[i][j].Some? {
          var t := grid[i][j].value;
          if t != pIdx && DistSq(pts[t], c) < Sq(s.margin) {
            hit := true;
            wr, wq := i, j;
          }
        }
        j := j + 1;
      }
      i := i + 1;
    }
  }

  /** `grid[row][col] = newPoint` (line 93), with the new point's output index. */
  function Place(s: Sampler, grid: Grid, c: Point, v: nat): (g: Grid)
    requires Valid(s) && Shaped(grid, s.numRows, s.numCols) && InRect(s, c)
    ensures Shaped(g, s.numRows, s.numCols)
    ensures HoldsAt(g, RowOf(s, c), ColOf(s, c), v)
    ensures forall r, q :: 0 <= r < |g| && 0 <= q < |g[r]| && (r != RowOf(s, c) || q != ColOf(s, c)) ==>
              g[r][q] == grid[r][q]
  {
    CellInBounds(s, c);
    var r, q := RowOf(s, c), ColOf(s, c);
    grid[r := grid[r][q := Some(v)]]
  }

  /** A candidate that passed the scan is at least the margin from every grid-resident point:
      the box reaches all their cells, and the parent, which the scan skips, is at least the
      margin away by construction. */
  lemma FarFromStored(s: Sampler, grid: Grid, pts: seq<Point>, pIdx: nat, c: Point, first: nat)
    requires GridInv(s, grid, pts, first) && pIdx < |pts| && InRect(s, c)
    requires Spawned(s.margin, pts[pIdx], c)
    requires forall r, q :: SearchBox(s, c).Contains(r, q) ==> !Collides(s, grid, pts, pIdx, c, r, q)
    ensures forall i :: first <= i < |pts| ==> DistSq(pts[i], c) >= Sq(s.margin)
  {
    forall i | first <= i < |pts|
      ensures DistSq(pts[i], c) >= Sq(s.margin)
    {
      if DistSq(pts[i], c) < Sq(s.margin) {
        BoxCoversNeighbours(s, c, pts[i]);
      }
    }
  }

  /** Accepting a candidate (lines 89-94) writes into an empty cell and keeps the invariant. */
  lemma AcceptPreservesInv(s: Sampler, grid: Grid, pts: seq<Point>, pIdx: nat, c: Point, first: nat)
    requires GridInv(s, grid, pts, first) && pIdx < |pts| && InRect(s, c)
    requires Spawned(s.margin, pts[pIdx], c)
    requires forall r, q :: SearchBox(s, c).Contains(r, q) ==> !Collides(s, grid, pts, pIdx, c, r, q)
    ensures 0 <= RowOf(s, c) < |grid| && 0 <= ColOf(s, c) < |grid[RowOf(s, c)]|
    ensures grid[RowOf(s, c)][ColOf(s, c)].None?
    ensures GridInv(s, Place(s, grid, c, |pts|), pts + [c], first)
  {
    FarFromStored(s, grid, pts, pIdx, c, first);
    TargetCellEmpty(s, grid, pts, c, first);
    var row, col := RowOf(s, c), ColOf(s, c);
    GridFilledUpdate(grid, row, col, |pts|);
    var pts' := pts + [c];
    assert AllInRect(s, pts');
    PlaceKeepsIndexed(s, grid, pts, c, first);
    PlaceKeepsStored(s, grid, pts, c, first);
    AppendKeepsSeparated(s.margin, pts, c, first);
  }

  /** The candidate's cell is free when it is at least the margin from every stored point:
      an occupant would share the cell and so be closer than the cell's diagonal. */
  lemma TargetCellEmpty(s: Sampler, grid: Grid, pts: seq<Point>, c: Point, first: nat)
    requires GridInv(s, grid, pts, first) && InRect(s, c)
    requires forall i :: first <= i < |pts| ==> DistSq(pts[i], c) >= Sq(s.margin)
    ensures 0 <= RowOf(s, c) < |grid| && 0 <= ColOf(s, c) < |grid[RowOf(s, c)]|
    ensures grid[RowOf(s, c)][ColOf(s, c)].None?
  {
    CellInBounds(s, c);
    var row, col := RowOf(s, c), ColOf(s, c);
    if grid[row][col].Some? {
      SameCellClose(s, pts[grid[row][col].value], c);
    }
  }

  lemma PlaceKeepsIndexed(s: Sampler, grid: Grid, pts: seq<Point>, c: Point, first: nat)
    requires GridInv(s, grid, pts, first) && InRect(s, c)
    ensures CellsIndexed(s, Place(s, grid, c, |pts|), pts + [c], first)
  {
    var g': Grid, pts' := Place(s, grid, c, |pts|), pts + [c];
    forall r, q | 0 <= r < |g'| && 0 <= q < |g'[r]| && g'[r][q].Some?
      ensures var t := g'[r][q].value; first <= t < |pts'| && RowOf(s, pts'[t]) == r && ColOf(s, pts'[t]) == q
    {
      if r != RowOf(s, c) || q != ColOf(s, c) {
        assert g'[r][q] == grid[r][q];
        assert pts'[grid[r][q].value] == pts[grid[r][q].value];
      }
    }
  }

  lemma PlaceKeepsStored(s: Sampler, grid: Grid, pts: seq<Point>, c: Point, first: nat)
    requires GridInv(s, grid, pts, first) && InRect(s, c)
    requires 0 <= RowOf(s, c) < |grid| && 0 <= ColOf(s, c) < |grid[RowOf(s, c)]|
    requires grid[RowOf(s, c)][ColOf(s, c)].None?
    ensures PointsStored(s, Place(s, grid, c, |pts|), pts + [c], first)
  {
    var g': Grid, pts' := Place(s, grid, c, |pts|), pts + [c];
    forall i | first <= i < |pts'|
      ensures HoldsAt(g', RowOf(s, pts'[i]), ColOf(s, pts'[i]), i)
    {
      if i < |pts| {
        assert pts'[i] == pts[i];
        assert HoldsAt(grid, RowOf(s, pts[i]), ColOf(s, pts[i]), i);
      }
    }
  }

  lemma AppendKeepsSeparated(m: real, pts: seq<Point>, c: Point, first: nat)
    requires Separated(m, pts, first)
    requires forall i :: first <= i < |pts| ==> DistSq(pts[i], c) >= Sq(m)
    ensures Separated(m, pts + [c], first)
  {
    var pts' := pts + [c];
    forall i, j | first <= i < j < |pts'|
      ensures DistSq(pts'[i], pts'[j]) >= Sq(m)
    {
      assert pts'[i] == pts[i];
      if j < |pts| {
        assert pts'[j] == pts[j];
      }
    }
  }

  /** The consecutive indices `lo, lo + 1, ..., hi - 1`. */
  function Indices(lo: nat, hi: nat): (r: seq<nat>)
    requires lo <= hi
    ensures |r| == hi - lo
    ensures forall a :: 0 <= a < |r| ==> r[a] == lo + a
  {
    seq(hi - lo, a => lo + a)
  }

  /** The state after some attempts for the parent `pts[pIdx]` grows the state before them:
      the invariant holds, the output only gains points (each spawned from the parent), the
      active list gains exactly their indices, and the grid is untouched while nothing is added. */
  ghost predicate Extends(s: Sampler, pIdx: nat, first: nat, grid: Grid, pts: seq<Point>, active: seq<nat>,
                          grid': Grid, pts': seq<Point>, active': seq<nat>)
  {
    && GridInv(s, grid', pts', first)
    && pIdx < |pts| <= |pts'|
    && pts'[..|pts|] == pts
    && active' == active + Indices(|pts|, |pts'|)
    && (|pts'| == |pts| ==> grid' == grid)
    && forall i :: |pts| <= i < |pts'| ==> Spawned(s.margin, pts[pIdx], pts'[i])
  }

  lemma ExtendsRefl(s: Sampler, pIdx: nat, grid: Grid, pts: seq<Point>, active: seq<nat>, first: nat)
    requires GridInv(s, grid, pts, first) && pIdx < |pts|
    ensures Extends(s, pIdx, first, grid, pts, active, grid, pts, active)
  {
    assert active + Indices(|pts|, |pts|) == active;
  }

  lemma {:induction false} ExtendsTrans(s: Sampler, pIdx: nat, first: nat,
                                        g0: Grid, p0: seq<Point>, a0: seq<nat>,
                                        g1: Grid, p1: seq<Point>, a1: seq<nat>,
                                        g2: Grid, p2: seq<Point>, a2: seq<nat>)
    requires Extends(s, pIdx, first, g0, p0, a0, g1, p1, a1)
    requires Extends(s, pIdx, first, g1, p1, a1, g2, p2, a2)
    ensures Extends(s, pIdx, first, g0, p0, a0, g2, p2, a2)
  {
    assert p2[..|p0|] == p1[..|p1|][..|p0|];
    assert Indices(|p0|, |p1|) + Indices(|p1|, |p2|) == Indices(|p0|, |p2|);
    assert p1[pIdx] == p0[pIdx];
    forall i | |p0| <= i < |p2|
      ensures Spawned(s.margin, p0[pIdx], p2[i])
    {
      if i < |p1| {
        assert p2[i] == p1[i];
      }
    }
  }

  /** The state after accepting `c` extends the state before it by exactly that point. */
  lemma AcceptExtends(s: Sampler, grid: Grid, pts: seq<Point>, active: seq<nat>, pIdx: nat, c: Point, first: nat)
    requires GridInv(s, grid, pts, first) && pIdx < |pts| && InRect(s, c)
    requires Spawned(s.margin, pts[pIdx], c)
    requires forall r, q :: SearchBox(s, c).Contains(r, q) ==> !Collides(s, grid, pts, pIdx, c, r, q)
    ensures Extends(s, pIdx, first, grid, pts, active, Place(s, grid, c, |pts|), pts + [c], active + [|pts| as nat])
  {
    AcceptPreservesInv(s, grid, pts, pIdx, c, first);
    var pts' := pts + [c];
    assert pts'[..|pts|] == pts;
    assert Indices(|pts|, |pts'|) == [|pts| as nat];
  }

  /** Some grid-resident output point other than the parent lies closer than the margin to `c`:
      either `c` was accepted and is that point, or the scan rejected `c` because of it. */
  ghost predicate Covered(margin: real, pts: seq<Point>, pIdx: nat, first: nat, c: Point)
  {
    exists i :: first <= i < |pts| && i != pIdx && DistSq(pts[i], c) < Sq(margin)
  }

  /** The attempt that moves `pts[pIdx]` by `o` was dealt with: its candidate lies outside the
      rectangle (line 60), or it is covered. */
  ghost predicate AttemptSettled(s: Sampler, pts: seq<Point>, pIdx: nat, first: nat, o: Offset)
    requires pIdx < |pts|
  {
    var c := Translate(pts[pIdx], o);
    InRect(s, c) ==> Covered(s.margin, pts, pIdx, first, c)
  }

  /** `q` is the candidate of one of the draws `lo .. hi - 1` taken from `p`. */
  ghost predicate DrawnFrom(p: Point, draw: nat -> Offset, lo: nat, hi: nat, q: Point)
  {
    exists k :: lo <= k < hi && q == Translate(p, draw(k))
  }

  /** Covering survives appending points. */
  lemma CoveredGrows(margin: real, pts: seq<Point>, pts': seq<Point>, pIdx: nat, first: nat, c: Point)
    requires |pts| <= |pts'| && pts'[..|pts|] == pts
    requires Covered(margin, pts, pIdx, first, c)
    ensures Covered(margin, pts', pIdx, first, c)
  {
    var i :| first <= i < |pts| && i != pIdx && DistSq(pts[i], c) < Sq(margin);
    assert pts'[i] == pts[i];
  }

  /** An accepted candidate covers itself: it is at distance 0 from itself. */
  lemma AcceptedCovered(margin: real, pts: seq<Point>, pIdx: nat, first: nat, c: Point)
    requires margin > 0.0 && first <= |pts| && pIdx < |pts|
    ensures Covered(margin, pts + [c], pIdx, first, c)
  {
    var pts' := pts + [c];
    assert pts'[|pts|] == c;
    assert DistSq(c, c) == 0.0;
    MulStrict(0.0, margin);
  }

  /** A candidate the scan rejected is covered by the stored point it hit. */
  lemma CollisionCovered(s: Sampler, grid: Grid, pts: seq<Point>, pIdx: nat, c: Point, first: nat)
    requires GridInv(s, grid, pts, first)
    requires exists r, q :: SearchBox(s, c).Contains(r, q) && Collides(s, grid, pts, pIdx, c, r, q)
    ensures Covered(s.margin, pts, pIdx, first, c)
  {
    var r, q :| SearchBox(s, c).Contains(r, q) && Collides(s, grid, pts, pIdx, c, r, q);
    var t := grid[r][q].value;
    assert first <= t < |pts| && t != pIdx && DistSq(pts[t], c) < Sq(s.margin);
  }

  /** With the grid invariant, the scan of the box finds a collision exactly when the candidate
      is covered: the grid holds every point from `first` on, and the box reaches each of them
      that is closer than the margin. */
  lemma CollisionIffCovered(s: Sampler, grid: Grid, pts: seq<Point>, pIdx: nat, c: Point, first: nat)
    requires GridInv(s, grid, pts, first) && pIdx < |pts| && InRect(s, c)
    requires Spawned(s.margin, pts[pIdx], c)
    ensures (exists r, q :: SearchBox(s, c).Contains(r, q) && Collides(s, grid, pts, pIdx, c, r, q))
        <==> Covered(s.margin, pts, pIdx, first, c)
  {
    if exists r, q :: SearchBox(s, c).Contains(r, q) && Collides(s, grid, pts, pIdx, c, r, q) {
      CollisionCovered(s, grid, pts, pIdx, c, first);
    } else {
      FarFromStored(s, grid, pts, pIdx, c, first);
    }
  }

  /** One in-bounds test, collision scan and acceptance for the candidate `c` (lines 60-95):
      the candidate is appended, pushed and stored exactly when it lies in the rectangle and no
      grid point other than the parent is closer than the margin; otherwise nothing changes.
      Either way an in-rectangle candidate ends up covered. */
  method TryCandidate(s: Sampler, grid: Grid, pts: seq<Point>, active: seq<nat>, pIdx: nat, c: Point, first: nat)
    returns (grid': Grid, pts': seq<Point>, active': seq<nat>)
    requires GridInv(s, grid, pts, first) && pIdx < |pts|
    requires Spawned(s.margin, pts[pIdx], c)
    ensures Extends(s, pIdx, first, grid, pts, active, grid', pts', active')
    ensures var accepted := InRect(s, c) &&
                            !exists r, q :: SearchBox(s, c).Contains(r, q) && Collides(s, grid, pts, pIdx, c, r, q);
            if accepted then pts' == pts + [c] else pts' == pts && active' == active
    ensures InRect(s, c) ==> Covered(s.margin, pts', pIdx, first, c)
    ensures pts' == if InRect(s, c) && !CoveredBelow(s.margin, pts, pIdx, first, c, |pts|) then pts + [c] else pts
  {
    ExtendsRefl(s, pIdx, grid, pts, active, first);
    grid', pts', active' := grid, pts, active;
    if InRect(s, c) {
      CollisionIffCovered(s, grid, pts, pIdx, c, first);
      CoveredBelowAll(s.margin, pts, pIdx, first, c, |pts|);
      var hit := HasCollision(s, grid, pts, pIdx, c, first);
      if !hit {
        AcceptExtends(s, grid, pts, active, pIdx, c, first);
        AcceptedCovered(s.margin, pts, pIdx, first, c);
        grid' := Place(s, grid, c, |pts|);
        active' := active + [|pts| as nat];
        pts' := pts + [c];
      } else {
        CollisionCovered(s, grid, pts, pIdx, c, first);
      }
    }
  }

  /** Some point among `pts[first .. n - 1]` other than the parent is closer than the margin to
      `c`: the covering test scanned point by point. */
  ghost predicate CoveredBelow(margin: real, pts: seq<Point>, pIdx: nat, first: nat, c: Point, n: nat)
    requires n <= |pts|
  {
    n > 0 &&
    (CoveredBelow(margin, pts, pIdx, first, c, n - 1) ||
     (first <= n - 1 && n - 1 != pIdx && DistSq(pts[n - 1], c) < Sq(margin)))
  }

  /** The scan over all of `pts` is the covering test. */
  lemma {:induction false} CoveredBelowAll(margin: real, pts: seq<Point>, pIdx: nat, first: nat, c: Point, n: nat)
    requires n <= |pts|
    ensures CoveredBelow(margin, pts, pIdx, first, c, n)
        <==> exists i :: first <= i < n && i != pIdx && DistSq(pts[i], c) < Sq(margin)
  {
    if n > 0 {
      CoveredBelowAll(margin, pts, pIdx, first, c, n - 1);
    }
  }

  /** The reference for one pass, on the points alone: the output after the draws
      `k0 .. k0 + a - 1` are tried in order from `pts[pIdx]`. A candidate is appended exactly
      when it lies in the rectangle and is not covered by the points output so far. */
  ghost function PassOutput(s: Sampler, pts: seq<Point>, pIdx: nat, first: nat, draw: nat -> Offset,
                            k0: nat, a: nat): (r: seq<Point>)
    requires pIdx < |pts|
    ensures |pts| <= |r| <= |pts| + a && r[..|pts|] == pts
    decreases a
  {
    if a == 0 then pts
    else
      var q := PassOutput(s, pts, pIdx, first, draw, k0, a - 1);
      var c := Translate(pts[pIdx], draw(k0 + a - 1));
      if InRect(s, c) && !CoveredBelow(s.margin, q, pIdx, first, c, |q|) then q + [c] else q
  }

  /** One more draw extends the reference pass by its candidate when that candidate is in the
      rectangle and not covered by the output so far, and leaves it alone otherwise. */
  lemma PassOutputStep(s: Sampler, pts: seq<Point>, pIdx: nat, first: nat, draw: nat -> Offset,
                       k0: nat, a: nat, cur: seq<Point>, next: seq<Point>)
    requires pIdx < |pts| && cur == PassOutput(s, pts, pIdx, first, draw, k0, a)
    requires var c := Translate(pts[pIdx], draw(k0 + a));
             next == if InRect(s, c) && !CoveredBelow(s.margin, cur, pIdx, first, c, |cur|) then cur + [c] else cur
    ensures next == PassOutput(s, pts, pIdx, first, draw, k0, a + 1)
  {
  }

  /** In the reference pass every draw is settled and every new point is the candidate of one of
      its draws. */
  lemma {:induction false} PassOutputRecorded(s: Sampler, pts: seq<Point>, pIdx: nat, first: nat,
                                              draw: nat -> Offset, k0: nat, a: nat)
    requires pIdx < |pts| && first <= |pts| && s.margin > 0.0
    ensures AttemptsRecorded(s, pIdx, first, draw, k0, k0 + a, pts, PassOutput(s, pts, pIdx, first, draw, k0, a))
  {
    if a > 0 {
      var b := a - 1;
      PassOutputRecorded(s, pts, pIdx, first, draw, k0, b);
      PassOutputSettles(s, pts, pIdx, first, draw, k0, b);
      RecordStep(s, pIdx, first, draw, k0, k0 + b, pts, PassOutput(s, pts, pIdx, first, draw, k0, b),
                 PassOutput(s, pts, pIdx, first, draw, k0, b + 1));
    }
  }

  /** One step of the reference pass appends at most its own candidate, and settles it. */
  lemma PassOutputSettles(s: Sampler, pts: seq<Point>, pIdx: nat, first: nat, draw: nat -> Offset, k0: nat, a: nat)
    requires pIdx < |pts| && first <= |pts| && s.margin > 0.0
    ensures var q := PassOutput(s, pts, pIdx, first, draw, k0, a);
            var out := PassOutput(s, pts, pIdx, first, draw, k0, a + 1);
            var c := Translate(q[pIdx], draw(k0 + a));
            && (out == q || out == q + [c])
            && (InRect(s, c) ==> Covered(s.margin, out, pIdx, first, c))
  {
    var q := PassOutput(s, pts, pIdx, first, draw, k0, a);
    assert q[pIdx] == pts[pIdx];
    var c := Translate(pts[pIdx], draw(k0 + a));
    if InRect(s, c) {
      if CoveredBelow(s.margin, q, pIdx, first, c, |q|) {
        CoveredBelowAll(s.margin, q, pIdx, first, c, |q|);
      } else {
        AcceptedCovered(s.margin, q, pIdx, first, c);
      }
    }
  }

  /** After the draws `k0 .. k - 1` for the parent `pts[pIdx]`: each of their attempts is settled
      in `pts'`, and every point added since `pts` is the candidate of one of them. */
  ghost predicate AttemptsRecorded(s: Sampler, pIdx: nat, first: nat, draw: nat -> Offset, k0: nat, k: nat,
                                   pts: seq<Point>, pts': seq<Point>)
    requires pIdx < |pts| <= |pts'|
  {
    && (forall j :: k0 <= j < k ==> AttemptSettled(s, pts', pIdx, first, draw(j)))
    && (forall i :: |pts| <= i < |pts'| ==> DrawnFrom(pts[pIdx], draw, k0, k, pts'[i]))
  }

  /** One more attempt keeps the record: the new candidate is settled and is the only point
      that can have been added. */
  lemma RecordStep(s: Sampler, pIdx: nat, first: nat, draw: nat -> Offset, k0: nat, k: nat,
                   pts: seq<Point>, pts1: seq<Point>, pts2: seq<Point>)
    requires pIdx < |pts| <= |pts1| && pts1[..|pts|] == pts && k0 <= k
    requires AttemptsRecorded(s, pIdx, first, draw, k0, k, pts, pts1)
    requires var c := Translate(pts1[pIdx], draw(k));
             && (pts2 == pts1 || pts2 == pts1 + [c])
             && (InRect(s, c) ==> Covered(s.margin, pts2, pIdx, first, c))
    ensures |pts1| <= |pts2|
    ensures AttemptsRecorded(s, pIdx, first, draw, k0, k + 1, pts, pts2)
  {
    var c := Translate(pts1[pIdx], draw(k));
    assert pts2[..|pts1|] == pts1;
    assert pts2[pIdx] == pts1[pIdx] == pts[pIdx];
    forall j | k0 <= j < k + 1
      ensures AttemptSettled(s, pts2, pIdx, first, draw(j))
    {
      if j < k {
        assert AttemptSettled(s, pts1, pIdx, first, draw(j));
        if InRect(s, Translate(pts1[pIdx], draw(j))) {
          CoveredGrows(s.margin, pts1, pts2, pIdx, first, Translate(pts1[pIdx], draw(j)));
        }
      }
    }
    forall i | |pts| <= i < |pts2|
      ensures DrawnFrom(pts[pIdx], draw, k0, k + 1, pts2[i])
    {
      if i < |pts1| {
        assert DrawnFrom(pts[pIdx], draw, k0, k, pts1[i]);
        var j :| k0 <= j < k && pts1[i] == Translate(pts[pIdx], draw(j));
        assert pts2[i] == pts1[i];
      } else {
        assert pts2[i] == Translate(pts[pIdx], draw(k));
      }
    }
  }

  /** One pass of the attempt loop for the popped point `pts[pIdx]` (lines 52-96): every
      in-bounds candidate without a collision is appended to the output and to the active list
      and written to the grid; the loop does not stop at the first acceptance, so every one of
      the pass's draws is settled: its candidate is out of the rectangle or is covered by an
      output point other than the parent. The new points are exactly candidates of these draws.
      Returns the new state, whether any point was found, and the next position in the random
      stream. */
  method ExpandPoint(s: Sampler, grid: Grid, pts: seq<Point>, active: seq<nat>, pIdx: nat,
                     first: nat, maxAttempts: int, draw: nat -> Offset, k0: nat)
    returns (grid': Grid, pts': seq<Point>, active': seq<nat>, found: bool, k': nat)
    requires GridInv(s, grid, pts, first) && pIdx < |pts|
    requires forall k :: InAnnulus(s.margin, draw(k))
    ensures GridInv(s, grid', pts', first)
    ensures |pts| <= |pts'| && pts'[..|pts|] == pts
    ensures active' == active + Indices(|pts|, |pts'|)
    ensures found <==> |pts| < |pts'|
    ensures !found ==> grid' == grid
    ensures forall i :: |pts| <= i < |pts'| ==> Spawned(s.margin, pts[pIdx], pts'[i])
    ensures k' == k0 + Max(0, maxAttempts)
    ensures forall k :: k0 <= k < k' ==> AttemptSettled(s, pts', pIdx, first, draw(k))
    ensures forall i :: |pts| <= i < |pts'| ==> DrawnFrom(pts[pIdx], draw, k0, k', pts'[i])
    ensures pts' == PassOutput(s, pts, pIdx, first, draw, k0, Max(0, maxAttempts))
  {
    ExtendsRefl(s, pIdx, grid, pts, active, first);
    grid', pts', active', found, k' := grid, pts, active, false, k0;
    var attempt := 0;
    while attempt < maxAttempts
      invariant 0 <= attempt <= Max(0, maxAttempts)
      invariant k' == k0 + attempt
      invariant Extends(s, pIdx, first, grid, pts, active, grid', pts', active')
      invariant found <==> |pts| < |pts'|
      invariant pts' == PassOutput(s, pts, pIdx, first, draw, k0, attempt)
    {
      var g2, p2, a2 := Attempt(s, grid, pts, active, pIdx, first, draw, k0, attempt, grid', pts', active');
      if |p2| > |pts'| {
        found := true;
      }
      grid', pts', active' := g2, p2, a2;
      k' := k' + 1;
      attempt := attempt + 1;
    }
    assert attempt == Max(0, maxAttempts);
    PassOutputRecorded(s, pts, pIdx, first, draw, k0, attempt);
    PassFacts(s, grid, pts, active, pIdx, first, draw, k0, attempt, grid', pts', active');
  }

  /** What a finished pass states, unpacked from the extension and the reference pass. */
  lemma PassFacts(s: Sampler, grid: Grid, pts: seq<Point>, active: seq<nat>, pIdx: nat, first: nat,
                  draw: nat -> Offset, k0: nat, a: nat, grid': Grid, pts': seq<Point>, active': seq<nat>)
    requires Extends(s, pIdx, first, grid, pts, active, grid', pts', active')
    requires AttemptsRecorded(s, pIdx, first, draw, k0, k0 + a, pts, pts')
    ensures GridInv(s, grid', pts', first)
    ensures |pts| <= |pts'| && pts'[..|pts|] == pts
    ensures active' == active + Indices(|pts|, |pts'|)
    ensures |pts| == |pts'| ==> grid' == grid
    ensures forall i :: |pts| <= i < |pts'| ==> Spawned(s.margin, pts[pIdx], pts'[i])
    ensures forall k :: k0 <= k < k0 + a ==> AttemptSettled(s, pts', pIdx, first, draw(k))
    ensures forall i :: |pts| <= i < |pts'| ==> DrawnFrom(pts[pIdx], draw, k0, k0 + a, pts'[i])
  {
  }

  /** Attempt number `a` of a pass from `pts[pIdx]` (lines 55-95), on the state `grid1, pts1,
      active1` the earlier attempts left: it tries the candidate of draw `k0 + a`, and the
      output stays the reference pass. */
  method Attempt(s: Sampler, grid: Grid, pts: seq<Point>, active: seq<nat>, pIdx: nat, first: nat,
                 draw: nat -> Offset, k0: nat, a: nat, grid1: Grid, pts1: seq<Point>, active1: seq<nat>)
    returns (grid2: Grid, pts2: seq<Point>, active2: seq<nat>)
    requires forall k :: InAnnulus(s.margin, draw(k))
    requires Extends(s, pIdx, first, grid, pts, active, grid1, pts1, active1)
    requires pts1 == PassOutput(s, pts, pIdx, first, draw, k0, a)
    ensures Extends(s, pIdx, first, grid, pts, active, grid2, pts2, active2)
    ensures |pts1| <= |pts2| && (|pts1| == |pts2| ==> grid2 == grid1)
    ensures pts2 == PassOutput(s, pts, pIdx, first, draw, k0, a + 1)
  {
    var p := pts1[pIdx];
    var c := Translate(p, draw(k0 + a));
    TranslateSpawns(s.margin, p, draw(k0 + a));
    grid2, pts2, active2 := TryCandidate(s, grid1, pts1, active1, pIdx, c, first);
    ExtendsTrans(s, pIdx, first, grid, pts, active, grid1, pts1, active1, grid2, pts2, active2);
    assert p == pts[pIdx];
    PassOutputStep(s, pts, pIdx, first, draw, k0, a, pts1, pts2);
  }

  /** `n` copies of `v`. */
  function Repeat(v: nat, n: nat): (r: seq<nat>)
    ensures |r| == n
    ensures forall a :: 0 <= a < n ==> r[a] == v
  {
    seq(n, _ => v)
  }

  /** Point i (after the seed) is the candidate of a draw `k` taken while its parent
      `parent[i]`, an earlier point, was the popped one. */
  ghost predicate Sourced(pts: seq<Point>, parent: seq<nat>, popped: seq<nat>, draw: nat -> Offset, i: nat)
    requires i < |pts| && i < |parent|
  {
    && parent[i] < i
    && exists k :: 0 <= k < |popped| && popped[k] == parent[i] && pts[i] == Translate(pts[parent[i]], draw(k))
  }

  /** The ghost history of a run: `parent[i]` is the point popped when point i was drawn,
      `popped[k]` the point popped when draw k was taken; every point after the seed is
      sourced, and every draw taken so far is settled. */
  ghost predicate History(s: Sampler, first: nat, draw: nat -> Offset, pts: seq<Point>,
                          parent: seq<nat>, popped: seq<nat>)
  {
    && |parent| == |pts|
    && (forall i :: 1 <= i < |pts| ==> Sourced(pts, parent, popped, draw, i))
    && (forall k :: 0 <= k < |popped| ==> popped[k] < |pts| && AttemptSettled(s, pts, popped[k], first, draw(k)))
  }

  /** The draws `k .. k + m - 1` were all taken while point i was popped. */
  ghost predicate BlockAt(popped: seq<nat>, k: nat, i: nat, m: nat)
  {
    k + m <= |popped| && forall j :: k <= j < k + m ==> popped[j] == i
  }

  /** Point i was popped at least once and had all `m` attempts of that pass. */
  ghost predicate PoppedBlock(popped: seq<nat>, i: nat, m: nat)
  {
    exists k :: BlockAt(popped, k, i, m)
  }

  /** Appending a pass's children and draws keeps every point sourced. */
  lemma SourcedGrow(draw: nat -> Offset, before: seq<Point>, pts: seq<Point>, pIdx: nat, k0: nat, k: nat,
                    parent: seq<nat>, popped: seq<nat>)
    requires |parent| == |before| && |popped| == k0 <= k
    requires pIdx < |before| <= |pts| && pts[..|before|] == before
    requires forall i :: 1 <= i < |before| ==> Sourced(before, parent, popped, draw, i)
    requires forall i :: |before| <= i < |pts| ==> DrawnFrom(before[pIdx], draw, k0, k, pts[i])
    ensures var parent', popped' := parent + Repeat(pIdx, |pts| - |before|), popped + Repeat(pIdx, k - k0);
            forall i :: 1 <= i < |pts| ==> Sourced(pts, parent', popped', draw, i)
  {
    var parent', popped' := parent + Repeat(pIdx, |pts| - |before|), popped + Repeat(pIdx, k - k0);
    forall i | 1 <= i < |pts|
      ensures Sourced(pts, parent', popped', draw, i)
    {
      if i < |before| {
        assert Sourced(before, parent, popped, draw, i);
        var j :| 0 <= j < |popped| && popped[j] == parent[i] && before[i] == Translate(before[parent[i]], draw(j));
        assert parent'[i] == parent[i] && popped'[j] == popped[j];
        assert pts[i] == before[i] && pts[parent[i]] == before[parent[i]];
      } else {
        assert DrawnFrom(before[pIdx], draw, k0, k, pts[i]);
        var j :| k0 <= j < k && pts[i] == Translate(before[pIdx], draw(j));
        assert parent'[i] == pIdx && popped'[j] == pIdx;
        assert pts[pIdx] == before[pIdx];
      }
    }
  }

  /** Appending a pass's draws keeps every draw settled. */
  lemma SettledGrow(s: Sampler, first: nat, draw: nat -> Offset, before: seq<Point>, pts: seq<Point>,
                    pIdx: nat, k0: nat, k: nat, popped: seq<nat>)
    requires |popped| == k0 <= k
    requires pIdx < |before| <= |pts| && pts[..|before|] == before
    requires forall j :: 0 <= j < k0 ==> popped[j] < |before| && AttemptSettled(s, before, popped[j], first, draw(j))
    requires forall j :: k0 <= j < k ==> AttemptSettled(s, pts, pIdx, first, draw(j))
    ensures var popped' := popped + Repeat(pIdx, k - k0);
            forall j :: 0 <= j < |popped'| ==> popped'[j] < |pts| && AttemptSettled(s, pts, popped'[j], first, draw(j))
  {
    var popped' := popped + Repeat(pIdx, k - k0);
    forall j | 0 <= j < |popped'|
      ensures popped'[j] < |pts| && AttemptSettled(s, pts, popped'[j], first, draw(j))
    {
      if j < k0 {
        var t := popped[j];
        assert popped'[j] == t;
        assert AttemptSettled(s, before, t, first, draw(j));
        assert pts[t] == before[t];
        if InRect(s, Translate(before[t], draw(j))) {
          CoveredGrows(s.margin, before, pts, t, first, Translate(before[t], draw(j)));
        }
      } else {
        assert popped'[j] == pIdx;
      }
    }
  }

  /** Popping the top of the stack and running its pass: every point is still on the stack or
      has had a full pass, the popped one now included. */
  lemma VisitsGrow(stack: seq<nat>, active: seq<nat>, tail: seq<nat>, nb: nat, n: nat, popped: seq<nat>, m: nat)
    requires |stack| > 0 && nb <= n
    requires active == stack[..|stack| - 1] + Indices(nb, n) + tail
    requires forall i :: 0 <= i < nb ==> i in stack || PoppedBlock(popped, i, m)
    ensures forall i :: 0 <= i < n ==> i in active || PoppedBlock(popped + Repeat(stack[|stack| - 1], m), i, m)
  {
    var pIdx := stack[|stack| - 1];
    var popped' := popped + Repeat(pIdx, m);
    assert BlockAt(popped', |popped|, pIdx, m);
    forall i | 0 <= i < n
      ensures i in active || PoppedBlock(popped', i, m)
    {
      if i >= nb {
        assert active[|stack| - 1 + (i - nb)] == i;
      } else if PoppedBlock(popped, i, m) {
        var k :| BlockAt(popped, k, i, m);
        assert BlockAt(popped', k, i, m);
      } else {
        var a :| 0 <= a < |stack| && stack[a] == i;
        if a < |stack| - 1 {
          assert active[a] == i;
        }
      }
    }
  }

  /** Every sourced point lies in the annulus around its parent. */
  lemma SourcedSpawned(s: Sampler, draw: nat -> Offset, pts: seq<Point>, parent: seq<nat>, popped: seq<nat>)
    requires forall k :: InAnnulus(s.margin, draw(k))
    requires |parent| == |pts|
    requires forall i :: 1 <= i < |pts| ==> Sourced(pts, parent, popped, draw, i)
    ensures forall i :: 1 <= i < |pts| ==> parent[i] < i && Spawned(s.margin, pts[parent[i]], pts[i])
  {
    forall i | 1 <= i < |pts|
      ensures parent[i] < i && Spawned(s.margin, pts[parent[i]], pts[i])
    {
      assert Sourced(pts, parent, popped, draw, i);
      var k :| 0 <= k < |popped| && popped[k] == parent[i] && pts[i] == Translate(pts[parent[i]], draw(k));
      TranslateSpawns(s.margin, pts[parent[i]], draw(k));
    }
  }

  /** The entry a pass pops: the last one of the active list (line 50). */
  function Top(stack: seq<nat>): nat
    requires |stack| > 0
  {
    stack[|stack| - 1]
  }

  /** One pass of the outer loop on the active list: the last entry is popped, the output
      indices `nb .. na - 1` of the accepted children are pushed in order (line 91), and the
      popped entry is pushed back after them exactly when a child was accepted (lines 98-99). */
  ghost predicate PassStep(before: seq<nat>, after: seq<nat>, nb: nat, na: nat)
  {
    && |before| > 0 && nb <= na
    && after == before[..|before| - 1] + Indices(nb, na) + (if nb < na then [Top(before)] else [])
  }

  /** The record of a run's passes: `stacks[t]` is the active list and `sizes[t]` the output
      length before pass t, starting from the seed alone; consecutive entries are related by
      `PassStep`, and the `m` draws of pass t, at positions `t * m .. t * m + m - 1` of `popped`,
      were all taken from the entry pass t popped. */
  ghost predicate StackTrace(stacks: seq<seq<nat>>, sizes: seq<nat>, popped: seq<nat>, m: nat)
  {
    && |stacks| == |sizes| >= 1
    && stacks[0] == [0] && sizes[0] == 1
    && |popped| == (|stacks| - 1) * m
    && forall t :: 0 <= t < |stacks| - 1 ==>
         && PassStep(stacks[t], stacks[t + 1], sizes[t], sizes[t + 1])
         && 0 <= t * m && t * m + m <= |popped|
         && popped[t * m .. t * m + m] == Repeat(Top(stacks[t]), m)
  }

  /** Recording one more pass extends the trace. */
  lemma TraceGrow(stacks: seq<seq<nat>>, sizes: seq<nat>, popped: seq<nat>, m: nat,
                  next: seq<nat>, size: nat)
    requires StackTrace(stacks, sizes, popped, m)
    requires PassStep(stacks[|stacks| - 1], next, sizes[|sizes| - 1], size)
    ensures StackTrace(stacks + [next], sizes + [size],
                       popped + Repeat(Top(stacks[|stacks| - 1]), m), m)
  {
    var n := |stacks|;
    var stacks', sizes' := stacks + [next], sizes + [size];
    var popped' := popped + Repeat(Top(stacks[n - 1]), m);
    assert |popped'| == n * m by {
      assert n * m == (n - 1) * m + m;
    }
    forall t | 0 <= t < |stacks'| - 1
      ensures && PassStep(stacks'[t], stacks'[t + 1], sizes'[t], sizes'[t + 1])
              && 0 <= t * m && t * m + m <= |popped'|
              && popped'[t * m .. t * m + m] == Repeat(Top(stacks'[t]), m)
    {
      if t < n - 1 {
        assert stacks'[t] == stacks[t] && stacks'[t + 1] == stacks[t + 1];
        assert popped'[t * m .. t * m + m] == popped[t * m .. t * m + m];
      } else {
        assert t * m == |popped|;
        assert popped'[t * m .. t * m + m] == Repeat(Top(stacks[n - 1]), m);
      }
    }
  }

  /** Pass t popped `Top(stacks[t])` and took the draws `t * m .. t * m + m - 1`, in order: the
      points it added, `pts[sizes[t] .. sizes[t + 1] - 1]`, are what the reference pass makes of
      those draws from the output before it. */
  ghost predicate ReplayedAt(s: Sampler, first: nat, draw: nat -> Offset, m: nat, pts: seq<Point>,
                             stacks: seq<seq<nat>>, sizes: seq<nat>, t: nat)
    requires t < |stacks| && t + 1 < |sizes|
  {
    && |stacks[t]| > 0 && Top(stacks[t]) < sizes[t] <= sizes[t + 1] <= |pts|
    && pts[..sizes[t + 1]] == PassOutput(s, pts[..sizes[t]], Top(stacks[t]), first, draw, t * m, m)
  }

  /** Every pass so far is a replay of its draws. */
  ghost predicate PassesReplay(s: Sampler, first: nat, draw: nat -> Offset, m: nat, pts: seq<Point>,
                               stacks: seq<seq<nat>>, sizes: seq<nat>)
  {
    forall t: nat :: t < |stacks| - 1 && t < |sizes| - 1 ==> ReplayedAt(s, first, draw, m, pts, stacks, sizes, t)
  }

  /** A replayed pass stays replayed when the output grows behind it. */
  lemma ReplayedKeep(s: Sampler, first: nat, draw: nat -> Offset, m: nat, before: seq<Point>, pts: seq<Point>,
                     stacks: seq<seq<nat>>, sizes: seq<nat>, stacks': seq<seq<nat>>, sizes': seq<nat>, t: nat)
    requires t < |stacks| && t + 1 < |sizes| && t < |stacks'| && t + 1 < |sizes'|
    requires ReplayedAt(s, first, draw, m, before, stacks, sizes, t)
    requires stacks'[t] == stacks[t] && sizes'[t] == sizes[t] && sizes'[t + 1] == sizes[t + 1]
    requires |before| <= |pts| && pts[..|before|] == before
    ensures ReplayedAt(s, first, draw, m, pts, stacks', sizes', t)
  {
    assert pts[..sizes[t + 1]] == before[..sizes[t + 1]];
    assert pts[..sizes[t]] == before[..sizes[t]];
  }

  /** The pass just taken from `before` is replayed. */
  lemma ReplayedLast(s: Sampler, first: nat, draw: nat -> Offset, m: nat, before: seq<Point>, pts: seq<Point>,
                     stacks': seq<seq<nat>>, sizes': seq<nat>, t: nat)
    requires t < |stacks'| && t + 1 < |sizes'|
    requires |stacks'[t]| > 0 && Top(stacks'[t]) < |before|
    requires sizes'[t] == |before| && sizes'[t + 1] == |pts|
    requires pts == PassOutput(s, before, Top(stacks'[t]), first, draw, t * m, m)
    ensures ReplayedAt(s, first, draw, m, pts, stacks', sizes', t)
  {
    assert pts[..|before|] == before && pts[..|pts|] == pts;
  }

  /** Appending one more pass, taken from the current output with the next `m` draws, keeps
      every pass a replay. */
  lemma ReplayGrow(s: Sampler, first: nat, draw: nat -> Offset, m: nat, before: seq<Point>,
                   pts: seq<Point>, stacks: seq<seq<nat>>, sizes: seq<nat>, next: seq<nat>)
    requires PassesReplay(s, first, draw, m, before, stacks, sizes)
    requires |stacks| == |sizes| >= 1 && sizes[|sizes| - 1] == |before|
    requires var stack := stacks[|stacks| - 1];
             && |stack| > 0 && Top(stack) < |before|
             && pts == PassOutput(s, before, Top(stack), first, draw, (|stacks| - 1) * m, m)
    ensures PassesReplay(s, first, draw, m, pts, stacks + [next], sizes + [|pts|])
  {
    var n := |stacks|;
    var stacks', sizes' := stacks + [next], sizes + [|pts|];
    forall t: nat | t < |stacks'| - 1 && t < |sizes'| - 1
      ensures ReplayedAt(s, first, draw, m, pts, stacks', sizes', t)
    {
      if t < n - 1 {
        ReplayedKeep(s, first, draw, m, before, pts, stacks, sizes, stacks', sizes', t);
      } else {
        ReplayedLast(s, first, draw, m, before, pts, stacks', sizes', t);
      }
    }
  }

  /** Everything the ghost record of a run states after some passes, with `active` the current
      active list: the history of parents and draws, every point still active or given a full
      pass, the trace of passes ending in the current list and output length, and every pass a
      replay of its draws. */
  ghost predicate RunRecord(s: Sampler, first: nat, draw: nat -> Offset, m: nat, pts: seq<Point>,
                            active: seq<nat>, parent: seq<nat>, popped: seq<nat>,
                            stacks: seq<seq<nat>>, sizes: seq<nat>)
  {
    && History(s, first, draw, pts, parent, popped)
    && (forall i :: 0 <= i < |pts| ==> i in active || PoppedBlock(popped, i, m))
    && StackTrace(stacks, sizes, popped, m)
    && stacks[|stacks| - 1] == active && sizes[|sizes| - 1] == |pts|
    && PassesReplay(s, first, draw, m, pts, stacks, sizes)
  }

  /** One pass of the outer loop, from popping the top of `stack` to pushing it back or not,
      extends the record. */
  lemma RecordGrow(s: Sampler, first: nat, draw: nat -> Offset, m: nat, before: seq<Point>,
                   pts: seq<Point>, stack: seq<nat>, active: seq<nat>, k0: nat,
                   parent: seq<nat>, popped: seq<nat>, stacks: seq<seq<nat>>, sizes: seq<nat>)
    requires RunRecord(s, first, draw, m, before, stack, parent, popped, stacks, sizes)
    requires |stack| > 0 && Top(stack) < |before| && k0 == |popped|
    requires |before| <= |pts| && pts[..|before|] == before
    requires forall j :: k0 <= j < k0 + m ==> AttemptSettled(s, pts, Top(stack), first, draw(j))
    requires forall i :: |before| <= i < |pts| ==> DrawnFrom(before[Top(stack)], draw, k0, k0 + m, pts[i])
    requires PassStep(stack, active, |before|, |pts|)
    requires pts == PassOutput(s, before, Top(stack), first, draw, k0, m)
    ensures var pIdx := Top(stack);
            RunRecord(s, first, draw, m, pts, active, parent + Repeat(pIdx, |pts| - |before|),
                      popped + Repeat(pIdx, m), stacks + [active], sizes + [|pts|])
  {
    var pIdx := Top(stack);
    var tail: seq<nat> := if |before| < |pts| then [pIdx] else [];
    SourcedGrow(draw, before, pts, pIdx, k0, k0 + m, parent, popped);
    SettledGrow(s, first, draw, before, pts, pIdx, k0, k0 + m, popped);
    VisitsGrow(stack, active, tail, |before|, |pts|, popped, m);
    TraceGrow(stacks, sizes, popped, m, active, |pts|);
    ReplayGrow(s, first, draw, m, before, pts, stacks, sizes, active);
  }

  /** Whether the seed point is stored in the grid: the source leaves it out (lines 45-48);
      Bridson's algorithm stores it like every accepted point. */
  datatype SeedPolicy = SeedOffGrid | SeedInGrid

  /** The output index of the first grid-resident point. */
  function FirstStored(policy: SeedPolicy): nat
  {
    if policy == SeedInGrid then 0 else 1
  }

  /** The grid before the first pop: empty, or holding just the seed. */
  function InitialGrid(s: Sampler, seed: Point, policy: SeedPolicy): (grid: Grid)
    requires Valid(s) && InRect(s, seed)
    ensures GridInv(s, grid, [seed], FirstStored(policy))
  {
    GridCovers(s);
    var empty := EmptyGrid(s.numRows, s.numCols);
    EmptyGridFilled(s.numRows, s.numCols);
    if policy == SeedOffGrid then
      empty
    else
      CellInBounds(s, seed);
      GridFilledUpdate(empty, RowOf(s, seed), ColOf(s, seed), 0);
      var grid := Place(s, empty, seed, 0);
      grid
  }

  /** One pass of the outer loop (lines 50-100): the last active entry is popped, its
      `maxAttempts` attempts are run, and it is pushed back after its children exactly when one
      was accepted. The grid invariant and the run's record are kept; the pass either fills a
      fresh grid cell or shrinks the active list. */
  method Pass(s: Sampler, grid: Grid, pts: seq<Point>, active: seq<nat>, first: nat, maxAttempts: int,
              draw: nat -> Offset, k: nat, ghost parent: seq<nat>, ghost popped: seq<nat>,
              ghost stacks: seq<seq<nat>>, ghost sizes: seq<nat>)
    returns (grid': Grid, pts': seq<Point>, active': seq<nat>, k': nat, ghost parent': seq<nat>,
             ghost popped': seq<nat>, ghost stacks': seq<seq<nat>>, ghost sizes': seq<nat>)
    requires GridInv(s, grid, pts, first) && |active| > 0
    requires forall a :: 0 <= a < |active| ==> active[a] < |pts|
    requires forall j :: InAnnulus(s.margin, draw(j))
    requires k == |popped|
    requires RunRecord(s, first, draw, Max(0, maxAttempts), pts, active, parent, popped, stacks, sizes)
    ensures GridInv(s, grid', pts', first) && |pts| <= |pts'| && pts'[..|pts|] == pts
    ensures forall a :: 0 <= a < |active'| ==> active'[a] < |pts'|
    ensures PassStep(active, active', |pts|, |pts'|)
    ensures pts' == PassOutput(s, pts, Top(active), first, draw, k, Max(0, maxAttempts))
    ensures k' == |popped'| == k + Max(0, maxAttempts)
    ensures RunRecord(s, first, draw, Max(0, maxAttempts), pts', active', parent', popped', stacks', sizes')
    ensures GridFilled(grid) < GridFilled(grid') || (grid' == grid && |active'| < |active|)
  {
    var m := Max(0, maxAttempts);
    var pIdx := active[|active| - 1];
    active' := active[..|active| - 1];
    var found;
    grid', pts', active', found, k' := ExpandPoint(s, grid, pts, active', pIdx, first, maxAttempts, draw, k);
    if found {
      active' := active' + [pIdx];
    }
    RecordGrow(s, first, draw, m, pts, pts', active, active', k, parent, popped, stacks, sizes);
    stacks', sizes' := stacks + [active'], sizes + [|pts'|];
    parent' := parent + Repeat(pIdx, |pts'| - |pts|);
    popped' := popped + Repeat(pIdx, m);
  }

  /** `generate` on a freshly constructed sampler, the seed stored in the grid or not. The
      active list is a stack of output indices: the last entry is popped (line 50), its accepted
      children are pushed, and it is pushed back after them iff one was accepted (lines 98-99).
      Every pass either fills a fresh grid cell or shrinks the stack, so the loop ends.

      Every point lies in the rectangle; the grid-resident points are pairwise at least the
      margin apart (with the seed off the grid, as in the source, every point but the seed; with
      it in the grid, every point). The ghost outputs record the run: point i after the seed is
      a candidate drawn while its parent `parent[i]` was popped, so it lies in the annulus around
      that parent, and in particular at least the margin from the seed when spawned from it; and
      every point had at least one full pass of `maxAttempts` draws, each of whose in-rectangle
      candidates lies closer than the margin to some grid-resident point other than the one popped
      (the candidate itself when accepted). `stacks` and `sizes` trace the active list and the
      output length before every pass, from the seed alone to the empty list, each pass popping
      the last entry and pushing as `PassStep` says. */
  method Generate(s: Sampler, maxAttempts: int, u: real, v: real, draw: nat -> Offset,
                  policy: SeedPolicy)
    returns (pts: seq<Point>, ghost parent: seq<nat>, ghost popped: seq<nat>,
             ghost stacks: seq<seq<nat>>, ghost sizes: seq<nat>)
    requires Valid(s)
    requires 0.0 <= u < 1.0 && 0.0 <= v < 1.0
    requires forall k :: InAnnulus(s.margin, draw(k))
    ensures |pts| >= 1 && pts[0] == SeedPoint(s, u, v)
    ensures forall i :: 0 <= i < |pts| ==> InRect(s, pts[i])
    ensures forall i, j :: FirstStored(policy) <= i < j < |pts| ==> DistSq(pts[i], pts[j]) >= Sq(s.margin)
    ensures |pts| <= s.numRows * s.numCols + FirstStored(policy)
    ensures |parent| == |pts|
    ensures forall i :: 1 <= i < |pts| ==> Sourced(pts, parent, popped, draw, i)
    ensures forall i :: 1 <= i < |pts| ==> parent[i] < i && Spawned(s.margin, pts[parent[i]], pts[i])
    ensures forall i :: 1 <= i < |pts| && parent[i] == 0 ==> DistSq(pts[0], pts[i]) >= Sq(s.margin)
    ensures forall i :: 0 <= i < |pts| ==> PoppedBlock(popped, i, Max(0, maxAttempts))
    ensures forall k :: 0 <= k < |popped| ==>
              popped[k] < |pts| && AttemptSettled(s, pts, popped[k], FirstStored(policy), draw(k))
    ensures StackTrace(stacks, sizes, popped, Max(0, maxAttempts))
    ensures stacks[|stacks| - 1] == [] && sizes[|sizes| - 1] == |pts|
    ensures PassesReplay(s, FirstStored(policy), draw, Max(0, maxAttempts), pts, stacks, sizes)
  {
    GridCovers(s);
    var first := FirstStored(policy);
    var m := Max(0, maxAttempts);
    var seed := SeedPoint(s, u, v);
    pts := [seed];
    parent, popped := [0], [];
    var grid := InitialGrid(s, seed, policy);
    var active: seq<nat> := [0];
    var k: nat := 0;
    stacks, sizes := [active], [1];
    assert active[0] == 0;
    while |active| > 0
      invariant GridInv(s, grid, pts, first) && pts[0] == seed
      invariant forall a :: 0 <= a < |active| ==> active[a] < |pts|
      invariant k == |popped|
      invariant RunRecord(s, first, draw, m, pts, active, parent, popped, stacks, sizes)
      decreases s.numRows * s.numCols - GridFilled(grid), |active|
    {
      grid, pts, active, k, parent, popped, stacks, sizes :=
        Pass(s, grid, pts, active, first, maxAttempts, draw, k, parent, popped, stacks, sizes);
      GridFilledBound(grid, s.numRows, s.numCols);
    }
    SourcedSpawned(s, draw, pts, parent, popped);
    GridFilledBound(grid, s.numRows, s.numCols);
  }

  /** The state after the seed's first child is accepted. */
  lemma FirstChildAccepted(s: Sampler, seed: Point, child: Point, policy: SeedPolicy)
    requires Valid(s) && InRect(s, seed) && InRect(s, child)
    requires Spawned(s.margin, seed, child)
    ensures GridInv(s, Place(s, InitialGrid(s, seed, policy), child, 1), [seed, child], FirstStored(policy))
  {
    AcceptChildOfOnly(s, InitialGrid(s, seed, policy), seed, child, FirstStored(policy));
  }

  /** While the seed is the only point, its child can collide with nothing: the only index the
      grid may hold is the parent's, which the scan skips. */
  lemma AcceptChildOfOnly(s: Sampler, grid: Grid, seed: Point, child: Point, first: nat)
    requires GridInv(s, grid, [seed], first) && InRect(s, child)
    requires Spawned(s.margin, seed, child)
    ensures GridInv(s, Place(s, grid, child, 1), [seed, child], first)
  {
    forall r, q | SearchBox(s, child).Contains(r, q)
      ensures !Collides(s, grid, [seed], 0, child, r, q)
    {
    }
    AcceptPreservesInv(s, grid, [seed], 0, child, first);
  }

  /** A run of the source that ends closer than the margin to the seed. Margin 1 on the square
      [0, 10) x [0, 10), seed draws 0.5 and 0.5, one attempt per pop. The seed (5, 5) spawns
      (6, 5); its second pop draws a candidate next to (6, 5), which collides; then (6, 5) is
      popped and draws (4.5, 5). With the seed off the grid that candidate meets only its own
      parent in the scan, so it is accepted although it lies 0.5 from the seed. */
  lemma SeedNotGuarded(w: real)
    requires IsCellWidth(w, 1.0)
    ensures var s := NewSampler(1.0, 0.0, 10.0, 0.0, 10.0, w);
            var seed, child, c := Point(5.0, 5.0), Point(6.0, 5.0), Point(4.5, 5.0);
            var grid := Place(s, InitialGrid(s, seed, SeedOffGrid), child, 1);
            && seed == SeedPoint(s, 0.5, 0.5)
            && GridInv(s, grid, [seed, child], 1)
            && Spawned(1.0, seed, child) && Spawned(1.0, child, c) && InRect(s, c)
            && !(exists r, q :: SearchBox(s, c).Contains(r, q) && Collides(s, grid, [seed, child], 1, c, r, q))
            && DistSq(seed, c) < Sq(1.0)
  {
    var s := NewSampler(1.0, 0.0, 10.0, 0.0, 10.0, w);
    var seed, child, c := Point(5.0, 5.0), Point(6.0, 5.0), Point(4.5, 5.0);
    var empty := InitialGrid(s, seed, SeedOffGrid);
    GridCovers(s);
    assert empty == EmptyGrid(s.numRows, s.numCols);
    assert seed == SeedPoint(s, 0.5, 0.5);
    assert Spawned(1.0, seed, child) && Spawned(1.0, child, c);
    assert DistSq(seed, c) < Sq(1.0);
    FirstChildAccepted(s, seed, child, SeedOffGrid);
    var grid := Place(s, empty, child, 1);
    forall r, q | SearchBox(s, c).Contains(r, q)
      ensures !Collides(s, grid, [seed, child], 1, c, r, q)
    {
      if r != RowOf(s, child) || q != ColOf(s, child) {
        assert grid[r][q] == empty[r][q];
      }
    }
  }

  /** The same state with the seed in the grid: the scan finds the seed and rejects the
      candidate. */
  lemma SeedInGridGuards(w: real)
    requires IsCellWidth(w, 1.0)
    ensures var s := NewSampler(1.0, 0.0, 10.0, 0.0, 10.0, w);
            var seed, child, c := Point(5.0, 5.0), Point(6.0, 5.0), Point(4.5, 5.0);
            var grid := Place(s, InitialGrid(s, seed, SeedInGrid), child, 1);
            && GridInv(s, grid, [seed, child], 0)
            && exists r, q :: SearchBox(s, c).Contains(r, q) && Collides(s, grid, [seed, child], 1, c, r, q)
  {
    var s := NewSampler(1.0, 0.0, 10.0, 0.0, 10.0, w);
    var seed, child, c := Point(5.0, 5.0), Point(6.0, 5.0), Point(4.5, 5.0);
    var pts := [seed, child];
    assert Spawned(1.0, seed, child) && DistSq(seed, c) < Sq(1.0);
    FirstChildAccepted(s, seed, child, SeedInGrid);
    var grid := Place(s, InitialGrid(s, seed, SeedInGrid), child, 1);
    SeedStoredAt(s, grid, pts);
    BoxCoversNeighbours(s, c, seed);
    assert Collides(s, grid, pts, 1, c, RowOf(s, seed), ColOf(s, seed));
  }

  lemma SeedStoredAt(s: Sampler, grid: Grid, pts: seq<Point>)
    requires GridInv(s, grid, pts, 0)
    ensures HoldsAt(grid, RowOf(s, pts[0]), ColOf(s, pts[0]), 0)
  {
  }
}
