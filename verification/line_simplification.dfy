/** Ramer-Douglas-Peucker polyline simplification (`LineSimplification.simplify`).
    The source's explicit stack never holds more than one list, because the loop returns during
    its first iteration; the behaviour is the recursion on the two halves, modelled here directly.
    Distances are compared without square roots: within one call every distance shares the chord
    length as denominator, so points are ranked by the magnitude of the cross product and the
    tolerance test squares both sides. */
module LineSimplification {

  import opened Plane
  import opened Wrappers

  /** The numerator of `pointToLineDist` before its absolute value is taken. */
  function Cross(a: Point, b: Point, p: Point): real
  {
    (b.y - a.y) * p.x - (b.x - a.x) * p.y + b.x * a.y - b.y * a.x
  }

  /** The square of the chord length, the denominator of `pointToLineDist` before its root. */
  function DenomSq(a: Point, b: Point): (r: real)
    ensures r >= 0.0
    ensures r == 0.0 <==> a == b
  {
    var u, v := b.y - a.y, b.x - a.x;
    SqZero(u);
    SqZero(v);
    Sq(u) + Sq(v)
  }

  /** `pointToLineDist`, with the square root of the denominator supplied as `root`. */
  function PointToLineDist(a: Point, b: Point, p: Point, root: real): (d: real)
    requires root >= 0.0 && root * root == DenomSq(a, b)
    ensures d >= 0.0
    ensures a == b ==> d == 0.0
    ensures p == a || p == b ==> d == 0.0
  {
    EndpointsOnChord(a, b);
    if root == 0.0 then 0.0 else Abs(Cross(a, b, p)) / root
  }

  /** Both ends of a chord lie on its line. */
  lemma EndpointsOnChord(a: Point, b: Point)
    ensures Cross(a, b, a) == 0.0 && Cross(a, b, b) == 0.0
  {
    assert Cross(a, b, a) == (b.y - a.y) * a.x - (b.x - a.x) * a.y + b.x * a.y - b.y * a.x;
    assert Cross(a, b, b) == (b.y - a.y) * b.x - (b.x - a.x) * b.y + b.x * a.y - b.y * a.x;
  }

  /** The distance from `p` to the line through `a` and `b`, multiplied by the chord length;
      zero when the chord is degenerate, as in the source. */
  function ScaledDist(a: Point, b: Point, p: Point): (c: real)
    ensures c >= 0.0
    ensures a == b ==> c == 0.0
    ensures p == a || p == b ==> c == 0.0
  {
    EndpointsOnChord(a, b);
    if DenomSq(a, b) == 0.0 then 0.0 else Abs(Cross(a, b, p))
  }

  /** The test `maxDist < minToleratedDist` (line 67) for a point whose scaled distance is `c`. */
  predicate Below(a: Point, b: Point, c: real, tol: real)
  {
    if DenomSq(a, b) == 0.0 then 0.0 < tol
    else 0.0 < tol && c * c < tol * tol * DenomSq(a, b)
  }

  /** Ranking points by scaled distance ranks them by distance, and the tolerance test on the
      scaled distance is the source's test on the distance itself. */
  lemma ScaledDistanceFaithful(a: Point, b: Point, p: Point, q: Point, root: real, tol: real)
    requires root >= 0.0 && root * root == DenomSq(a, b)
    ensures PointToLineDist(a, b, p, root) > PointToLineDist(a, b, q, root)
        <==> ScaledDist(a, b, p) > ScaledDist(a, b, q)
    ensures PointToLineDist(a, b, p, root) < tol <==> Below(a, b, ScaledDist(a, b, p), tol)
  {
    assert PointToLineDist(a, b, p, root) > PointToLineDist(a, b, q, root)
        <==> ScaledDist(a, b, p) > ScaledDist(a, b, q) by {
      ScaledOrder(a, b, p, q, root);
    }
    assert PointToLineDist(a, b, p, root) < tol <==> Below(a, b, ScaledDist(a, b, p), tol) by {
      TolTest(a, b, p, root, tol);
    }
  }

  lemma ScaledOrder(a: Point, b: Point, p: Point, q: Point, root: real)
    requires root >= 0.0 && root * root == DenomSq(a, b)
    ensures PointToLineDist(a, b, p, root) > PointToLineDist(a, b, q, root)
        <==> ScaledDist(a, b, p) > ScaledDist(a, b, q)
  {
    if root == 0.0 {
      assert DenomSq(a, b) == 0.0;
    } else {
      ScaledOrderPositive(a, b, p, q, root);
    }
  }

  lemma ScaledOrderPositive(a: Point, b: Point, p: Point, q: Point, root: real)
    requires root > 0.0 && root * root == DenomSq(a, b)
    ensures PointToLineDist(a, b, p, root) > PointToLineDist(a, b, q, root)
        <==> ScaledDist(a, b, p) > ScaledDist(a, b, q)
  {
    var dp, dq := PointToLineDist(a, b, p, root), PointToLineDist(a, b, q, root);
    var cp, cq := ScaledDist(a, b, p), ScaledDist(a, b, q);
    DistIsScaledOverRoot(a, b, p, root);
    DistIsScaledOverRoot(a, b, q, root);
    QuotientOrder(cp, cq, root);
  }

  lemma TolTest(a: Point, b: Point, p: Point, root: real, tol: real)
    requires root >= 0.0 && root * root == DenomSq(a, b)
    ensures PointToLineDist(a, b, p, root) < tol <==> Below(a, b, ScaledDist(a, b, p), tol)
  {
    if root == 0.0 {
      assert DenomSq(a, b) == 0.0;
    } else {
      TolTestScaled(a, b, p, root, tol);
    }
  }

  lemma DistIsScaledOverRoot(a: Point, b: Point, p: Point, root: real)
    requires root > 0.0 && root * root == DenomSq(a, b)
    ensures PointToLineDist(a, b, p, root) == ScaledDist(a, b, p) / root
  {
    MulStrict(0.0, root);
    assert DenomSq(a, b) != 0.0;
  }

  lemma QuotientOrder(u: real, v: real, s: real)
    requires s > 0.0
    ensures u / s > v / s <==> u > v
  {
    assert (u / s) * s == u && (v / s) * s == v;
    DivideOrder(u / s, v / s, s);
  }

  lemma TolTestScaled(a: Point, b: Point, p: Point, root: real, tol: real)
    requires root > 0.0 && root * root == DenomSq(a, b)
    ensures PointToLineDist(a, b, p, root) < tol <==> Below(a, b, ScaledDist(a, b, p), tol)
  {
    var c, denom := ScaledDist(a, b, p), DenomSq(a, b);
    assert PointToLineDist(a, b, p, root) == c / root by {
      DistIsScaledOverRoot(a, b, p, root);
    }
    assert denom != 0.0 by {
      MulStrict(0.0, root);
    }
    if 0.0 < tol {
      assert c / root < tol <==> c * c < tol * tol * denom by {
        QuotientCompare(c, tol, root, denom);
      }
    }
  }

  /** Dividing by `root` and comparing with `tol` is squaring and comparing with `tol * root`. */
  lemma QuotientCompare(c: real, tol: real, root: real, denom: real)
    requires c >= 0.0 && tol > 0.0 && root > 0.0 && denom == root * root
    ensures c / root < tol <==> c * c < tol * tol * denom
  {
    var d := c / root;
    assert c == d * root;
    assert d >= 0.0 by {
      DivideOrder(0.0, d, root);
    }
    ScaledCompare(d, tol, root, c, denom);
  }

  /** `d < tol` compares the same way after scaling both sides by `root` and squaring. */
  lemma ScaledCompare(d: real, tol: real, root: real, c: real, denom: real)
    requires d >= 0.0 && tol > 0.0 && root > 0.0
    requires c == d * root && denom == root * root
    ensures d < tol <==> c * c < tol * tol * denom
  {
    var m := tol * root;
    MulPos(tol, root);
    SquareOfProduct(tol, root, denom, m);
    DivideOrder(tol, d, root);
    assert c >= 0.0 by {
      DivideOrder(d, 0.0, root);
    }
    if c < m {
      MulStrict(c, m);
    } else {
      MulStrict(m, c);
    }
  }

  lemma SquareOfProduct(t: real, r: real, rr: real, m: real)
    requires rr == r * r && m == t * r
    ensures t * t * rr == m * m
  {
  }

  lemma MulPos(u: real, v: real)
    requires u > 0.0 && v > 0.0
    ensures u * v > 0.0
  {
  }

  lemma DivideOrder(u: real, v: real, s: real)
    requires s > 0.0
    ensures u > v <==> u * s > v * s
  {
    assert u * s - v * s == (u - v) * s;
    if u > v {
      assert (u - v) * s > 0.0;
    } else {
      assert (v - u) * s >= 0.0;
    }
  }

  /** The scaled distance of the j-th point from the chord joining the first and last points. */
  function Score(pts: seq<Point>, j: nat): real
    requires j < |pts|
  {
    ScaledDist(pts[0], pts[|pts| - 1], pts[j])
  }

  /** `k` is the first index of `lo..hi` whose score is maximal. */
  ghost predicate IsFirstMax(pts: seq<Point>, lo: nat, hi: nat, k: nat)
    requires hi < |pts|
  {
    && lo <= k <= hi
    && (forall j :: lo <= j <= hi ==> Score(pts, j) <= Score(pts, k))
    && (forall j :: lo <= j < k ==> Score(pts, j) < Score(pts, k))
  }

  /** The scan of lines 56-65 over indices `i..hi`: `maxDist` starts at -1 and only a strictly
      larger distance replaces the current maximum, so the earliest maximiser wins. */
  function ScanMax(pts: seq<Point>, lo: nat, hi: nat, i: nat, maxDist: real, maxIndex: int): (k: nat)
    requires lo <= i <= hi + 1 <= |pts|
    requires i == lo ==> maxIndex == -1 && maxDist == -1.0
    requires i > lo ==> lo <= maxIndex < i && maxDist == Score(pts, maxIndex)
    requires forall j :: lo <= j < i ==> Score(pts, j) <= maxDist
    requires forall j :: lo <= j < maxIndex ==> Score(pts, j) < maxDist
    requires lo <= hi
    ensures IsFirstMax(pts, lo, hi, k)
    decreases hi + 1 - i
  {
    if i > hi then maxIndex
    else if Score(pts, i) > maxDist then ScanMax(pts, lo, hi, i + 1, Score(pts, i), i)
    else ScanMax(pts, lo, hi, i + 1, maxDist, maxIndex)
  }

  /** Two first maximisers of the same range are the same index. */
  lemma FirstMaxUnique(pts: seq<Point>, lo: nat, hi: nat, k: nat, k': nat)
    requires hi < |pts|
    requires IsFirstMax(pts, lo, hi, k) && IsFirstMax(pts, lo, hi, k')
    ensures k == k'
  {
    assert Score(pts, k) == Score(pts, k');
  }

  /** Which indices the maximum-distance scan visits. The source scans the whole list, endpoints
      included; the alternative scans interior points only. */
  datatype ScanRange = WholeList | InteriorOnly

  function ScanLo(scan: ScanRange): nat
  {
    if scan == WholeList then 0 else 1
  }

  function ScanHi(scan: ScanRange, n: nat): nat
    requires n >= 3
  {
    if scan == WholeList then n - 1 else n - 2
  }

  /** The point `pts[t]` lies within the tolerance of the chord from `pts[s]` to `pts[e]`. */
  predicate WithinChord(pts: seq<Point>, s: nat, e: nat, t: nat, tol: real)
    requires s < |pts| && e < |pts| && t < |pts|
  {
    Below(pts[s], pts[e], ScaledDist(pts[s], pts[e], pts[t]), tol)
  }

  /** One level of the recursion (lines 53-72): `None` when the farthest point is within the
      tolerance, so the list collapses to its chord; otherwise the index to split at, which is
      strictly inside the list whenever the recursion can make progress. `SplitChoice` states
      which index is chosen. */
  function SplitIndex(pts: seq<Point>, tol: real, scan: ScanRange): (r: Option<nat>)
    requires |pts| >= 3
    ensures r.Some? && (scan == InteriorOnly || tol > 0.0) ==> 0 < r.value < |pts| - 1
  {
    var n := |pts|;
    var lo, hi := ScanLo(scan), ScanHi(scan, n);
    var k := ScanMax(pts, lo, hi, lo, -1.0, -1);
    if NearChord(pts, k, tol) then None
    else
      BelowMonotone(pts[0], pts[n - 1], tol);
      assert Score(pts, 0) == 0.0 && Score(pts, n - 1) == 0.0;
      Some(k)
  }

  /** The list does not split exactly when every point lies within the tolerance of the chord;
      otherwise the split index is the first farthest point of the scan, and it is not within
      the tolerance. */
  lemma SplitChoice(pts: seq<Point>, tol: real, scan: ScanRange)
    requires |pts| >= 3
    ensures SplitIndex(pts, tol, scan).None? <==> forall t :: 0 <= t < |pts| ==> NearChord(pts, t, tol)
    ensures SplitIndex(pts, tol, scan).Some? ==>
              && IsFirstMax(pts, ScanLo(scan), ScanHi(scan, |pts|), SplitIndex(pts, tol, scan).value)
              && !NearChord(pts, SplitIndex(pts, tol, scan).value, tol)
  {
    var lo, hi := ScanLo(scan), ScanHi(scan, |pts|);
    var k := ScanMax(pts, lo, hi, lo, -1.0, -1);
    if NearChord(pts, k, tol) {
      MaxNearMeansAllNear(pts, lo, hi, k, tol);
    }
  }

  /** When the farthest point of the scan is near the chord, so is every point: the endpoints
      score zero and the scan covers every other index. */
  lemma MaxNearMeansAllNear(pts: seq<Point>, lo: nat, hi: nat, k: nat, tol: real)
    requires |pts| >= 3 && lo <= 1 && hi >= |pts| - 2 && hi < |pts|
    requires IsFirstMax(pts, lo, hi, k) && NearChord(pts, k, tol)
    ensures forall t :: 0 <= t < |pts| ==> NearChord(pts, t, tol)
  {
    var a, b := pts[0], pts[|pts| - 1];
    BelowMonotone(a, b, tol);
    forall t | 0 <= t < |pts|
      ensures NearChord(pts, t, tol)
    {
      if lo <= t <= hi {
        assert Score(pts, t) <= Score(pts, k);
      } else {
        assert Score(pts, t) == 0.0;
      }
    }
  }

  /** The point `pts[t]` lies within the tolerance of the chord joining the first and last points. */
  predicate NearChord(pts: seq<Point>, t: nat, tol: real)
    requires t < |pts|
  {
    Below(pts[0], pts[|pts| - 1], Score(pts, t), tol)
  }

  /** The tolerance test is downward closed in the scaled distance, and zero passes it exactly
      when the tolerance is positive. */
  lemma BelowMonotone(a: Point, b: Point, tol: real)
    ensures forall c, c' :: 0.0 <= c <= c' && Below(a, b, c', tol) ==> Below(a, b, c, tol)
    ensures Below(a, b, 0.0, tol) <==> tol > 0.0
  {
    forall c, c' | 0.0 <= c <= c' && Below(a, b, c', tol)
      ensures Below(a, b, c, tol)
    {
      MulStrict(c, c');
    }
    if tol > 0.0 && DenomSq(a, b) != 0.0 {
      var t2 := tol * tol;
      MulStrict(0.0, tol);
      assert t2 > 0.0;
      MulPos(t2, DenomSq(a, b));
      assert 0.0 * 0.0 == 0.0;
      assert Below(a, b, 0.0, tol);
    }
  }

  /** The recursion of lines 44-77 with the scan range as a parameter. Lists of at most two points
      are returned unchanged; a list whose points all lie near the chord collapses to its two ends;
      otherwise both halves around the split point are simplified and joined, the second half's
      copy of the split point being dropped. The split index is interior whenever the scan is
      interior-only or the tolerance is positive, so both halves are shorter. */
  function Rdp(pts: seq<Point>, tol: real, scan: ScanRange): (r: seq<Point>)
    requires scan == InteriorOnly || tol > 0.0
    ensures |pts| <= 2 ==> r == pts
    ensures |pts| >= 2 ==> 2 <= |r| <= |pts| && r[0] == pts[0] && r[|r| - 1] == pts[|pts| - 1]
    decreases |pts|, 1
  {
    if |pts| <= 2 then pts else RdpAt(pts, tol, scan, SplitIndex(pts, tol, scan))
  }

  /** One level of the recursion once the split decision `split` is known. The two halves are
      values, as if the source copied its `subList` views (lines 74-75) before recursing. */
  function RdpAt(pts: seq<Point>, tol: real, scan: ScanRange, split: Option<nat>): (r: seq<Point>)
    requires scan == InteriorOnly || tol > 0.0
    requires |pts| >= 3 && (split.Some? ==> 0 < split.value < |pts| - 1)
    ensures 2 <= |r| <= |pts| && r[0] == pts[0] && r[|r| - 1] == pts[|pts| - 1]
    decreases |pts|, 0
  {
    match split
    case None => [pts[0], pts[|pts| - 1]]
    case Some(k) =>
      var left := Rdp(pts[..k + 1], tol, scan);
      var right := Rdp(pts[k..], tol, scan);
      assert right[|right| - 1] == pts[|pts| - 1] by {
        assert pts[k..][|pts| - 1 - k] == pts[|pts| - 1];
      }
      JoinEnds(left, right);
      left + right[1..]
  }

  /** A join starts where its first part starts and ends where its second part ends. */
  lemma JoinEnds(a: seq<Point>, b: seq<Point>)
    requires |a| >= 1 && |b| >= 2
    ensures |a + b[1..]| == |a| + |b| - 1
    ensures (a + b[1..])[0] == a[0] && (a + b[1..])[|a| + |b| - 2] == b[|b| - 1]
  {
  }

  /** `simplify` as written: the scan covers the whole list. A positive tolerance is needed for
      the recursion to terminate (see `NonPositiveTolStalls`). A list of three or more points
      collapses to its two ends exactly when every point lies within the tolerance of the chord. */
  function Simplify(pts: seq<Point>, tol: real): (r: seq<Point>)
    requires tol > 0.0
    ensures |pts| >= 3 ==> (|r| == 2 <==> forall t :: 0 <= t < |pts| ==> NearChord(pts, t, tol))
  {
    if |pts| >= 3 then CollapsesIffAllNear(pts, tol, WholeList); Rdp(pts, tol, WholeList)
    else Rdp(pts, tol, WholeList)
  }

  /** The corrected simplifier: the scan skips the endpoints, so it terminates for every tolerance,
      and a non-positive tolerance keeps every point. */
  function SimplifyInteriorScan(pts: seq<Point>, tol: real): (r: seq<Point>)
    ensures tol <= 0.0 ==> r == pts
  {
    if tol <= 0.0 then NonPositiveToleranceKeepsAll(pts, tol); Rdp(pts, tol, InteriorOnly)
    else Rdp(pts, tol, InteriorOnly)
  }

  lemma CollapsesIffAllNear(pts: seq<Point>, tol: real, scan: ScanRange)
    requires |pts| >= 3
    requires scan == InteriorOnly || tol > 0.0
    ensures |Rdp(pts, tol, scan)| == 2 <==> forall t :: 0 <= t < |pts| ==> NearChord(pts, t, tol)
    ensures (forall t :: 0 <= t < |pts| ==> NearChord(pts, t, tol))
        ==> Rdp(pts, tol, scan) == [pts[0], pts[|pts| - 1]]
  {
    SplitChoice(pts, tol, scan);
    match SplitIndex(pts, tol, scan)
    case None =>
    case Some(k) =>
      var left := Rdp(pts[..k + 1], tol, scan);
      var right := Rdp(pts[k..], tol, scan);
      assert |left| >= 2 && |right| >= 2;
  }

  /** With a non-positive tolerance and an interior-only scan no point is ever within the
      tolerance, so every point is kept. */
  lemma {:induction false} NonPositiveToleranceKeepsAll(pts: seq<Point>, tol: real)
    requires tol <= 0.0
    ensures Rdp(pts, tol, InteriorOnly) == pts
    decreases |pts|
  {
    if |pts| >= 3 {
      var k := NonPositiveToleranceSplits(pts, tol);
      RdpUnfoldSplit(pts, tol, InteriorOnly, k);
      var left, right := pts[..k + 1], pts[k..];
      NonPositiveToleranceKeepsAll(left, tol);
      NonPositiveToleranceKeepsAll(right, tol);
      SplitRejoins(pts, k);
    }
  }

  /** The two halves around a split point, the second without its copy of it, rebuild the list. */
  lemma SplitRejoins(pts: seq<Point>, k: nat)
    requires k < |pts|
    ensures pts[..k + 1] + pts[k..][1..] == pts
  {
    assert pts[k..][1..] == pts[k + 1..];
  }

  /** A non-positive tolerance admits no point, so every list of three or more points splits. */
  lemma NonPositiveToleranceSplits(pts: seq<Point>, tol: real) returns (k: nat)
    requires |pts| >= 3 && tol <= 0.0
    ensures SplitIndex(pts, tol, InteriorOnly) == Some(k)
  {
    BelowMonotone(pts[0], pts[|pts| - 1], tol);
    assert !NearChord(pts, 0, tol);
    SplitChoice(pts, tol, InteriorOnly);
    k := SplitIndex(pts, tol, InteriorOnly).value;
  }

  /** The model of `simplify` as written, on a non-positive tolerance: when every point lies on
      the chord, the whole-list scan picks index 0, so the second recursive call (line 75)
      receives the unchanged list and the recursion never ends. */
  lemma NonPositiveTolStalls(pts: seq<Point>, tol: real)
    requires |pts| >= 3 && tol <= 0.0
    requires forall t :: 0 <= t < |pts| ==> Score(pts, t) == 0.0
    ensures SplitIndex(pts, tol, WholeList) == Some(0)
    ensures pts[SplitIndex(pts, tol, WholeList).value..] == pts
  {
    BelowMonotone(pts[0], pts[|pts| - 1], tol);
    assert !NearChord(pts, 0, tol);
    SplitChoice(pts, tol, WholeList);
    var k := SplitIndex(pts, tol, WholeList).value;
    assert Score(pts, k) == 0.0;
  }

  /** A concrete input on which the source recurses forever: three points on the x-axis and a
      zero tolerance. */
  lemma CollinearTripleStalls()
    ensures var pts := [Point(0.0, 0.0), Point(1.0, 0.0), Point(2.0, 0.0)];
      SplitIndex(pts, 0.0, WholeList) == Some(0) && pts[SplitIndex(pts, 0.0, WholeList).value..] == pts
  {
    var pts := [Point(0.0, 0.0), Point(1.0, 0.0), Point(2.0, 0.0)];
    OnHorizontalLineScoresZero(pts);
    NonPositiveTolStalls(pts, 0.0);
  }

  /** Every point of a list lying on one horizontal line is on the chord. */
  lemma OnHorizontalLineScoresZero(pts: seq<Point>)
    requires |pts| > 0
    requires forall t :: 0 <= t < |pts| ==> pts[t].y == pts[0].y
    ensures forall t :: 0 <= t < |pts| ==> Score(pts, t) == 0.0
  {
    forall t | 0 <= t < |pts|
      ensures Score(pts, t) == 0.0
    {
      var a, b, p := pts[0], pts[|pts| - 1], pts[t];
      assert Cross(a, b, p) == (b.y - a.y) * p.x - (b.x - a.x) * p.y + b.x * a.y - b.y * a.x;
      assert b.y == a.y && p.y == a.y;
      assert Cross(a, b, p) == 0.0;
    }
  }

  /** For a positive tolerance the whole-list scan and the interior-only scan split at the same
      index: the endpoints score zero, so a maximum large enough to split lies inside. */
  lemma SplitScansAgree(pts: seq<Point>, tol: real)
    requires |pts| >= 3 && tol > 0.0
    ensures SplitIndex(pts, tol, WholeList) == SplitIndex(pts, tol, InteriorOnly)
  {
    var rw, ri := SplitIndex(pts, tol, WholeList), SplitIndex(pts, tol, InteriorOnly);
    SplitChoice(pts, tol, WholeList);
    SplitChoice(pts, tol, InteriorOnly);
    if rw.Some? && ri.Some? {
      var n := |pts|;
      assert IsFirstMax(pts, 1, n - 2, rw.value) by {
        assert IsFirstMax(pts, 0, n - 1, rw.value);
      }
      FirstMaxUnique(pts, 1, n - 2, rw.value, ri.value);
    }
  }

  /** The corrected simplifier computes the same result as the source on every positive tolerance. */
  lemma InteriorScanAgrees(pts: seq<Point>, tol: real)
    requires tol > 0.0
    ensures Simplify(pts, tol) == SimplifyInteriorScan(pts, tol)
    ensures Rdp(pts, tol, WholeList) == Rdp(pts, tol, InteriorOnly)
  {
    RdpScansAgree(pts, tol);
  }

  lemma {:induction false} RdpScansAgree(pts: seq<Point>, tol: real)
    requires tol > 0.0
    ensures Rdp(pts, tol, WholeList) == Rdp(pts, tol, InteriorOnly)
    decreases |pts|
  {
    if |pts| >= 3 {
      SplitScansAgree(pts, tol);
      match SplitIndex(pts, tol, WholeList)
      case None =>
        RdpUnfoldCollapse(pts, tol, WholeList);
        RdpUnfoldCollapse(pts, tol, InteriorOnly);
      case Some(k) =>
        RdpScansAgree(pts[..k + 1], tol);
        RdpScansAgree(pts[k..], tol);
        RdpUnfoldSplit(pts, tol, WholeList, k);
        RdpUnfoldSplit(pts, tol, InteriorOnly, k);
    }
  }

  /** `idx` lists strictly increasing positions of `pts` whose points, in order, form `r`. */
  ghost predicate IsSelection(pts: seq<Point>, r: seq<Point>, idx: seq<nat>)
  {
    && |idx| == |r|
    && (forall i :: 0 <= i < |idx| ==> idx[i] < |pts| && pts[idx[i]] == r[i])
    && (forall i, j :: 0 <= i < j < |idx| ==> idx[i] < idx[j])
  }

  /** Every point strictly between the i-th and the next kept position lies within the tolerance
      of the chord joining them. */
  ghost predicate GapNear(pts: seq<Point>, s: nat, e: nat, tol: real)
    requires s < |pts| && e < |pts|
  {
    forall t :: s < t < e ==> WithinChord(pts, s, e, t, tol)
  }

  ghost predicate ChordsCover(pts: seq<Point>, idx: seq<nat>, tol: real)
    requires forall i :: 0 <= i < |idx| ==> idx[i] < |pts|
  {
    forall i :: 0 <= i < |idx| - 1 ==> GapNear(pts, idx[i], idx[i + 1], tol)
  }

  /** The result is the input restricted to a set of kept positions that includes both ends, so
      it is an order-preserving subsequence no longer than the input in which every point occurs
      once per kept position; and every dropped point is within the tolerance of the chord joining
      the kept points around it. */
  lemma {:induction false} RdpSelects(pts: seq<Point>, tol: real, scan: ScanRange) returns (idx: seq<nat>)
    requires scan == InteriorOnly || tol > 0.0
    ensures IsSelection(pts, Rdp(pts, tol, scan), idx)
    ensures |pts| > 0 ==> |idx| > 0 && idx[0] == 0 && idx[|idx| - 1] == |pts| - 1
    ensures ChordsCover(pts, idx, tol)
    decreases |pts|, 1
  {
    if |pts| <= 2 {
      idx := ShortSelects(pts, tol, scan);
    } else if SplitIndex(pts, tol, scan).None? {
      idx := CollapseSelects(pts, tol, scan);
    } else {
      idx := SplitSelects(pts, tol, scan, SplitIndex(pts, tol, scan).value);
    }
  }

  /** The selection of a list that splits at `k`: the selections of the two halves, glued. */
  lemma {:induction false} SplitSelects(pts: seq<Point>, tol: real, scan: ScanRange, k: nat)
    returns (idx: seq<nat>)
    requires scan == InteriorOnly || tol > 0.0
    requires |pts| >= 3 && SplitIndex(pts, tol, scan) == Some(k)
    ensures IsSelection(pts, Rdp(pts, tol, scan), idx)
    ensures |idx| > 0 && idx[0] == 0 && idx[|idx| - 1] == |pts| - 1
    ensures ChordsCover(pts, idx, tol)
    decreases |pts|, 0
  {
    RdpUnfoldSplit(pts, tol, scan, k);
    var left, right := pts[..k + 1], pts[k..];
    SplitChoice(pts, tol, scan);
    var idxL := RdpSelects(left, tol, scan);
    var idxR := RdpSelects(right, tol, scan);
    var rL, rR := Rdp(left, tol, scan), Rdp(right, tol, scan);
    idx := JoinSelections(pts, k, tol, rL, rR, idxL, idxR);
  }

  lemma RdpUnfoldSplit(pts: seq<Point>, tol: real, scan: ScanRange, k: nat)
    requires scan == InteriorOnly || tol > 0.0
    requires |pts| >= 3 && SplitIndex(pts, tol, scan) == Some(k)
    ensures 0 < k < |pts| - 1
    ensures Rdp(pts, tol, scan) == Rdp(pts[..k + 1], tol, scan) + Rdp(pts[k..], tol, scan)[1..]
  {
  }

  /** `RdpUnfoldSplit` with the two halves named. */
  lemma RdpUnfoldSplitInto(pts: seq<Point>, tol: real, scan: ScanRange, k: nat,
                           left: seq<Point>, right: seq<Point>)
    requires scan == InteriorOnly || tol > 0.0
    requires |pts| >= 3 && SplitIndex(pts, tol, scan) == Some(k)
    requires k < |pts| && left == pts[..k + 1] && right == pts[k..]
    ensures Rdp(pts, tol, scan) == Rdp(left, tol, scan) + Rdp(right, tol, scan)[1..]
  {
    RdpUnfoldSplit(pts, tol, scan, k);
  }

  lemma RdpUnfoldCollapse(pts: seq<Point>, tol: real, scan: ScanRange)
    requires scan == InteriorOnly || tol > 0.0
    requires |pts| >= 3 && SplitIndex(pts, tol, scan).None?
    ensures Rdp(pts, tol, scan) == [pts[0], pts[|pts| - 1]]
  {
  }

  lemma ShortSelects(pts: seq<Point>, tol: real, scan: ScanRange) returns (idx: seq<nat>)
    requires |pts| <= 2
    requires scan == InteriorOnly || tol > 0.0
    ensures IsSelection(pts, Rdp(pts, tol, scan), idx)
    ensures |pts| > 0 ==> |idx| > 0 && idx[0] == 0 && idx[|idx| - 1] == |pts| - 1
    ensures ChordsCover(pts, idx, tol)
  {
    idx := seq(|pts|, i => i);
  }

  lemma CollapseSelects(pts: seq<Point>, tol: real, scan: ScanRange) returns (idx: seq<nat>)
    requires |pts| >= 3 && SplitIndex(pts, tol, scan).None?
    requires scan == InteriorOnly || tol > 0.0
    ensures IsSelection(pts, Rdp(pts, tol, scan), idx)
    ensures idx[0] == 0 && idx[|idx| - 1] == |pts| - 1
    ensures ChordsCover(pts, idx, tol)
  {
    idx := [0, |pts| - 1];
    SplitChoice(pts, tol, scan);
    AllNearCoversChord(pts, tol);
  }

  lemma AllNearCoversChord(pts: seq<Point>, tol: real)
    requires |pts| >= 2
    requires forall t :: 0 <= t < |pts| ==> NearChord(pts, t, tol)
    ensures GapNear(pts, 0, |pts| - 1, tol)
  {
    var e := |pts| - 1;
    forall t | 0 < t < e
      ensures WithinChord(pts, 0, e, t, tol)
    {
      assert NearChord(pts, t, tol);
    }
  }

  /** Gluing the selections of the two halves around the split index `k`. */
  lemma JoinSelections(pts: seq<Point>, k: nat, tol: real, rL: seq<Point>, rR: seq<Point>,
                       idxL: seq<nat>, idxR: seq<nat>) returns (idx: seq<nat>)
    requires 0 < k < |pts| - 1
    requires IsSelection(pts[..k + 1], rL, idxL) && IsSelection(pts[k..], rR, idxR)
    requires |idxL| > 0 && idxL[0] == 0 && idxL[|idxL| - 1] == k
    requires |idxR| > 1 && idxR[0] == 0 && idxR[|idxR| - 1] == |pts| - 1 - k
    requires ChordsCover(pts[..k + 1], idxL, tol) && ChordsCover(pts[k..], idxR, tol)
    ensures IsSelection(pts, rL + rR[1..], idx)
    ensures idx[0] == 0 && idx[|idx| - 1] == |pts| - 1
    ensures ChordsCover(pts, idx, tol)
  {
    idx := idxL + Shifted(idxR, k);
    JoinedPositions(pts, k, rL, rR, idxL, idxR);
    JoinedOrder(pts, k, rL, rR, idxL, idxR);
    JoinedCover(pts, k, tol, idxL, idxR);
  }

  /** The positions of the second half's selection after its first, as positions of the whole. */
  function Shifted(idxR: seq<nat>, k: nat): (r: seq<nat>)
    requires |idxR| > 0
    ensures |r| == |idxR| - 1
    ensures forall i :: 0 <= i < |r| ==> r[i] == idxR[i + 1] + k
  {
    seq(|idxR| - 1, i requires 0 <= i < |idxR| - 1 => idxR[i + 1] + k)
  }

  lemma JoinedPositions(pts: seq<Point>, k: nat, rL: seq<Point>, rR: seq<Point>,
                        idxL: seq<nat>, idxR: seq<nat>)
    requires 0 < k < |pts| - 1
    requires IsSelection(pts[..k + 1], rL, idxL) && IsSelection(pts[k..], rR, idxR)
    requires |idxR| > 1
    ensures var idx, r := idxL + Shifted(idxR, k), rL + rR[1..];
            |idx| == |r| && forall i :: 0 <= i < |idx| ==> idx[i] < |pts| && pts[idx[i]] == r[i]
  {
    var left, right := pts[..k + 1], pts[k..];
    var m := |idxL|;
    var idx, r := idxL + Shifted(idxR, k), rL + rR[1..];
    forall i | 0 <= i < |idx|
      ensures idx[i] < |pts| && pts[idx[i]] == r[i]
    {
      if i < m {
        assert left[idxL[i]] == pts[idxL[i]];
      } else {
        assert idx[i] == idxR[i - m + 1] + k;
        assert right[idxR[i - m + 1]] == pts[idxR[i - m + 1] + k];
      }
    }
  }

  lemma JoinedOrder(pts: seq<Point>, k: nat, rL: seq<Point>, rR: seq<Point>,
                    idxL: seq<nat>, idxR: seq<nat>)
    requires 0 < k < |pts| - 1
    requires IsSelection(pts[..k + 1], rL, idxL) && IsSelection(pts[k..], rR, idxR)
    requires |idxL| > 0 && idxL[|idxL| - 1] == k
    requires |idxR| > 1 && idxR[0] == 0
    ensures var idx := idxL + Shifted(idxR, k);
            forall i, j :: 0 <= i < j < |idx| ==> idx[i] < idx[j]
  {
    var m := |idxL|;
    var idx := idxL + Shifted(idxR, k);
    forall i, j | 0 <= i < j < |idx|
      ensures idx[i] < idx[j]
    {
      if j < m {
      } else if i < m {
        assert idx[i] <= k by {
          if i < m - 1 {
            assert idxL[i] < idxL[m - 1];
          }
        }
        assert idxR[0] < idxR[j - m + 1];
      } else {
        assert idxR[i - m + 1] < idxR[j - m + 1];
      }
    }
  }

  lemma JoinedCover(pts: seq<Point>, k: nat, tol: real, idxL: seq<nat>, idxR: seq<nat>)
    requires 0 < k < |pts| - 1
    requires forall i :: 0 <= i < |idxL| ==> idxL[i] < k + 1
    requires forall i :: 0 <= i < |idxR| ==> idxR[i] < |pts| - k
    requires |idxL| > 0 && idxL[|idxL| - 1] == k
    requires |idxR| > 1 && idxR[0] == 0
    requires ChordsCover(pts[..k + 1], idxL, tol) && ChordsCover(pts[k..], idxR, tol)
    ensures var idx := idxL + Shifted(idxR, k);
            (forall i :: 0 <= i < |idx| ==> idx[i] < |pts|) && ChordsCover(pts, idx, tol)
  {
    var left, right := pts[..k + 1], pts[k..];
    var m := |idxL|;
    var idx := idxL + Shifted(idxR, k);
    forall i | 0 <= i < |idx| - 1
      ensures GapNear(pts, idx[i], idx[i + 1], tol)
    {
      var s, e := idx[i], idx[i + 1];
      if i < m - 1 {
        assert GapNear(left, idxL[i], idxL[i + 1], tol);
        forall t | s < t < e
          ensures WithinChord(pts, s, e, t, tol)
        {
          assert WithinChord(left, s, e, t, tol);
        }
      } else {
        var i' := i - m + 1;
        var s', e' := idxR[i'], idxR[i' + 1];
        assert s == s' + k && e == e' + k;
        assert GapNear(right, s', e', tol);
        forall t | s < t < e
          ensures WithinChord(pts, s, e, t, tol)
        {
          assert WithinChord(right, s', e', t - k, tol);
          assert right[s'] == pts[s] && right[e'] == pts[e] && right[t - k] == pts[t];
        }
      }
    }
  }

  /** Simplifying a simplified list changes nothing: every point the first pass kept is kept
      again. */
  lemma SimplifyIdempotent(pts: seq<Point>, tol: real)
    requires tol > 0.0
    ensures Simplify(Simplify(pts, tol), tol) == Simplify(pts, tol)
  {
    RdpIdempotent(pts, tol, WholeList);
  }

  lemma {:induction false} RdpIdempotent(pts: seq<Point>, tol: real, scan: ScanRange)
    requires scan == InteriorOnly || tol > 0.0
    ensures Rdp(Rdp(pts, tol, scan), tol, scan) == Rdp(pts, tol, scan)
    decreases |pts|
  {
    if |pts| >= 3 {
      match SplitIndex(pts, tol, scan)
      case None =>
      case Some(k) =>
        var left, right := pts[..k + 1], pts[k..];
        RdpIdempotent(left, tol, scan);
        RdpIdempotent(right, tol, scan);
        IdempotentStep(pts, tol, scan, k, Rdp(left, tol, scan), Rdp(right, tol, scan));
    }
  }

  /** The inductive step of `RdpIdempotent`: if the simplified halves `a` and `b` around the split
      are fixed by a second pass, so is their join. */
  lemma IdempotentStep(pts: seq<Point>, tol: real, scan: ScanRange, k: nat, a: seq<Point>, b: seq<Point>)
    requires scan == InteriorOnly || tol > 0.0
    requires |pts| >= 3 && SplitIndex(pts, tol, scan) == Some(k)
    requires a == Rdp(pts[..k + 1], tol, scan) && b == Rdp(pts[k..], tol, scan)
    requires Rdp(a, tol, scan) == a && Rdp(b, tol, scan) == b
    ensures Rdp(pts, tol, scan) == a + b[1..]
    ensures Rdp(a + b[1..], tol, scan) == a + b[1..]
  {
    RdpUnfoldSplitInto(pts, tol, scan, k, pts[..k + 1], pts[k..]);
    ResultSplitsAtKept(pts, tol, scan, k, a, b);
    RdpOfJoin(a, b, tol, scan);
  }

  /** A joined list that splits at its joining point simplifies to the join of the simplified
      halves. */
  lemma RdpOfJoin(a: seq<Point>, b: seq<Point>, tol: real, scan: ScanRange)
    requires scan == InteriorOnly || tol > 0.0
    requires |a| >= 2 && |b| >= 2 && a[|a| - 1] == b[0]
    requires |a + b[1..]| >= 3 && SplitIndex(a + b[1..], tol, scan) == Some(|a| - 1)
    ensures Rdp(a + b[1..], tol, scan) == Rdp(a, tol, scan) + Rdp(b, tol, scan)[1..]
  {
    JoinedHalves(a, b);
    RdpUnfoldSplitInto(a + b[1..], tol, scan, |a| - 1, a, b);
  }

  /** The two halves of a joined list around the joining point are the lists that were joined. */
  lemma JoinedHalves(a: seq<Point>, b: seq<Point>)
    requires |a| >= 1 && |b| >= 1 && a[|a| - 1] == b[0]
    ensures (a + b[1..])[..|a|] == a && (a + b[1..])[|a| - 1..] == b
  {
    var r := a + b[1..];
    assert r[..|a|] == a;
    assert r[|a| - 1..] == b;
  }

  /** When a list splits at `k`, the joined result of the two halves splits at the position of
      the kept copy of `pts[k]`: it has the same chord, and the points kept before that copy come
      from positions before `k`, so they score strictly less, while every other kept point scores
      at most as much. */
  lemma ResultSplitsAtKept(pts: seq<Point>, tol: real, scan: ScanRange, k: nat,
                           a: seq<Point>, b: seq<Point>)
    requires scan == InteriorOnly || tol > 0.0
    requires |pts| >= 3 && SplitIndex(pts, tol, scan) == Some(k)
    requires a == Rdp(pts[..k + 1], tol, scan) && b == Rdp(pts[k..], tol, scan)
    ensures |a + b[1..]| >= 3 && SplitIndex(a + b[1..], tol, scan) == Some(|a| - 1)
  {
    var idxL := RdpSelects(pts[..k + 1], tol, scan);
    var idxR := RdpSelects(pts[k..], tol, scan);
    SelectedJoinSplits(pts, tol, scan, k, a, b, idxL, idxR);
  }

  /** `ResultSplitsAtKept` for any selections `a` and `b` of the two halves that keep their ends. */
  lemma SelectedJoinSplits(pts: seq<Point>, tol: real, scan: ScanRange, k: nat, a: seq<Point>,
                           b: seq<Point>, idxL: seq<nat>, idxR: seq<nat>)
    requires scan == InteriorOnly || tol > 0.0
    requires |pts| >= 3 && SplitIndex(pts, tol, scan) == Some(k)
    requires IsSelection(pts[..k + 1], a, idxL) && IsSelection(pts[k..], b, idxR)
    requires |a| >= 2 && idxL[0] == 0 && idxL[|a| - 1] == k
    requires |b| >= 2 && idxR[0] == 0 && idxR[|b| - 1] == |pts| - 1 - k
    ensures |a + b[1..]| >= 3 && SplitIndex(a + b[1..], tol, scan) == Some(|a| - 1)
  {
    var r, m := a + b[1..], |a| - 1;
    SplitChoice(pts, tol, scan);
    JoinedFirstMax(pts, scan, k, a, b, idxL, idxR);
    assert !NearChord(r, m, tol) by {
      assert !NearChord(pts, k, tol);
    }
    SplitChoice(r, tol, scan);
    var v := SplitIndex(r, tol, scan).value;
    FirstMaxUnique(r, ScanLo(scan), ScanHi(scan, |r|), m, v);
  }

  /** The ranking half of `ResultSplitsAtKept`, for any selections of the two halves. */
  lemma JoinedFirstMax(pts: seq<Point>, scan: ScanRange, k: nat, a: seq<Point>, b: seq<Point>,
                       idxL: seq<nat>, idxR: seq<nat>)
    requires 0 < k < |pts| - 1
    requires IsFirstMax(pts, ScanLo(scan), ScanHi(scan, |pts|), k)
    requires IsSelection(pts[..k + 1], a, idxL) && IsSelection(pts[k..], b, idxR)
    requires |a| >= 2 && idxL[0] == 0 && idxL[|a| - 1] == k
    requires |b| >= 2 && idxR[0] == 0 && idxR[|b| - 1] == |pts| - 1 - k
    ensures var r := a + b[1..];
            && |r| >= 3 && r[0] == pts[0] && r[|r| - 1] == pts[|pts| - 1] && r[|a| - 1] == pts[k]
            && IsFirstMax(r, ScanLo(scan), ScanHi(scan, |r|), |a| - 1)
  {
    var n := |pts|;
    var r, m := a + b[1..], |a| - 1;
    var lo, hi, hiR := ScanLo(scan), ScanHi(scan, n), ScanHi(scan, |r|);
    assert r[0] == pts[0];
    assert r[|r| - 1] == b[|b| - 1] == pts[n - 1];
    assert r[m] == pts[k];
    assert Score(r, m) == Score(pts, k);
    forall j | lo <= j <= hiR
      ensures Score(r, j) <= Score(r, m)
      ensures j < m ==> Score(r, j) < Score(r, m)
    {
      if j < m {
        var t := idxL[j];
        assert idxL[j] < idxL[m];
        assert r[j] == pts[t];
        assert j > 0 ==> idxL[0] < idxL[j];
        assert lo <= t < k;
        assert Score(pts, t) < Score(pts, k);
        assert Score(r, j) == Score(pts, t);
      } else {
        var t := k + idxR[j - m];
        assert r[j] == b[j - m] == pts[t];
        assert j - m < |b| - 1 ==> idxR[j - m] < idxR[|b| - 1];
        assert k <= t <= hi;
        assert Score(pts, t) <= Score(pts, k);
        assert Score(r, j) == Score(pts, t);
      }
    }
  }

  /** A larger tolerance never keeps more points. */
  lemma SimplifyMonotone(pts: seq<Point>, t1: real, t2: real)
    requires 0.0 < t1 <= t2
    ensures |Simplify(pts, t2)| <= |Simplify(pts, t1)|
  {
    RdpMonotone(pts, t1, t2, WholeList);
  }

  lemma {:induction false} RdpMonotone(pts: seq<Point>, t1: real, t2: real, scan: ScanRange)
    requires 0.0 < t1 <= t2
    ensures |Rdp(pts, t2, scan)| <= |Rdp(pts, t1, scan)|
    decreases |pts|
  {
    if |pts| >= 3 {
      match SplitIndex(pts, t2, scan)
      case None =>
      case Some(k) =>
        SameSplit(pts, t1, t2, scan, k);
        RdpUnfoldSplit(pts, t1, scan, k);
        RdpUnfoldSplit(pts, t2, scan, k);
        RdpMonotone(pts[..k + 1], t1, t2, scan);
        RdpMonotone(pts[k..], t1, t2, scan);
    }
  }

  /** A point that splits the list under the larger tolerance also splits it under the smaller:
      the split index is the first maximiser of the scan whatever the tolerance. */
  lemma SameSplit(pts: seq<Point>, t1: real, t2: real, scan: ScanRange, k: nat)
    requires 0.0 < t1 <= t2
    requires |pts| >= 3 && SplitIndex(pts, t2, scan) == Some(k)
    ensures SplitIndex(pts, t1, scan) == Some(k)
  {
    SplitChoice(pts, t2, scan);
    SplitChoice(pts, t1, scan);
    BelowGrows(pts[0], pts[|pts| - 1], Score(pts, k), t1, t2);
    assert !NearChord(pts, k, t1);
    var k1 := SplitIndex(pts, t1, scan).value;
    FirstMaxUnique(pts, ScanLo(scan), ScanHi(scan, |pts|), k, k1);
  }

  /** The tolerance test passes for every larger tolerance once it passes. */
  lemma BelowGrows(a: Point, b: Point, c: real, t1: real, t2: real)
    requires 0.0 < t1 <= t2
    ensures Below(a, b, c, t1) ==> Below(a, b, c, t2)
  {
    MulStrict(t1, t2);
    var d := DenomSq(a, b);
    assert (t2 * t2 - t1 * t1) * d >= 0.0;
    assert t2 * t2 * d - t1 * t1 * d == (t2 * t2 - t1 * t1) * d;
  }
}
