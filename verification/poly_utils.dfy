/** Even-odd ray casting over integer vertex coordinates (`PolyUtils.polygonContainsPoint`).
    Java `int` arithmetic is modelled by unbounded integers under a vertex-coordinate bound that keeps
    every intermediate value inside the 32-bit range, and Java's truncating division is written out. */
module PolyUtils {

  const IntMin: int := -0x8000_0000
  const IntMax: int := 0x7fff_ffff

  /** Largest coordinate magnitude for which no intermediate of the crossing test overflows. */
  const CoordLimit: int := 0x4000

  predicate IsInt32(v: int)
  {
    IntMin <= v <= IntMax
  }

  predicate InLimit(v: int)
  {
    -CoordLimit <= v <= CoordLimit
  }

  function AbsInt(v: int): (r: nat)
    ensures r == v || r == -v
  {
    if v < 0 then -v else v
  }

  /** Java's `/` on `int`: the quotient of the magnitudes, negated when the signs differ. */
  function JavaDiv(a: int, b: int): int
    requires b != 0
  {
    var m := AbsInt(a) / AbsInt(b);
    if (a < 0) == (b < 0) then m else -m
  }

  /** Java's quotient is truncated toward zero: the remainder is smaller than the divisor in
      magnitude and is either zero or has the sign of the dividend (Dafny's own `/` is Euclidean,
      whose remainder is never negative). These properties determine the quotient uniquely. */
  lemma JavaDivTruncates(a: int, b: int)
    requires b != 0
    ensures var r := a - JavaDiv(a, b) * b;
      AbsInt(r) < AbsInt(b) && (r == 0 || (r > 0 <==> a > 0))
    ensures AbsInt(JavaDiv(a, b)) <= AbsInt(a)
  {
    DivisionOfMagnitudes(a, b);
    QuotientMagnitude(a, b);
  }

  lemma QuotientMagnitude(a: int, b: int)
    requires b != 0
    ensures AbsInt(JavaDiv(a, b)) <= AbsInt(a)
  {
    var n, d := AbsInt(a), AbsInt(b);
    var m: nat := n / d;
    assert AbsInt(JavaDiv(a, b)) == m;
    assert m * d <= n by {
      assert n == m * d + n % d;
    }
    NatLeMul(m, d);
  }

  lemma NatLeMul(m: nat, d: int)
    requires d >= 1
    ensures m <= m * d
  {
    assert m * d == m + m * (d - 1);
  }

  /** The remainder left by `JavaDiv` is the remainder of the magnitudes, with the dividend's sign. */
  lemma DivisionOfMagnitudes(a: int, b: int)
    requires b != 0
    ensures a - JavaDiv(a, b) * b == (if a < 0 then -(AbsInt(a) % AbsInt(b)) else AbsInt(a) % AbsInt(b))
    ensures AbsInt(a) == (AbsInt(a) / AbsInt(b)) * AbsInt(b) + AbsInt(a) % AbsInt(b)
    ensures 0 <= AbsInt(a) % AbsInt(b) < AbsInt(b)
  {
    var m, n, d := AbsInt(a) / AbsInt(b), AbsInt(a) % AbsInt(b), AbsInt(b);
    assert AbsInt(a) == m * d + n;
    var q := JavaDiv(a, b);
    var sa := if a < 0 then -1 else 1;
    assert a == sa * (m * d + n);
    assert q * b == sa * (m * d) by {
      if (a < 0) == (b < 0) {
        assert q == m;
        assert b == sa * d;
      } else {
        assert q == -m;
        assert b == -sa * d;
      }
    }
  }

  /** The crossing test applied to the edge from vertex j to vertex i (lines 15-17): the edge
      straddles the horizontal line through the test point, and the test point lies left of the
      intersection. The quotient is only evaluated once the edge straddles the line, so its
      divisor is non-zero. A crossing edge is never horizontal, it counts its lower endpoint but
      not its upper one, and it has an endpoint right of the test point; an edge that straddles
      the line with both endpoints right of the test point always crosses. */
  predicate EdgeCrosses(xi: int, yi: int, xj: int, yj: int, testX: int, testY: int): (r: bool)
    ensures r ==> yi != yj
    ensures r ==> if yi < yj then yi <= testY < yj else yj <= testY < yi
    ensures r ==> testX < xi || testX < xj
    ensures (yi > testY) != (yj > testY) && testX < xi && testX < xj ==> r
  {
    && (yi > testY) != (yj > testY)
    && (CrossingBetween(xi, yi, xj, yj, testY);
        testX < JavaDiv((xj - xi) * (testY - yi), yj - yi) + xi)
  }

  /** For an edge that straddles `testY`, the crossing abscissa the test computes lies between
      the edge's two x coordinates: the fraction `(testY - yi) / (yj - yi)` is in [0, 1), and
      truncation moves the quotient toward zero, that is toward `xi`. */
  lemma CrossingBetween(xi: int, yi: int, xj: int, yj: int, testY: int)
    requires (yi > testY) != (yj > testY)
    ensures var x := JavaDiv((xj - xi) * (testY - yi), yj - yi) + xi;
            (xi <= x <= xj) || (xj <= x <= xi)
  {
    var a, b, d := xj - xi, testY - yi, yj - yi;
    QuotientBetween(a, b, d, a * b);
  }

  /** When `b / d` is a fraction in [0, 1], the truncated quotient `(a * b) / d` lies between 0
      and `a`. */
  lemma QuotientBetween(a: int, b: int, d: int, p: int)
    requires d != 0 && p == a * b
    requires AbsInt(b) <= AbsInt(d) && (b == 0 || (b < 0) == (d < 0))
    ensures 0 <= JavaDiv(p, d) <= a || a <= JavaDiv(p, d) <= 0
  {
    QuotientMagnitudeAndSign(a, b, d, p);
    SignedBetween(JavaDiv(p, d), AbsInt(p) / AbsInt(d), a, (p < 0) == (d < 0));
  }

  /** The magnitude of the quotient is at most that of `a`, and a non-zero quotient has the sign
      of the dividend, which is the sign of `a`. */
  lemma QuotientMagnitudeAndSign(a: int, b: int, d: int, p: int)
    requires d != 0 && p == a * b
    requires AbsInt(b) <= AbsInt(d) && (b == 0 || (b < 0) == (d < 0))
    ensures AbsInt(p) / AbsInt(d) <= AbsInt(a)
    ensures AbsInt(p) / AbsInt(d) == 0 || (a != 0 && ((p < 0) == (d < 0) <==> a > 0))
  {
    var na, nb, nd := AbsInt(a), AbsInt(b), AbsInt(d);
    assert AbsInt(p) == na * nb by {
      AbsMul(a, b);
    }
    assert AbsInt(p) <= nd * na by {
      MulLe(nb, nd, na);
    }
    QuotientAtMost(AbsInt(p), nd, na);
    if p != 0 {
      assert a != 0 && b != 0;
      SignOfProduct(a, b);
    }
  }

  /** A quotient of magnitude `m` at most that of `a`, negated unless `sameSign`, lies between 0
      and `a` when its sign, if it has one, is that of `a`. */
  lemma SignedBetween(q: int, m: int, a: int, sameSign: bool)
    requires 0 <= m <= AbsInt(a) && q == (if sameSign then m else -m)
    requires m == 0 || (a != 0 && (sameSign <==> a > 0))
    ensures 0 <= q <= a || a <= q <= 0
  {
  }

  lemma MulLe(x: nat, y: nat, k: nat)
    requires x <= y
    ensures k * x <= k * y
  {
    assert k * y - k * x == k * (y - x);
  }

  lemma SignOfProduct(a: int, b: int)
    requires a != 0 && b != 0
    ensures (a * b < 0) <==> ((a < 0) != (b < 0))
  {
    AbsMul(a, b);
    assert AbsInt(a) * AbsInt(b) > 0 by {
      MulLe(1, AbsInt(b), AbsInt(a));
    }
    if (a < 0) == (b < 0) {
      assert a * b == AbsInt(a) * AbsInt(b);
    } else {
      assert a * b == -(AbsInt(a) * AbsInt(b));
    }
  }

  /** A magnitude no larger than `bound` times the divisor has a quotient no larger than `bound`. */
  lemma QuotientAtMost(n: nat, d: nat, bound: nat)
    requires d > 0 && n <= d * bound
    ensures n / d <= bound
  {
    var m := n / d;
    assert n == m * d + n % d;
    if m > bound {
      MulLe(bound + 1, m, d);
    }
  }

  /** The vertex preceding vertex i in a closed polygon of n vertices: the loop starts with the
      closing edge from the last vertex to the first. */
  function Prev(n: nat, i: nat): (j: nat)
    requires i < n
    ensures j < n
    ensures i == 0 ==> j == n - 1
    ensures i > 0 ==> j + 1 == i
  {
    if i == 0 then n - 1 else i - 1
  }

  predicate CrossesAt(xs: seq<int>, ys: seq<int>, testX: int, testY: int, i: nat)
    requires i < |xs| <= |ys|
  {
    var j := Prev(|xs|, i);
    EdgeCrosses(xs[i], ys[i], xs[j], ys[j], testX, testY)
  }

  /** Number of crossing edges among the edges ending at vertices 0 .. k-1. */
  function Crossings(xs: seq<int>, ys: seq<int>, testX: int, testY: int, k: nat): (r: nat)
    requires k <= |xs| <= |ys|
    ensures r <= k
  {
    if k == 0 then 0
    else Crossings(xs, ys, testX, testY, k - 1) + (if CrossesAt(xs, ys, testX, testY, k - 1) then 1 else 0)
  }

  /** Every vertex coordinate is within the bound. The test point needs none: `testX` is only
      compared, and `testY - ys[i]` is only computed for an edge that straddles `testY`. */
  predicate VerticesInLimit(xs: seq<int>, ys: seq<int>)
    requires |xs| <= |ys|
  {
    && (forall i :: 0 <= i < |xs| ==> InLimit(xs[i]))
    && (forall i :: 0 <= i < |xs| ==> InLimit(ys[i]))
  }

  /** The point-in-polygon test: the answer is the parity of the number of crossing edges.
      Only the first `xs` length entries of `ys` are read, so `ys` may be longer. A shorter `ys`
      is excluded: the source's first iteration then reads past its end (`yPoints[0]` or
      `yPoints[numVerts - 1]`, lines 13-14) and throws, and the exception is not modelled. */
  method PolygonContainsPoint(xs: seq<int>, ys: seq<int>, testX: int, testY: int) returns (c: bool)
    requires |xs| <= |ys|
    requires VerticesInLimit(xs, ys)
    ensures c <==> Crossings(xs, ys, testX, testY, |xs|) % 2 == 1
    ensures |xs| == 0 ==> !c
  {
    var numVerts := |xs|;
    c := false;
    var j := numVerts - 1;
    var i := 0;
    while i < numVerts
      invariant 0 <= i <= numVerts
      invariant i < numVerts ==> j == Prev(numVerts, i)
      invariant c <==> Crossings(xs, ys, testX, testY, i) % 2 == 1
    {
      if (ys[i] > testY) != (ys[j] > testY)
         && testX < JavaDiv((xs[j] - xs[i]) * (testY - ys[i]), ys[j] - ys[i]) + xs[i]
      {
        c := !c;
      }
      j := i;
      i := i + 1;
    }
  }

  /** A horizontal edge never toggles the answer. */
  lemma HorizontalEdgeNeverCrosses(xi: int, xj: int, y: int, testX: int, testY: int)
    ensures !EdgeCrosses(xi, y, xj, y, testX, testY)
  {
  }

  /** With the vertex coordinates bounded, every value the crossing test computes fits in a Java
      `int`, so the unbounded arithmetic of this model agrees with the 32-bit arithmetic of the
      source. The differences involving `testY` and the quotient are only evaluated once the edge
      straddles `testY` (the `&&` of line 15 short-circuits); then `testY - yi` is no larger in
      magnitude than `yj - yi`, that divisor is not zero, and the crossing abscissa lies between
      `xi` and `xj`. */
  lemma {:induction false} NoOverflow(xi: int, yi: int, xj: int, yj: int, testX: int, testY: int)
    requires InLimit(xi) && InLimit(yi) && InLimit(xj) && InLimit(yj)
    ensures IsInt32(xj - xi) && IsInt32(yj - yi)
    ensures (yi > testY) != (yj > testY) ==>
              && yj - yi != 0
              && IsInt32(testY - yi)
              && IsInt32((xj - xi) * (testY - yi))
              && IsInt32(JavaDiv((xj - xi) * (testY - yi), yj - yi) + xi)
              && var x := JavaDiv((xj - xi) * (testY - yi), yj - yi) + xi;
                 (xi <= x <= xj) || (xj <= x <= xi)
  {
    if (yi > testY) != (yj > testY) {
      var a, b := xj - xi, testY - yi;
      assert AbsInt(b) <= 2 * CoordLimit;
      var prod := a * b;
      assert AbsInt(prod) <= (2 * CoordLimit) * (2 * CoordLimit) by {
        AbsMul(a, b);
        MulBound(AbsInt(a), AbsInt(b), 2 * CoordLimit);
      }
      assert IsInt32(prod);
      CrossingBetween(xi, yi, xj, yj, testY);
    }
  }

  lemma AbsMul(a: int, b: int)
    ensures AbsInt(a * b) == AbsInt(a) * AbsInt(b)
  {
    if a < 0 && b < 0 {
      assert a * b == (-a) * (-b);
    } else if a < 0 {
      assert a * b == -((-a) * b);
    } else if b < 0 {
      assert a * b == -(a * (-b));
    }
  }

  lemma MulBound(x: nat, y: nat, bound: nat)
    requires x <= bound && y <= bound
    ensures x * y <= bound * bound
  {
    assert x * y <= bound * y;
    assert bound * y <= bound * bound;
  }
}
