/** Points of the Cartesian plane, shared by the disc sampler and the line simplifier.
    Coordinates are exact reals: floating-point rounding is not modelled. */
module Plane {

  datatype Point = Point(x: real, y: real)

  /** A displacement between two points. */
  datatype Offset = Offset(dx: real, dy: real)

  function Sq(v: real): (r: real)
    ensures r >= 0.0
  {
    v * v
  }

  /** Squared Euclidean distance; comparing squares avoids the square root. */
  function DistSq(p: Point, q: Point): (r: real)
    ensures r >= 0.0
  {
    Sq(p.x - q.x) + Sq(p.y - q.y)
  }

  function Translate(p: Point, o: Offset): Point
  {
    Point(p.x + o.dx, p.y + o.dy)
  }

  function Abs(v: real): (r: real)
    ensures r >= 0.0
    ensures r == v || r == -v
  {
    if v < 0.0 then -v else v
  }

  /** For a non-negative bound, squaring preserves strict order of magnitudes. */
  lemma SqLessIffAbsLess(a: real, b: real)
    requires b >= 0.0
    ensures Sq(a) < Sq(b) <==> Abs(a) < b
  {
    var m := Abs(a);
    assert Sq(a) == m * m;
    if m < b {
      MulStrict(m, b);
    } else {
      MulStrict(b, m);
      assert b * b <= m * m;
    }
  }

  lemma SqZero(v: real)
    ensures Sq(v) == 0.0 <==> v == 0.0
  {
    if v != 0.0 {
      MulStrict(0.0, Abs(v));
      assert Sq(v) == Abs(v) * Abs(v);
    }
  }

  lemma MulStrict(u: real, v: real)
    requires 0.0 <= u <= v
    ensures u * u <= v * v
    ensures u < v ==> u * u < v * v
  {
    var uu, uv, vv := u * u, u * v, v * v;
    assert uv - uu == u * (v - u);
    assert vv - uv == (v - u) * v;
    assert uu <= uv;
    assert uv <= vv;
    if u < v {
      var d := v - u;
      assert d > 0.0 && v > 0.0;
      assert d * v > 0.0;
      assert vv - uv == d * v;
    }
  }
}
