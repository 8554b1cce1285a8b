/** The geometry of the disc sampler's acceleration grid (`PoissonDisc` constructor and the index
    arithmetic of `generate`): sampler parameters, cell indices, the clipped neighbour-search box,
    and counting of occupied cells. Square roots are avoided: the cell width is any positive real
    whose square is half the square of the margin. */
module PoissonGrid {

  import opened Plane
  import opened Wrappers

  /** Java's `(int)` cast of a double: truncation toward zero. */
  function Trunc(r: real): (n: int)
    ensures r >= 0.0 ==> n as real <= r < n as real + 1.0
    ensures r < 0.0 ==> n as real - 1.0 < r <= n as real
  {
    if r >= 0.0 then r.Floor else -((-r).Floor)
  }

  /** `Math.ceil`: the least integer not below `r`. */
  function Ceil(r: real): (n: int)
    ensures r <= n as real < r + 1.0
  {
    -((-r).Floor)
  }

  function Max(a: int, b: int): int
  {
    if a < b then b else a
  }

  function Min(a: int, b: int): int
  {
    if a < b then a else b
  }

  /** The sampler's parameters and derived grid dimensions (constructor, lines 23-38). */
  datatype Sampler = Sampler(margin: real, leftX: real, rightX: real, topY: real, botY: real,
                             cellWidth: real, numRows: int, numCols: int)
  {
    function Width(): real
    {
      rightX - leftX
    }

    function Height(): real
    {
      botY - topY
    }
  }

  /** The cell width squared is half the margin squared: `margin / sqrt(2)`. */
  predicate IsCellWidth(cellWidth: real, margin: real)
  {
    cellWidth > 0.0 && 2.0 * cellWidth * cellWidth == margin * margin
  }

  predicate RectOk(s: Sampler)
  {
    s.leftX < s.rightX && s.topY < s.botY
  }

  /** The grid dimensions of the constructor (lines 34-35). */
  predicate GridDims(s: Sampler)
    requires s.cellWidth > 0.0
  {
    && s.numRows == Ceil(s.Height() / s.cellWidth)
    && s.numCols == Ceil(s.Width() / s.cellWidth)
  }

  predicate Valid(s: Sampler)
  {
    && s.margin > 0.0
    && RectOk(s)
    && IsCellWidth(s.cellWidth, s.margin)
    && GridDims(s)
  }

  /** The constructor. The rows and columns are the fewest whole cells that cover the height and
      the width of the rectangle. */
  function NewSampler(margin: real, leftX: real, rightX: real, topY: real, botY: real,
                      cellWidth: real): (s: Sampler)
    requires margin > 0.0 && leftX < rightX && topY < botY
    requires IsCellWidth(cellWidth, margin)
    ensures Valid(s)
    ensures s.numRows >= 1 && s.numCols >= 1
    ensures (s.numRows - 1) as real * cellWidth < botY - topY <= s.numRows as real * cellWidth
    ensures (s.numCols - 1) as real * cellWidth < rightX - leftX <= s.numCols as real * cellWidth
  {
    var width, height := rightX - leftX, botY - topY;
    var s := Sampler(margin, leftX, rightX, topY, botY, cellWidth,
                     Ceil(height / cellWidth), Ceil(width / cellWidth));
    GridCovers(s);
    s
  }

  lemma GridCovers(s: Sampler)
    requires RectOk(s) && s.cellWidth > 0.0 && GridDims(s)
    ensures s.numRows >= 1 && s.numCols >= 1
    ensures (s.numRows - 1) as real * s.cellWidth < s.Height() <= s.numRows as real * s.cellWidth
    ensures (s.numCols - 1) as real * s.cellWidth < s.Width() <= s.numCols as real * s.cellWidth
  {
    CeilCovers(s.Height(), s.cellWidth);
    CeilCovers(s.Width(), s.cellWidth);
  }

  lemma CeilCovers(extent: real, w: real)
    requires extent > 0.0 && w > 0.0
    ensures Ceil(extent / w) >= 1
    ensures (Ceil(extent / w) - 1) as real * w < extent <= Ceil(extent / w) as real * w
  {
    var v := extent / w;
    var n := Ceil(v);
    DivFacts(extent, w);
    BracketScaled(v, (n - 1) as real, n as real, w, extent);
  }

  /** Scaling `lo < v <= hi` by a positive `w`, where `d` names `v * w`. */
  lemma BracketScaled(v: real, lo: real, hi: real, w: real, d: real)
    requires w > 0.0 && lo < v <= hi && d == v * w
    ensures lo * w < d <= hi * w
  {
    MulRight(lo, v, w);
    MulRight(v, hi, w);
  }

  lemma DivFacts(d: real, w: real)
    requires w > 0.0
    ensures (d / w) * w == d
    ensures d >= 0.0 ==> d / w >= 0.0
    ensures d > 0.0 ==> d / w > 0.0
  {
    var v := d / w;
    assert v * w == d;
    if d >= 0.0 && v < 0.0 {
      MulRight(v, 0.0, w);
    }
    if d > 0.0 && v <= 0.0 {
      MulRight(v, 0.0, w);
    }
  }

  /** A draw `u` in [0, 1) picks `lo + y`, with `y == u * (hi - lo)`, in [lo, hi). The product is
      passed in as `y` so that callers and this proof name the same term. */
  lemma Interpolate(lo: real, hi: real, u: real, y: real)
    requires lo < hi && 0.0 <= u < 1.0 && y == u * (hi - lo)
    ensures lo <= lo + y < hi
  {
    MulRight(0.0, u, hi - lo);
    MulRight(u, 1.0, hi - lo);
    assert 1.0 * (hi - lo) == hi - lo;
  }

  /** A draw in [0, 1) scales an extent to an offset in [0, extent). */
  lemma ScaleWithin(u: real, e: real)
    requires 0.0 <= u < 1.0 && e > 0.0
    ensures 0.0 <= u * e < e
  {
    MulRight(u, 1.0, e);
    MulRight(0.0, u, e);
  }

  lemma BetweenScaled(lo: real, v: real, hi: real, w: real)
    requires w > 0.0 && lo <= v < hi
    ensures lo * w <= v * w < hi * w
  {
    MulRight(lo, v, w);
    MulRight(v, hi, w);
  }

  lemma MulRight(a: real, b: real, w: real)
    requires w > 0.0
    ensures a <= b ==> a * w <= b * w
    ensures a < b ==> a * w < b * w
  {
    assert b * w - a * w == (b - a) * w;
    if a < b {
      assert (b - a) * w > 0.0;
    }
  }

  predicate InRect(s: Sampler, p: Point)
  {
    s.leftX <= p.x < s.rightX && s.topY <= p.y < s.botY
  }

  /** The first point: two uniform draws in [0, 1) scaled to the rectangle (lines 43-44). */
  function SeedPoint(s: Sampler, u: real, v: real): (p: Point)
    requires RectOk(s)
    requires 0.0 <= u < 1.0 && 0.0 <= v < 1.0
    ensures InRect(s, p)
  {
    var x, y := s.leftX + u * s.Width(), s.topY + v * s.Height();
    Interpolate(s.leftX, s.rightX, u, u * s.Width());
    Interpolate(s.topY, s.botY, v, v * s.Height());
    Point(x, y)
  }

  /** A candidate offset from its parent: magnitude in [margin, 2 margin) (line 56). */
  predicate InAnnulus(margin: real, o: Offset)
  {
    Sq(margin) <= Sq(o.dx) + Sq(o.dy) < Sq(2.0 * margin)
  }

  function RowOf(s: Sampler, p: Point): int
    requires s.cellWidth > 0.0
  {
    Trunc((p.y - s.topY) / s.cellWidth)
  }

  function ColOf(s: Sampler, p: Point): int
    requires s.cellWidth > 0.0
  {
    Trunc((p.x - s.leftX) / s.cellWidth)
  }

  /** A coordinate `d` past the grid origin lies in cell `Trunc(d / w)`, which spans
      `[n w, (n + 1) w)`. */
  lemma CellSpan(d: real, w: real)
    requires d >= 0.0 && w > 0.0
    ensures var n := Trunc(d / w); n >= 0 && n as real * w <= d < (n + 1) as real * w
  {
    DivFacts(d, w);
    FloorSpan(d / w, w, d);
  }

  lemma FloorSpan(v: real, w: real, d: real)
    requires v >= 0.0 && w > 0.0 && v * w == d
    ensures var n := Trunc(v); n >= 0 && n as real * w <= d < (n + 1) as real * w
  {
    var n := Trunc(v);
    var lo, hi := n as real, (n + 1) as real;
    assert lo <= v < hi;
    MulRight(lo, v, w);
    MulRight(v, hi, w);
    assert v * w < hi * w;
    assert d < hi * w;
    assert lo * w <= d;
  }

  /** The cell of an in-bounds point has in-range indices (lines 64-65, 93). */
  lemma CellInBounds(s: Sampler, p: Point)
    requires RectOk(s) && s.cellWidth > 0.0 && GridDims(s) && InRect(s, p)
    ensures 0 <= RowOf(s, p) < s.numRows
    ensures 0 <= ColOf(s, p) < s.numCols
  {
    AxisInBounds(p.y - s.topY, s.Height(), s.cellWidth);
    AxisInBounds(p.x - s.leftX, s.Width(), s.cellWidth);
  }

  /** One axis: an offset in [0, extent) falls in one of the `Ceil(extent / w)` cells. */
  lemma AxisInBounds(d: real, extent: real, w: real)
    requires 0.0 <= d < extent && w > 0.0
    ensures 0 <= Trunc(d / w) < Ceil(extent / w)
  {
    var n, cells := Trunc(d / w), Ceil(extent / w);
    CellSpan(d, w);
    CeilCovers(extent, w);
    var lo, hi := n as real * w, cells as real * w;
    assert lo <= d;
    assert extent <= hi;
    MulRight(cells as real, n as real, w);
  }

  /** Two in-bounds points in the same cell are closer than the margin, because the cell's
      diagonal is `cellWidth * sqrt(2) == margin`. */
  lemma SameCellClose(s: Sampler, p: Point, q: Point)
    requires IsCellWidth(s.cellWidth, s.margin) && InRect(s, p) && InRect(s, q)
    requires RowOf(s, p) == RowOf(s, q) && ColOf(s, p) == ColOf(s, q)
    ensures DistSq(p, q) < Sq(s.margin)
  {
    var w := s.cellWidth;
    var dx, dy := p.x - q.x, p.y - q.y;
    assert Sq(dy) < Sq(w) by {
      AxisClose(p.y - s.topY, q.y - s.topY, w);
      assert (p.y - s.topY) - (q.y - s.topY) == dy;
      SqLessIffAbsLess(dy, w);
    }
    assert Sq(dx) < Sq(w) by {
      AxisClose(p.x - s.leftX, q.x - s.leftX, w);
      assert (p.x - s.leftX) - (q.x - s.leftX) == dx;
      SqLessIffAbsLess(dx, w);
    }
    DiagonalBound(dx, dy, w, s.margin);
  }

  /** One axis: offsets in the same cell differ by less than the cell width. */
  lemma AxisClose(dp: real, dq: real, w: real)
    requires dp >= 0.0 && dq >= 0.0 && w > 0.0 && Trunc(dp / w) == Trunc(dq / w)
    ensures Abs(dp - dq) < w
  {
    CellSpan(dp, w);
    CellSpan(dq, w);
    var n := Trunc(dp / w);
    var lo, hi := n as real * w, (n + 1) as real * w;
    assert lo <= dp < hi && lo <= dq < hi;
    assert hi == lo + w;
  }

  /** Both sides shorter than the cell width: the distance is below the cell's diagonal. */
  lemma DiagonalBound(a: real, b: real, w: real, m: real)
    requires Sq(a) < Sq(w) && Sq(b) < Sq(w) && 2.0 * w * w == m * m
    ensures Sq(a) + Sq(b) < Sq(m)
  {
  }

  /** The neighbour-search box around a candidate, clipped to the grid (lines 67-70). */
  datatype Box = Box(minRow: int, maxRow: int, minCol: int, maxCol: int)
  {
    predicate Contains(r: int, c: int)
    {
      minRow <= r <= maxRow && minCol <= c <= maxCol
    }
  }

  function SearchBox(s: Sampler, c: Point): (b: Box)
    requires Valid(s)
    ensures 0 <= b.minRow && b.maxRow < s.numRows
    ensures 0 <= b.minCol && b.maxCol < s.numCols
  {
    var w := s.cellWidth;
    Box(Max(0, Trunc(((c.y - s.margin) - s.topY) / w)),
        Min(s.numRows - 1, Trunc(((c.y + s.margin) - s.topY) / w)),
        Max(0, Trunc(((c.x - s.margin) - s.leftX) / w)),
        Min(s.numCols - 1, Trunc(((c.x + s.margin) - s.leftX) / w)))
  }

  /** The clipped box holds the cell of every in-bounds point closer than the margin to an
      in-bounds candidate (lines 68-88), the candidate's own cell included. */
  lemma BoxCoversNeighbours(s: Sampler, c: Point, q: Point)
    requires Valid(s) && InRect(s, c) && InRect(s, q)
    requires DistSq(q, c) < Sq(s.margin)
    ensures SearchBox(s, c).Contains(RowOf(s, q), ColOf(s, q))
  {
    assert Sq(q.y - c.y) < Sq(s.margin) && Sq(q.x - c.x) < Sq(s.margin);
    SqLessIffAbsLess(q.y - c.y, s.margin);
    SqLessIffAbsLess(q.x - c.x, s.margin);
    CellInBounds(s, q);
    AxisCovered(q.y - s.topY, c.y - s.topY, s.margin, s.cellWidth);
    AxisCovered(q.x - s.leftX, c.x - s.leftX, s.margin, s.cellWidth);
  }

  /** One axis of the box: a coordinate within `m` of the candidate's falls between the truncated
      lower and upper bounds; truncation toward zero can only raise a negative lower bound to 0. */
  lemma AxisCovered(dq: real, dc: real, m: real, w: real)
    requires dq >= 0.0 && dc >= 0.0 && m > 0.0 && w > 0.0
    requires Abs(dq - dc) < m
    ensures Max(0, Trunc((dc - m) / w)) <= Trunc(dq / w) <= Trunc((dc + m) / w)
  {
    DivideMono(dc - m, dq, w);
    DivideMono(dq, dc + m, w);
    DivideMono(0.0, dq, w);
  }

  lemma DivideMono(a: real, b: real, w: real)
    requires w > 0.0 && a <= b
    ensures a / w <= b / w
  {
    DivFacts(a, w);
    DivFacts(b, w);
    DivFacts(b - a, w);
    assert b / w - a / w == (b - a) / w;
  }

  /** A grid of optional indices into the output list; `None` is Java's `null`. */
  type Grid = seq<seq<Option<nat>>>

  ghost predicate Shaped(grid: Grid, rows: int, cols: int)
  {
    && |grid| == rows
    && forall r :: 0 <= r < |grid| ==> |grid[r]| == cols
  }

  function EmptyRow(cols: nat): (row: seq<Option<nat>>)
    ensures |row| == cols
    ensures forall c :: 0 <= c < cols ==> row[c] == None
  {
    seq(cols, _ => None)
  }

  function EmptyGrid(rows: nat, cols: nat): (g: Grid)
    ensures Shaped(g, rows, cols)
    ensures forall r, c :: 0 <= r < rows && 0 <= c < cols ==> g[r][c] == None
  {
    seq(rows, _ => EmptyRow(cols))
  }

  function RowFilled(row: seq<Option<nat>>): (n: nat)
    ensures n <= |row|
  {
    if |row| == 0 then 0
    else RowFilled(row[..|row| - 1]) + (if row[|row| - 1].Some? then 1 else 0)
  }

  /** The number of occupied cells. */
  function GridFilled(grid: Grid): nat
  {
    if |grid| == 0 then 0
    else GridFilled(grid[..|grid| - 1]) + RowFilled(grid[|grid| - 1])
  }

  lemma {:induction false} RowFilledEmpty(cols: nat)
    ensures RowFilled(EmptyRow(cols)) == 0
  {
    if cols > 0 {
      assert EmptyRow(cols)[..cols - 1] == EmptyRow(cols - 1);
      RowFilledEmpty(cols - 1);
    }
  }

  lemma {:induction false} EmptyGridFilled(rows: nat, cols: nat)
    ensures GridFilled(EmptyGrid(rows, cols)) == 0
  {
    if rows > 0 {
      assert EmptyGrid(rows, cols)[..rows - 1] == EmptyGrid(rows - 1, cols);
      RowFilledEmpty(cols);
      EmptyGridFilled(rows - 1, cols);
    }
  }

  lemma {:induction false} RowFilledUpdate(row: seq<Option<nat>>, c: nat, v: nat)
    requires c < |row| && row[c].None?
    ensures RowFilled(row[c := Some(v)]) == RowFilled(row) + 1
    decreases |row|
  {
    var row' := row[c := Some(v)];
    assert row'[..|row| - 1] == if c == |row| - 1 then row[..|row| - 1] else row[..|row| - 1][c := Some(v)];
    if c < |row| - 1 {
      RowFilledUpdate(row[..|row| - 1], c, v);
    }
  }

  /** Filling an empty cell raises the occupied count by exactly one. */
  lemma {:induction false} GridFilledUpdate(grid: Grid, r: nat, c: nat, v: nat)
    requires r < |grid| && c < |grid[r]| && grid[r][c].None?
    ensures GridFilled(grid[r := grid[r][c := Some(v)]]) == GridFilled(grid) + 1
    decreases |grid|
  {
    var g' := grid[r := grid[r][c := Some(v)]];
    if r == |grid| - 1 {
      assert g'[..|grid| - 1] == grid[..|grid| - 1];
      RowFilledUpdate(grid[r], c, v);
    } else {
      assert g'[..|grid| - 1] == grid[..|grid| - 1][r := grid[r][c := Some(v)]];
      GridFilledUpdate(grid[..|grid| - 1], r, c, v);
    }
  }

  /** A rows-by-cols grid has at most rows * cols occupied cells. */
  lemma {:induction false} GridFilledBound(grid: Grid, rows: nat, cols: nat)
    requires Shaped(grid, rows, cols)
    ensures GridFilled(grid) <= rows * cols
    decreases rows
  {
    if rows > 0 {
      GridFilledBound(grid[..rows - 1], rows - 1, cols);
      assert (rows - 1) * cols + cols == rows * cols;
    }
  }
}
