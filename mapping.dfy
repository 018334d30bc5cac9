/** The mapping of both chart routines from data coordinates to buffer
    coordinates: normalise into the range, scale by the buffer size (the y
    axis flipped so that larger values are higher up), clamp to the last
    column or row and truncate to an unsigned index.

    Arithmetic is exact over the reals. Where the source's `f32` arithmetic
    leaves the reals because a range has zero span, the special values of
    IEEE 754 are modelled explicitly, because they decide where the pixel
    lands. Two other ways `f32` leaves the reals, a span of `-0.0` and a
    span that overflows to `+inf`, are not modelled. */
module Mapping {
  import Canvas

  /** A data range `(min, max)` of the source. */
  datatype Range = Range(lo: real, hi: real)

  /** The values an `f32` computation can reach from finite inputs. */
  datatype Float = Finite(v: real) | PosInf | NegInf | NaN

  /** IEEE division by a span, taking a zero span to be `+0.0`: a positive
      numerator gives `+inf`, a negative one `-inf` and `0.0 / 0.0` gives
      NaN. A `-0.0` span (bounds `0.0` and `-0.0`) and a span too large for
      an `f32` are not represented. */
  function Div(a: real, b: real): Float
  {
    if b != 0.0 then Finite(a / b)
    else if a > 0.0 then PosInf
    else if a < 0.0 then NegInf
    else NaN
  }

  /** Multiplication by a buffer size of at least 1: infinities keep their
      sign and NaN stays NaN. */
  function Scale(f: Float, k: nat): Float
    requires k >= 1
  {
    match f
    case Finite(v) => Finite(v * k as real)
    case _ => f
  }

  /** `1.0 - f`: the infinities swap and NaN stays NaN. */
  function OneMinus(f: Float): Float
  {
    match f
    case Finite(v) => Finite(1.0 - v)
    case PosInf => NegInf
    case NegInf => PosInf
    case NaN => NaN
  }

  /** `f.clamp(0.0, hi as f32) as usize`: `clamp` passes NaN through and the
      saturating cast turns NaN into 0; a clamped finite value is cut to its
      integer part, which for a non-negative value is its floor. */
  function ClampCast(f: Float, hi: nat): (n: nat)
    ensures n <= hi
    ensures f.Finite? && 0.0 <= f.v <= hi as real ==> n == f.v.Floor
    ensures f.Finite? && f.v < 0.0 ==> n == 0
    ensures f.Finite? && f.v > hi as real ==> n == hi
    ensures f.PosInf? ==> n == hi
    ensures (f.NegInf? || f.NaN?) ==> n == 0
  {
    match f
    case Finite(v) => if v < 0.0 then 0 else if v > hi as real then hi else v.Floor
    case PosInf => hi
    case NegInf => 0
    case NaN => 0
  }

  /** `(v - min) / (max - min)`. */
  function Normalize(v: real, r: Range): Float
  {
    Div(v - r.lo, r.hi - r.lo)
  }

  /** The column of data abscissa `x` in a buffer `width` pixels wide. */
  function Column(x: real, r: Range, width: nat): (c: nat)
    requires width >= 1
    ensures c < width
  {
    ClampCast(Scale(Normalize(x, r), width), width - 1)
  }

  /** The row of data ordinate `y` in a buffer `height` pixels tall. */
  function Row(y: real, r: Range, height: nat): (c: nat)
    requires height >= 1
    ensures c < height
  {
    ClampCast(Scale(OneMinus(Normalize(y, r)), height), height - 1)
  }

  /** `to_buffer_coordinates`. The source computes `width - 1` and
      `height - 1` in unsigned arithmetic, which panics on an empty
      dimension; every data point lands in the buffer. */
  function ToBuffer(x: real, y: real, xr: Range, yr: Range, width: nat, height: nat): (p: (nat, nat))
    requires width >= 1 && height >= 1
    ensures p.0 < width && p.1 < height
  {
    (Column(x, xr, width), Row(y, yr, height))
  }

  /** The corners of the data window land on the corners of the buffer: the
      minimum at the bottom-left pixel, the maximum at the top-right one. */
  lemma Corners(xr: Range, yr: Range, width: nat, height: nat)
    requires width >= 1 && height >= 1
    requires xr.lo < xr.hi && yr.lo < yr.hi
    ensures ToBuffer(xr.lo, yr.lo, xr, yr, width, height) == (0, height - 1)
    ensures ToBuffer(xr.hi, yr.hi, xr, yr, width, height) == (width - 1, 0)
  {
    SelfQuotient(xr.hi - xr.lo);
    SelfQuotient(yr.hi - yr.lo);
  }

  /** A 100 by 100 chart over x in [-10, 10] and y in [-5, 5]: the origin
      lands in the middle, and (5, 5) in the top row three quarters of the
      way across. */
  lemma CentredWindow()
    ensures ToBuffer(0.0, 0.0, Range(-10.0, 10.0), Range(-5.0, 5.0), 100, 100) == (50, 50)
    ensures ToBuffer(5.0, 5.0, Range(-10.0, 10.0), Range(-5.0, 5.0), 100, 100) == (75, 0)
  {
    assert Normalize(0.0, Range(-10.0, 10.0)) == Finite(0.5);
    assert Normalize(0.0, Range(-5.0, 5.0)) == Finite(0.5);
    assert Normalize(5.0, Range(-10.0, 10.0)) == Finite(0.75);
    assert Normalize(5.0, Range(-5.0, 5.0)) == Finite(1.0);
  }

  /** Larger abscissas never land further left. */
  lemma ColumnMonotone(x: real, x': real, r: Range, width: nat)
    requires width >= 1 && r.lo < r.hi && x <= x'
    ensures Column(x, r, width) <= Column(x', r, width)
  {
    var (n, n') := (Normalize(x, r), Normalize(x', r));
    NormalizeMonotone(x, x', r);
    ScaleFloatMonotone(n, n', width);
    ClampCastMonotone(Scale(n, width), Scale(n', width), width - 1);
  }

  /** Larger ordinates never land further down: rows count from the top. */
  lemma RowAntitone(y: real, y': real, r: Range, height: nat)
    requires height >= 1 && r.lo < r.hi && y <= y'
    ensures Row(y', r, height) <= Row(y, r, height)
  {
    var (n, n') := (Normalize(y, r), Normalize(y', r));
    NormalizeMonotone(y, y', r);
    OneMinusAntitone(n, n');
    ScaleFloatMonotone(OneMinus(n'), OneMinus(n), height);
    ClampCastMonotone(Scale(OneMinus(n'), height), Scale(OneMinus(n), height), height - 1);
  }

  /** Both values are finite and the first is at most the second. */
  predicate FiniteLe(f: Float, g: Float)
  {
    f.Finite? && g.Finite? && f.v <= g.v
  }

  lemma NormalizeMonotone(v: real, v': real, r: Range)
    requires r.lo < r.hi && v <= v'
    ensures FiniteLe(Normalize(v, r), Normalize(v', r))
  {
    DivMonotone(v - r.lo, v' - r.lo, r.hi - r.lo);
  }

  lemma ScaleFloatMonotone(f: Float, g: Float, k: nat)
    requires k >= 1 && FiniteLe(f, g)
    ensures FiniteLe(Scale(f, k), Scale(g, k))
  {
    ScaleMonotone(f.v, g.v, k as real);
  }

  lemma OneMinusAntitone(f: Float, g: Float)
    requires FiniteLe(f, g)
    ensures FiniteLe(OneMinus(g), OneMinus(f))
  {
  }

  lemma SelfQuotient(d: real)
    requires d != 0.0
    ensures d / d == 1.0 && 0.0 / d == 0.0
  {
  }

  lemma DivMonotone(a: real, b: real, d: real)
    requires a <= b && d > 0.0
    ensures a / d <= b / d
  {
    assert b / d - a / d == (b - a) / d;
  }

  lemma ScaleMonotone(a: real, b: real, k: real)
    requires a <= b && k >= 0.0
    ensures a * k <= b * k
  {
    assert b * k - a * k == (b - a) * k;
  }

  lemma ClampCastMonotone(f: Float, g: Float, hi: nat)
    requires FiniteLe(f, g)
    ensures ClampCast(f, hi) <= ClampCast(g, hi)
  {
  }

  /** A range of zero span: the IEEE special values send every point past
      the value to the last column, every point before it, and the value
      itself (through NaN), to column 0. */
  lemma EmptyRangeColumn(x: real, r: Range, width: nat)
    requires width >= 1 && r.lo == r.hi
    ensures Column(x, r, width) == if x > r.lo then width - 1 else 0
  {
  }

  /** The same for rows, where the flip `1 - norm` swaps the infinities:
      points above the value go to the top row, points below it to the
      bottom row, and the value itself to the top row. */
  lemma EmptyRangeRow(y: real, r: Range, height: nat)
    requires height >= 1 && r.lo == r.hi
    ensures Row(y, r, height) == if y < r.lo then height - 1 else 0
  {
  }

  /** The range contains 0, so the corresponding axis is drawn. */
  predicate Straddles(r: Range)
  {
    r.lo <= 0.0 && r.hi >= 0.0
  }

  /** Buffer column of the vertical axis: the abscissa 0, mapped together
      with the minimal ordinate. */
  function AxisColumn(xr: Range, yr: Range, w: nat, h: nat): (c: nat)
    requires w >= 1 && h >= 1
    ensures c < w
  {
    ToBuffer(0.0, yr.lo, xr, yr, w, h).0
  }

  /** Buffer row of the horizontal axis: the ordinate 0, mapped together
      with the minimal abscissa. */
  function AxisRow(xr: Range, yr: Range, w: nat, h: nat): (r: nat)
    requires w >= 1 && h >= 1
    ensures r < h
  {
    ToBuffer(xr.lo, 0.0, xr, yr, w, h).1
  }

  function ToPoint(p: (real, real), xr: Range, yr: Range, w: nat, h: nat): (q: Canvas.Point)
    requires w >= 1 && h >= 1
    ensures Canvas.InBounds(w, h, q.x, q.y)
  {
    var b := ToBuffer(p.0, p.1, xr, yr, w, h);
    Canvas.Point(b.0, b.1)
  }

  /** The data series in buffer coordinates: every point lands on the
      chart. */
  function MapPoints(data: seq<(real, real)>, xr: Range, yr: Range, w: nat, h: nat): (pts: seq<Canvas.Point>)
    requires |data| == 0 || (w >= 1 && h >= 1)
    ensures |pts| == |data|
    ensures forall k | 0 <= k < |pts| :: Canvas.InBounds(w, h, pts[k].x, pts[k].y)
    decreases |data|
  {
    if |data| == 0 then []
    else
      var n := |data|;
      MapPoints(data[..n - 1], xr, yr, w, h) + [ToPoint(data[n - 1], xr, yr, w, h)]
  }

  /** Point `k` of the series is data point `k`, mapped. */
  lemma {:induction false} MapPointsAt(data: seq<(real, real)>, xr: Range, yr: Range, w: nat, h: nat, k: nat)
    requires w >= 1 && h >= 1 && k < |data|
    ensures MapPoints(data, xr, yr, w, h)[k] == ToPoint(data[k], xr, yr, w, h)
    decreases |data|
  {
    var n := |data|;
    if k < n - 1 {
      MapPointsAt(data[..n - 1], xr, yr, w, h, k);
    }
  }

  /** Mapping one more data point extends a mapped prefix. */
  lemma MappedSnoc(data: seq<(real, real)>, xr: Range, yr: Range, w: nat, h: nat, done: seq<Canvas.Point>, p: Canvas.Point)
    requires w >= 1 && h >= 1 && |done| < |data|
    requires forall j | 0 <= j < |done| :: done[j] == ToPoint(data[j], xr, yr, w, h)
    requires p == ToPoint(data[|done|], xr, yr, w, h)
    ensures forall j | 0 <= j < |done| + 1 :: (done + [p])[j] == ToPoint(data[j], xr, yr, w, h)
  {
  }

  /** A sequence that agrees with the mapped series point by point is the
      mapped series. */
  lemma MapPointsEqual(data: seq<(real, real)>, xr: Range, yr: Range, w: nat, h: nat, pts: seq<Canvas.Point>)
    requires |data| == 0 || (w >= 1 && h >= 1)
    requires |pts| == |data|
    requires forall j | 0 <= j < |data| :: pts[j] == ToPoint(data[j], xr, yr, w, h)
    ensures pts == MapPoints(data, xr, yr, w, h)
  {
    var m := MapPoints(data, xr, yr, w, h);
    forall j | 0 <= j < |data| ensures pts[j] == m[j] {
      MapPointsAt(data, xr, yr, w, h, j);
    }
  }

  /** Data point `k` in buffer coordinates. The drawing loops call this
      method rather than the function, so that the arithmetic of the
      mapping stays out of their proofs. */
  method MapPoint(data: seq<(real, real)>, k: nat, xr: Range, yr: Range, w: nat, h: nat)
    returns (col: nat, row: nat)
    requires k < |data| && w >= 1 && h >= 1
    ensures Canvas.Point(col, row) == ToPoint(data[k], xr, yr, w, h)
    ensures col < w && row < h
  {
    var (x, y) := data[k];
    var b := ToBuffer(x, y, xr, yr, w, h);
    col, row := b.0, b.1;
  }
}
