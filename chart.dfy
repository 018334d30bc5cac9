/** The chart renderer: a pixel buffer with fixed data ranges, a stroke for
    the data and a stroke for the axes, which plots a series of points as
    dots or as a polyline over the axes through the origin. */
module Charts {
  import opened Options
  import opened Canvas
  import opened Styles
  import opened Bresenham
  import opened Mapping
  import opened ChartKinds

  /** Radius of the disk each point of a chart line stamps: single pixels
      for width 1, otherwise a plain disk of radius `width / 2`. */
  function ChartRadius(s: Stroke): nat
  {
    if s.width == 1 then 0 else s.width / 2
  }

  /** Pixel `(px, py)` is painted by an axis: the full-height line at
      column `xa` when there is one, the full-width line at row `ya` when
      there is one, each stamping disks of radius `r`. */
  predicate AxesCovered(xa: Option<nat>, ya: Option<nat>, w: nat, h: nat, r: nat, px: int, py: int)
  {
    || (xa.Some? && Covered(Bresenham.Line(Segment(xa.value, 0, xa.value, h - 1)), r, px, py))
    || (ya.Some? && Covered(Bresenham.Line(Segment(0, ya.value, w - 1, ya.value)), r, px, py))
  }

  /** The same for the chart's axes: the column of abscissa 0 when the x
      range contains 0, the row of ordinate 0 when the y range does. */
  predicate OnAxes(xr: Range, yr: Range, w: nat, h: nat, r: nat, px: int, py: int)
  {
    && w >= 1 && h >= 1
    && AxesCovered(if Straddles(xr) then Some(AxisColumn(xr, yr, w, h)) else None,
                   if Straddles(yr) then Some(AxisRow(xr, yr, w, h)) else None, w, h, r, px, py)
  }

  /** Pixel `(px, py)` is painted by the data: the disks of radius
      `width / 2` around the mapped points, or the polyline through them. */
  predicate DataCovered(kind: ChartType, data: seq<(real, real)>, xr: Range, yr: Range, w: nat, h: nat,
                        s: Stroke, px: int, py: int)
    requires NeedsMapping(kind, data) ==> w >= 1 && h >= 1
  {
    match kind
    case Dots => Covered(MapPoints(data, xr, yr, w, h), s.width / 2, px, py)
    case Lines => |data| >= 2 && Covered(Polyline(MapPoints(data, xr, yr, w, h)), ChartRadius(s), px, py)
  }

  class Chart {
    const width: nat
    const height: nat
    const xRange: Range
    const yRange: Range
    /** Row-major, `width * height` packed colours. */
    const buffer: array<int>
    var fill: int
    var stroke: Stroke
    var chartAxis: Stroke

    ghost predicate Valid()
    {
      buffer.Length == width * height
    }

    /** The colour of pixel `(x, y)`. */
    function At(x: int, y: int): int
      reads buffer
      requires Valid() && InBounds(width, height, x, y)
    {
      IndexInRange(width, height, x, y);
      buffer[Index(width, x, y)]
    }

    /** A black chart, white data stroke and grey axes, both of width 1 and
        geometry Outer, black fill. */
    constructor (width: nat, height: nat, xRange: Range, yRange: Range)
      ensures Valid() && this.width == width && this.height == height && fresh(buffer)
      ensures this.xRange == xRange && this.yRange == yRange
      ensures fill == 0 && stroke == Stroke(0xFFFFFF, 1, Outer) && chartAxis == Stroke(0x444444, 1, Outer)
      ensures forall i | 0 <= i < buffer.Length :: buffer[i] == 0
    {
      this.width := width;
      this.height := height;
      this.xRange := xRange;
      this.yRange := yRange;
      fill := 0;
      stroke := Stroke(0xFFFFFF, 1, Outer);
      chartAxis := Stroke(0x444444, 1, Outer);
      buffer := new int[width * height](_ => 0);
    }

    method Fill(color: int)
      modifies this
      ensures fill == color && stroke == old(stroke) && chartAxis == old(chartAxis)
    {
      fill := color;
    }

    /** `stroke(color, width)`: colour and width at once; the geometry stays. */
    method SetStroke(color: int, w: nat)
      modifies this
      ensures stroke == old(stroke).(color := color, width := w)
      ensures fill == old(fill) && chartAxis == old(chartAxis)
    {
      stroke := stroke.(color := color, width := w);
    }

    method StrokeColor(color: int)
      modifies this
      ensures stroke == old(stroke).(color := color)
      ensures fill == old(fill) && chartAxis == old(chartAxis)
    {
      stroke := stroke.(color := color);
    }

    method StrokeWidth(w: nat)
      modifies this
      ensures stroke == old(stroke).(width := w)
      ensures fill == old(fill) && chartAxis == old(chartAxis)
    {
      stroke := stroke.(width := w);
    }

    method ChartColor(color: int)
      modifies this
      ensures chartAxis == old(chartAxis).(color := color)
      ensures fill == old(fill) && stroke == old(stroke)
    {
      chartAxis := chartAxis.(color := color);
    }

    method ChartWidth(w: nat)
      modifies this
      ensures chartAxis == old(chartAxis).(width := w)
      ensures fill == old(fill) && stroke == old(stroke)
    {
      chartAxis := chartAxis.(width := w);
    }

    /** Writes one pixel if it is on the buffer and ignores it otherwise. */
    method SetPixel(x: int, y: int, color: int)
      requires Valid()
      modifies buffer
      ensures forall px, py | InBounds(width, height, px, py) ::
        At(px, py) == if px == x && py == y then color else old(At(px, py))
    {
      if InBounds(width, height, x, y) {
        IndexInRange(width, height, x, y);
        buffer[Index(width, x, y)] := color;
        forall px, py | InBounds(width, height, px, py)
          ensures At(px, py) == if px == x && py == y then color else old(At(px, py))
        {
          IndexInRange(width, height, px, py);
          if px != x || py != y {
            if Index(width, px, py) == Index(width, x, y) {
              IndexInjective(width, px, py, x, y);
            }
          }
        }
      }
    }

    /** A solid disk of radius `radius` around `(cx, cy)` in the stroke
        colour; the fill is not used. */
    method Circle(cx: nat, cy: nat, radius: nat)
      requires Valid()
      modifies buffer
      ensures forall px, py | InBounds(width, height, px, py) ::
        At(px, py) == if InDisk(cx, cy, radius, px, py) then stroke.color else old(At(px, py))
    {
      var r: int := radius;
      var y := -r;
      forall px, py | InBounds(width, height, px, py) && Scanned(cx, cy, y, -r, px, py)
        ensures !InDisk(cx, cy, radius, px, py)
      {
        if InDisk(cx, cy, radius, px, py) {
          DiskInSquare(cx, cy, radius, px, py);
        }
      }
      while y <= r
        invariant -r <= y <= r + 1
        invariant forall px, py | InBounds(width, height, px, py) ::
          At(px, py) == if Scanned(cx, cy, y, -r, px, py) && InDisk(cx, cy, radius, px, py)
                        then stroke.color else old(At(px, py))
      {
        var x := -r;
        while x <= r
          invariant -r <= x <= r + 1
          invariant forall px, py | InBounds(width, height, px, py) ::
            At(px, py) == if Scanned(cx, cy, y, x, px, py) && InDisk(cx, cy, radius, px, py)
                          then stroke.color else old(At(px, py))
        {
          var distanceSq := x * x + y * y;
          OffsetDisk(cx, cy, radius, x, y);
          if distanceSq <= r * r {
            var px, py := cx + x, cy + y;
            if InBounds(width, height, px, py) {
              SetPixel(px, py, stroke.color);
            }
          }
          x := x + 1;
        }
        forall px, py | InBounds(width, height, px, py) &&
                        ((py - cy == y && px - cx > r) || (py - cy == y + 1 && px - cx < -r))
          ensures !InDisk(cx, cy, radius, px, py)
        {
          if InDisk(cx, cy, radius, px, py) {
            DiskInSquare(cx, cy, radius, px, py);
          }
        }
        y := y + 1;
      }
      forall px, py | InBounds(width, height, px, py) && InDisk(cx, cy, radius, px, py)
        ensures Scanned(cx, cy, y, -r, px, py)
      {
        DiskInSquare(cx, cy, radius, px, py);
      }
    }

    /** Bresenham's line from `(x0, y0)` to `(x1, y1)` in the stroke colour,
        stamping a pixel (width 1) or a disk of radius `width / 2` at every
        point of the walk. */
    method Line(x0: nat, y0: nat, x1: nat, y1: nat)
      requires Valid()
      modifies buffer
      ensures forall px, py | InBounds(width, height, px, py) ::
        At(px, py) == if Covered(Bresenham.Line(Segment(x0, y0, x1, y1)), ChartRadius(stroke), px, py)
                      then stroke.color else old(At(px, py))
    {
      var l := Segment(x0, y0, x1, y1);
      var err := Dx(l) - Dy(l);
      var x: int, y: int := x0, y0;
      ghost var visited: seq<Point> := [];
      ghost var r := ChartRadius(stroke);
      StartOnTrack(l);
      while true
        invariant OnTrack(l, Walker(x, y, err))
        invariant visited + Trace(l, Walker(x, y, err)) == Bresenham.Line(l)
        invariant forall px, py | InBounds(width, height, px, py) ::
          At(px, py) == if Covered(visited, r, px, py) then stroke.color else old(At(px, py))
        decreases Remaining(l, Walker(x, y, err))
      {
        Stamp(x, y);
        ghost var w := Walker(x, y, err);
        TraceStep(l, visited, w);
        forall px, py ensures Covered(visited + [Point(x, y)], r, px, py) <==>
                              Covered(visited, r, px, py) || InDisk(x, y, r, px, py)
        {
          CoveredSnoc(visited, Point(x, y), r, px, py);
        }
        visited := visited + [Point(x, y)];
        if x == x1 && y == y1 {
          break;
        }
        var next := Step(l, Walker(x, y, err));
        x, y, err := next.x, next.y, next.err;
      }
    }

    /** The stamp the line puts at one point of its walk. */
    method Stamp(x: nat, y: nat)
      requires Valid()
      modifies buffer
      ensures forall px, py | InBounds(width, height, px, py) ::
        At(px, py) == if InDisk(x, y, ChartRadius(stroke), px, py) then stroke.color else old(At(px, py))
    {
      if stroke.width == 1 {
        SetPixel(x, y, stroke.color);
        forall px, py ensures InDisk(x, y, 0, px, py) <==> px == x && py == y {
          DiskZero(x, y, px, py);
        }
      } else {
        Circle(x, y, stroke.width / 2);
      }
    }

    /** The axes through the origin, each drawn only when its range contains
        0, with the axis stroke; the data stroke is restored afterwards. The
        source maps a point (and so computes `width - 1` and `height - 1`)
        before drawing either axis. */
    method ChartAxis()
      requires Valid()
      requires Straddles(xRange) || Straddles(yRange) ==> width >= 1 && height >= 1
      modifies this, buffer
      ensures stroke == old(stroke) && fill == old(fill) && chartAxis == old(chartAxis)
      ensures forall px, py | InBounds(width, height, px, py) ::
        At(px, py) == if OnAxes(xRange, yRange, width, height, ChartRadius(chartAxis), px, py)
                      then chartAxis.color else old(At(px, py))
    {
      var xa: Option<nat>, ya: Option<nat> := None, None;
      if Straddles(xRange) {
        xa := Some(AxisColumn(xRange, yRange, width, height));
      }
      if Straddles(yRange) {
        ya := Some(AxisRow(xRange, yRange, width, height));
      }
      Axes(xa, ya);
    }

    /** The axes at the given column and row, if any. */
    method Axes(xa: Option<nat>, ya: Option<nat>)
      requires Valid() && (xa.Some? || ya.Some? ==> width >= 1 && height >= 1)
      modifies this, buffer
      ensures stroke == old(stroke) && fill == old(fill) && chartAxis == old(chartAxis)
      ensures forall px, py | InBounds(width, height, px, py) ::
        At(px, py) == if AxesCovered(xa, ya, width, height, ChartRadius(chartAxis), px, py)
                      then chartAxis.color else old(At(px, py))
    {
      if xa.Some? {
        AxisLine(xa.value, 0, xa.value, height - 1);
      }
      if ya.Some? {
        AxisLine(0, ya.value, width - 1, ya.value);
      }
    }

    /** One axis: a line drawn with the axis stroke in place of the data
        stroke, which is restored afterwards. */
    method AxisLine(x0: nat, y0: nat, x1: nat, y1: nat)
      requires Valid()
      modifies this, buffer
      ensures stroke == old(stroke) && fill == old(fill) && chartAxis == old(chartAxis)
      ensures forall px, py | InBounds(width, height, px, py) ::
        At(px, py) == if Covered(Bresenham.Line(Segment(x0, y0, x1, y1)), ChartRadius(chartAxis), px, py)
                      then chartAxis.color else old(At(px, py))
    {
      var s := stroke;
      stroke := chartAxis;
      Line(x0, y0, x1, y1);
      stroke := s;
    }

    /** The axes, then the data on top of them: a disk of radius
        `width / 2` per point, or the segments between consecutive points.
        The source computes `len - 1` in unsigned arithmetic for the line
        chart, which panics on an empty series. */
    method Draw(kind: ChartType, data: seq<(real, real)>)
      requires Valid()
      requires (NeedsMapping(kind, data) || Straddles(xRange) || Straddles(yRange)) ==> width >= 1 && height >= 1
      requires kind == Lines ==> |data| >= 1
      modifies this, buffer
      ensures stroke == old(stroke) && fill == old(fill) && chartAxis == old(chartAxis)
      ensures forall px, py | InBounds(width, height, px, py) ::
        At(px, py) ==
          if DataCovered(kind, data, xRange, yRange, width, height, stroke, px, py) then stroke.color
          else if OnAxes(xRange, yRange, width, height, ChartRadius(chartAxis), px, py) then chartAxis.color
          else old(At(px, py))
    {
      ChartAxis();
      match kind {
        case Dots => DrawDots(data);
        case Lines => DrawLines(data);
      }
    }

    /** The dot chart's loop: a disk of radius `width / 2` per point. */
    method DrawDots(data: seq<(real, real)>)
      requires Valid() && (|data| > 0 ==> width >= 1 && height >= 1)
      modifies buffer
      ensures forall px, py | InBounds(width, height, px, py) ::
        At(px, py) == if DataCovered(Dots, data, xRange, yRange, width, height, stroke, px, py)
                      then stroke.color else old(At(px, py))
    {
      ghost var base := buffer[..];
      ghost var done: seq<Point> := [];
      var r := stroke.width / 2;
      forall px, py | InBounds(width, height, px, py) ensures At(px, py) == Was(base, px, py) {
        IndexInRange(width, height, px, py);
      }
      var k := 0;
      while k < |data|
        invariant 0 <= k <= |data| && |done| == k
        invariant forall j | 0 <= j < k :: done[j] == ToPoint(data[j], xRange, yRange, width, height)
        invariant forall px, py | InBounds(width, height, px, py) ::
          At(px, py) == if Covered(done, r, px, py) then stroke.color else Was(base, px, py)
      {
        var col, row := MapPoint(data, k, xRange, yRange, width, height);
        Dot(col, row, r, done, base);
        MappedSnoc(data, xRange, yRange, width, height, done, Point(col, row));
        done := done + [Point(col, row)];
        k := k + 1;
      }
      MapPointsEqual(data, xRange, yRange, width, height, done);
    }

    /** Colour of pixel `(x, y)` in a snapshot of the buffer. */
    ghost function Was(base: seq<int>, x: int, y: int): int
      requires |base| == width * height && InBounds(width, height, x, y)
    {
      IndexInRange(width, height, x, y);
      base[Index(width, x, y)]
    }

    /** One dot of the dot chart: the disk around the point joins the
        disks already painted over the snapshot `base`. */
    method Dot(col: nat, row: nat, r: nat, ghost done: seq<Point>, ghost base: seq<int>)
      requires Valid() && |base| == width * height
      requires forall px, py | InBounds(width, height, px, py) ::
        At(px, py) == if Covered(done, r, px, py) then stroke.color else Was(base, px, py)
      modifies buffer
      ensures forall px, py | InBounds(width, height, px, py) ::
        At(px, py) == if Covered(done + [Point(col, row)], r, px, py) then stroke.color else Was(base, px, py)
    {
      Circle(col, row, r);
      forall px, py {
        CoveredSnoc(done, Point(col, row), r, px, py);
      }
    }

    /** The line chart's loop: the segment from each point to the next; a
        single point gives no segment and maps nothing. */
    method DrawLines(data: seq<(real, real)>)
      requires Valid() && |data| >= 1 && (|data| >= 2 ==> width >= 1 && height >= 1)
      modifies buffer
      ensures forall px, py | InBounds(width, height, px, py) ::
        At(px, py) == if DataCovered(Lines, data, xRange, yRange, width, height, stroke, px, py)
                      then stroke.color else old(At(px, py))
    {
      if |data| >= 2 {
        ghost var done := [ToPoint(data[0], xRange, yRange, width, height)];
        var i := 0;
        while i < |data| - 1
          invariant 0 <= i <= |data| - 1 && |done| == i + 1
          invariant forall j | 0 <= j < |done| :: done[j] == ToPoint(data[j], xRange, yRange, width, height)
          invariant forall px, py | InBounds(width, height, px, py) ::
            At(px, py) == if Covered(Polyline(done), ChartRadius(stroke), px, py) then stroke.color
                          else old(At(px, py))
        {
          var x2, y2 := DrawSegment(data, i);
          ghost var seg := Bresenham.Line(Segment(done[i].x, done[i].y, x2, y2));
          PolylineSnoc(done, Point(x2, y2));
          forall px, py {
            CoveredAppend(Polyline(done), seg, ChartRadius(stroke), px, py);
          }
          MappedSnoc(data, xRange, yRange, width, height, done, Point(x2, y2));
          done := done + [Point(x2, y2)];
          i := i + 1;
        }
        MapPointsEqual(data, xRange, yRange, width, height, done);
      }
    }

    /** One segment of the line chart: the line between data points `i` and
        `i + 1`, both mapped to the buffer; returns the mapped end point. */
    method DrawSegment(data: seq<(real, real)>, i: nat) returns (x2: nat, y2: nat)
      requires Valid() && i + 1 < |data| && width >= 1 && height >= 1
      modifies buffer
      ensures Point(x2, y2) == ToPoint(data[i + 1], xRange, yRange, width, height)
      ensures var p := ToPoint(data[i], xRange, yRange, width, height);
        forall px, py | InBounds(width, height, px, py) ::
          At(px, py) == if Covered(Bresenham.Line(Segment(p.x, p.y, x2, y2)), ChartRadius(stroke), px, py)
                        then stroke.color else old(At(px, py))
    {
      var x1, y1 := MapPoint(data, i, xRange, yRange, width, height);
      x2, y2 := MapPoint(data, i + 1, xRange, yRange, width, height);
      Line(x1, y1, x2, y2);
    }
  }
}
