/** The first, windowless renderer: a bare pixel buffer with drawing
    routines that take their colour (and thickness) as arguments instead of
    keeping a stroke and fill, a built-in 5x7 font, grey-scale bitmaps and a
    chart routine that maps its data itself. */
module Legacy {
  import opened Options
  import opened Canvas
  import opened Bresenham
  import opened Mapping
  import opened Glyphs
  import Table = Font
  import opened ChartKinds

  /** Colour of the chart axes. */
  const AxisColor: int := 0x444444

  /** A grey byte packed into all three channels. The source ors `c << 16`,
      `c << 8` and `c`; for `c < 256` the three are bitwise disjoint, so the
      or is their sum. */
  function Gray(c: Byte): (g: int)
    ensures 0 <= g < 0x100_0000
  {
    c * 0x1_0000 + c * 0x100 + c
  }

  /** The three shifted copies of a byte share no bit, so in 32-bit
      arithmetic their or is their sum, which is `Gray` of the byte. */
  lemma OrIsSum(b: bv32)
    requires b < 0x100
    ensures (b << 16) | (b << 8) | b == (b << 16) + (b << 8) + b
    ensures (b << 16) + (b << 8) + b == b * 0x1_0000 + b * 0x100 + b
    ensures ((b << 16) | (b << 8) | b) as int == Gray(b as int)
  {
    assert (b << 16) | (b << 8) | b == b * 0x1_0000 + b * 0x100 + b;
    var n := b as int;
    assert (b * 0x1_0000 + b * 0x100 + b) as int == n * 0x1_0000 + n * 0x100 + n;
  }

  /** Red, green and blue of a grey are all the byte itself. */
  lemma GrayChannels(c: Byte)
    ensures Gray(c) / 0x1_0000 == c
    ensures Gray(c) / 0x100 % 0x100 == c
    ensures Gray(c) % 0x100 == c
  {
    var g := Gray(c);
    assert g == c * 0x1_0000 + c * 0x101;
    DivBlock(g, 0x1_0000, c);
    assert g == (c * 0x101) * 0x100 + c;
    DivBlock(g, 0x100, c * 0x101);
    assert c * 0x101 == c * 0x100 + c;
    DivBlock(c * 0x101, 0x100, c);
  }

  /** Pixel `(px, py)` is covered by the `w x h` bitmap drawn at `(x, y)`
      with `scale x scale` blocks: its cell, found by dividing the offset by
      the scale, is a cell of the bitmap. */
  predicate InImage(x: int, y: int, w: nat, h: nat, scale: nat, px: int, py: int)
  {
    scale > 0 && x <= px && y <= py && (px - x) / scale < w && (py - y) / scale < h
  }

  /** The colour the bitmap gives pixel `(px, py)`: the grey of its cell. */
  function ImagePixel(bitmap: seq<Byte>, x: int, y: int, w: nat, h: nat, scale: nat, px: int, py: int): int
    requires |bitmap| >= w * h && InImage(x, y, w, h, scale, px, py)
  {
    var (col, row) := ((px - x) / scale, (py - y) / scale);
    IndexInRange(w, h, col, row);
    Gray(bitmap[Index(w, col, row)])
  }

  /** Pixel `(px, py)` is covered by the bitmap and its cell comes before
      cell `(crow, ccol)` in row-major order. */
  predicate StampedBefore(x: int, y: int, w: nat, h: nat, scale: nat, px: int, py: int, crow: int, ccol: int)
  {
    && InImage(x, y, w, h, scale, px, py)
    && var (col, row) := ((px - x) / scale, (py - y) / scale);
       row < crow || (row == crow && col < ccol)
  }

  /** The block stamped for cell `(row, col)` is exactly the set of pixels
      whose cell it is. */
  lemma CellStep(x: int, y: int, w: nat, h: nat, scale: nat, px: int, py: int, row: nat, col: nat)
    requires scale > 0 && row < h && col < w
    ensures var (left, top) := (x + col * scale, y + row * scale);
      var inBlock := left <= px < left + scale && top <= py < top + scale;
      && (StampedBefore(x, y, w, h, scale, px, py, row, col + 1) <==>
            StampedBefore(x, y, w, h, scale, px, py, row, col) || inBlock)
      && (inBlock ==> InImage(x, y, w, h, scale, px, py) && (px - x) / scale == col && (py - y) / scale == row)
  {
    DivBlock(px - x, scale, col);
    DivBlock(py - y, scale, row);
    MulMonotone(0, col, scale);
    MulMonotone(0, row, scale);
  }

  /** A bitmap row ends where the next begins; before the first cell nothing
      is stamped, and before row `h` everything is. */
  lemma StampedBounds(x: int, y: int, w: nat, h: nat, scale: nat, px: int, py: int, row: int)
    ensures StampedBefore(x, y, w, h, scale, px, py, row, w) <==> StampedBefore(x, y, w, h, scale, px, py, row + 1, 0)
    ensures !StampedBefore(x, y, w, h, scale, px, py, 0, 0)
    ensures StampedBefore(x, y, w, h, scale, px, py, h, 0) <==> InImage(x, y, w, h, scale, px, py)
  {
  }

  /** Radius the line stamps: single pixels at thickness 1, otherwise disks
      of radius `thickness / 2`. */
  function StampRadius(thickness: nat): nat
  {
    if thickness == 1 then 0 else thickness / 2
  }

  /** Pixel `(px, py)` lies on an axis: the column of abscissa 0 when the x
      range contains 0, the row of ordinate 0 when the y range does. */
  predicate OnAxis(xr: Range, yr: Range, w: nat, h: nat, px: int, py: int)
  {
    && w >= 1 && h >= 1
    && ((Straddles(xr) && px == AxisColumn(xr, yr, w, h)) || (Straddles(yr) && py == AxisRow(xr, yr, w, h)))
  }

  /** Pixel `(px, py)` is painted by the data: disks of radius `thickness`
      (not half of it) around the mapped points, or the lines of the given
      thickness between consecutive mapped points. */
  predicate PlotCovered(kind: ChartType, data: seq<(real, real)>, xr: Range, yr: Range, w: nat, h: nat,
                        thickness: nat, px: int, py: int)
    requires NeedsMapping(kind, data) ==> w >= 1 && h >= 1
  {
    match kind
    case Dots => Covered(MapPoints(data, xr, yr, w, h), thickness, px, py)
    case Lines => |data| >= 2 && Covered(Polyline(MapPoints(data, xr, yr, w, h)), StampRadius(thickness), px, py)
  }

  class Screen {
    const width: nat
    const height: nat
    /** Row-major, `width * height` packed colours. */
    const buffer: array<int>

    ghost predicate Valid()
    {
      buffer.Length == width * height
    }

    /** The colour of pixel `(x, y)`. */
    function At(x: int, y: int): int
      reads buffer
      requires Valid() && InBounds(width, height, x, y)
    {
      IndexInRange(width, height, x, y);
      buffer[Index(width, x, y)]
    }

    /** Colour of pixel `(x, y)` in a snapshot of the buffer. */
    ghost function Was(base: seq<int>, x: int, y: int): int
      requires |base| == width * height && InBounds(width, height, x, y)
    {
      IndexInRange(width, height, x, y);
      base[Index(width, x, y)]
    }

    /** A black buffer. */
    constructor (width: nat, height: nat)
      ensures Valid() && this.width == width && this.height == height && fresh(buffer)
      ensures forall i | 0 <= i < buffer.Length :: buffer[i] == 0
    {
      this.width := width;
      this.height := height;
      buffer := new int[width * height](_ => 0);
    }

    /** Paints every pixel black. */
    method Clear()
      requires Valid()
      modifies buffer
      ensures forall i | 0 <= i < buffer.Length :: buffer[i] == 0
      ensures forall px, py | InBounds(width, height, px, py) :: At(px, py) == 0
    {
      forall i | 0 <= i < buffer.Length {
        buffer[i] := 0;
      }
      forall px, py | InBounds(width, height, px, py) ensures At(px, py) == 0 {
        IndexInRange(width, height, px, py);
      }
    }

    /** Writes one pixel if it is on the buffer and ignores it otherwise. */
    method SetPixel(x: nat, y: nat, color: int)
      requires Valid()
      modifies buffer
      ensures forall px, py | InBounds(width, height, px, py) ::
        At(px, py) == if px == x && py == y then color else old(At(px, py))
    {
      if x < width && y < height {
        IndexInRange(width, height, x, y);
        buffer[Index(width, x, y)] := color;
        forall px, py | InBounds(width, height, px, py)
          ensures At(px, py) == if px == x && py == y then color else old(At(px, py))
        {
          IndexInRange(width, height, px, py);
          if px != x || py != y {
            if Index(width, px, py) == Index(width, x, y) {
              IndexInjective(width, px, py, x, y);
            }
          }
        }
      }
    }

    /** A solid disk of radius `radius` around `(cx, cy)`. The scan covers
        the square around the disk, cut off at row and column 0. */
    method DrawCircle(cx: nat, cy: nat, radius: nat, color: int)
      requires Valid()
      modifies buffer
      ensures forall px, py | InBounds(width, height, px, py) ::
        At(px, py) == if InDisk(cx, cy, radius, px, py) then color else old(At(px, py))
    {
      var y0: nat := if cy < radius then 0 else cy - radius;
      var x0: nat := if cx < radius then 0 else cx - radius;
      var y := y0;
      forall px, py | InBounds(width, height, px, py) && Scanned(0, 0, y, x0, px, py)
        ensures !InDisk(cx, cy, radius, px, py)
      {
        if InDisk(cx, cy, radius, px, py) {
          DiskInSquare(cx, cy, radius, px, py);
        }
      }
      while y <= cy + radius
        invariant y0 <= y <= cy + radius + 1
        invariant forall px, py | InBounds(width, height, px, py) ::
          At(px, py) == if Scanned(0, 0, y, x0, px, py) && InDisk(cx, cy, radius, px, py)
                        then color else old(At(px, py))
      {
        var x := x0;
        while x <= cx + radius
          invariant x0 <= x <= cx + radius + 1
          invariant forall px, py | InBounds(width, height, px, py) ::
            At(px, py) == if Scanned(0, 0, y, x, px, py) && InDisk(cx, cy, radius, px, py)
                          then color else old(At(px, py))
        {
          var (dx, dy) := (x - cx, y - cy);
          if dx * dx + dy * dy <= radius * radius {
            SetPixel(x, y, color);
          }
          x := x + 1;
        }
        forall px, py | InBounds(width, height, px, py) &&
                        ((py == y && px > cx + radius) || (py == y + 1 && px < x0))
          ensures !InDisk(cx, cy, radius, px, py)
        {
          if InDisk(cx, cy, radius, px, py) {
            DiskInSquare(cx, cy, radius, px, py);
          }
        }
        y := y + 1;
      }
      forall px, py | InBounds(width, height, px, py) && InDisk(cx, cy, radius, px, py)
        ensures Scanned(0, 0, y, x0, px, py)
      {
        DiskInSquare(cx, cy, radius, px, py);
      }
    }

    /** The `size x size` square with top-left corner `(x, y)`, clipped to
        the buffer. */
    method DrawBlock(x: nat, y: nat, size: nat, color: int)
      requires Valid()
      modifies buffer
      ensures forall px, py | InBounds(width, height, px, py) ::
        At(px, py) == if x <= px < x + size && y <= py < y + size then color else old(At(px, py))
    {
      var dy := 0;
      while dy < size
        invariant 0 <= dy <= size
        invariant forall px, py | InBounds(width, height, px, py) ::
          At(px, py) == if x <= px < x + size && y <= py < y + dy then color else old(At(px, py))
      {
        var dx := 0;
        while dx < size
          invariant 0 <= dx <= size
          invariant forall px, py | InBounds(width, height, px, py) ::
            At(px, py) == if x <= px < x + size && (y <= py < y + dy || (py == y + dy && px < x + dx))
                          then color else old(At(px, py))
        {
          SetPixel(x + dx, y + dy, color);
          dx := dx + 1;
        }
        dy := dy + 1;
      }
    }

    /** The `w x h` grey-scale bitmap (row-major bytes) at `(x, y)`, each
        byte a `scale x scale` grey block: every pixel of the scaled image
        takes the grey of its cell. The source indexes the bitmap without a
        check, hence the length precondition. */
    method DrawBitmap(x: nat, y: nat, bitmap: seq<Byte>, w: nat, h: nat, scale: nat)
      requires Valid() && |bitmap| >= w * h
      modifies buffer
      ensures forall px, py | InBounds(width, height, px, py) ::
        At(px, py) == if InImage(x, y, w, h, scale, px, py) then ImagePixel(bitmap, x, y, w, h, scale, px, py)
                      else old(At(px, py))
    {
      var row := 0;
      while row < h
        invariant 0 <= row <= h
        invariant forall px, py | InBounds(width, height, px, py) ::
          At(px, py) == if StampedBefore(x, y, w, h, scale, px, py, row, 0)
                        then ImagePixel(bitmap, x, y, w, h, scale, px, py) else old(At(px, py))
      {
        var col := 0;
        while col < w
          invariant 0 <= col <= w
          invariant forall px, py | InBounds(width, height, px, py) ::
            At(px, py) == if StampedBefore(x, y, w, h, scale, px, py, row, col)
                          then ImagePixel(bitmap, x, y, w, h, scale, px, py) else old(At(px, py))
        {
          var (left, top) := (x + col * scale, y + row * scale);
          IndexInRange(w, h, col, row);
          var color := Gray(bitmap[row * w + col]);
          DrawBlock(left, top, scale, color);
          if scale > 0 {
            forall px, py | InBounds(width, height, px, py) {
              CellStep(x, y, w, h, scale, px, py, row, col);
            }
          }
          col := col + 1;
        }
        forall px, py | InBounds(width, height, px, py) {
          StampedBounds(x, y, w, h, scale, px, py, row);
        }
        row := row + 1;
      }
      forall px, py | InBounds(width, height, px, py) {
        StampedBounds(x, y, w, h, scale, px, py, row);
      }
    }

    /** The stamp the line puts at one point of its walk. */
    method DrawStamp(x: nat, y: nat, thickness: nat, color: int)
      requires Valid()
      modifies buffer
      ensures forall px, py | InBounds(width, height, px, py) ::
        At(px, py) == if InDisk(x, y, StampRadius(thickness), px, py) then color else old(At(px, py))
    {
      if thickness == 1 {
        SetPixel(x, y, color);
        forall px, py ensures InDisk(x, y, 0, px, py) <==> px == x && py == y {
          DiskZero(x, y, px, py);
        }
      } else {
        DrawCircle(x, y, thickness / 2, color);
      }
    }

    /** Bresenham's line from `start` to `end`, stamping a pixel (thickness
        1) or a disk of radius `thickness / 2` at every point of the walk. */
    method DrawLine(start: (nat, nat), end: (nat, nat), thickness: nat, color: int)
      requires Valid()
      modifies buffer
      ensures forall px, py | InBounds(width, height, px, py) ::
        At(px, py) == if Covered(Bresenham.Line(Segment(start.0, start.1, end.0, end.1)), StampRadius(thickness), px, py)
                      then color else old(At(px, py))
    {
      var (x0, y0) := start;
      var (x1, y1) := end;
      var l := Segment(x0, y0, x1, y1);
      var err := Dx(l) - Dy(l);
      var x: int, y: int := x0, y0;
      ghost var visited: seq<Point> := [];
      ghost var r := StampRadius(thickness);
      StartOnTrack(l);
      while true
        invariant OnTrack(l, Walker(x, y, err))
        invariant visited + Trace(l, Walker(x, y, err)) == Bresenham.Line(l)
        invariant forall px, py | InBounds(width, height, px, py) ::
          At(px, py) == if Covered(visited, r, px, py) then color else old(At(px, py))
        decreases Remaining(l, Walker(x, y, err))
      {
        DrawStamp(x, y, thickness, color);
        ghost var w := Walker(x, y, err);
        TraceStep(l, visited, w);
        forall px, py ensures Covered(visited + [Point(x, y)], r, px, py) <==>
                              Covered(visited, r, px, py) || InDisk(x, y, r, px, py)
        {
          CoveredSnoc(visited, Point(x, y), r, px, py);
        }
        visited := visited + [Point(x, y)];
        if x == x1 && y == y1 {
          break;
        }
        var next := Step(l, Walker(x, y, err));
        x, y, err := next.x, next.y, next.err;
      }
    }

    /** A chart over the data window `xr x yr`: the axes through the origin
        in grey, then the data in `color` on top of them. `hasGrid` has no
        effect. The mapping computes `width - 1` and `height - 1` in unsigned
        arithmetic, which panics on an empty dimension once a point is
        mapped. */
    method DrawChart(kind: ChartType, hasGrid: bool, data: seq<(real, real)>, xr: Range, yr: Range,
                     thickness: nat, color: int)
      requires Valid()
      requires (NeedsMapping(kind, data) || Straddles(xr) || Straddles(yr)) ==> width >= 1 && height >= 1
      modifies buffer
      ensures forall px, py | InBounds(width, height, px, py) ::
        At(px, py) ==
          if PlotCovered(kind, data, xr, yr, width, height, thickness, px, py) then color
          else if OnAxis(xr, yr, width, height, px, py) then AxisColor
          else old(At(px, py))
    {
      DrawAxes(xr, yr);
      match kind {
        case Dots => PlotDots(data, xr, yr, thickness, color);
        case Lines => PlotLines(data, xr, yr, thickness, color);
      }
    }

    /** The axes of a chart over `xr x yr`: the grey column of abscissa 0
        when the x range contains 0 and the grey row of ordinate 0 when the
        y range does. Both positions are mapped before either is drawn. */
    method DrawAxes(xr: Range, yr: Range)
      requires Valid()
      requires (Straddles(xr) || Straddles(yr)) ==> width >= 1 && height >= 1
      modifies buffer
      ensures forall px, py | InBounds(width, height, px, py) ::
        At(px, py) == if OnAxis(xr, yr, width, height, px, py) then AxisColor else old(At(px, py))
    {
      var zeroX: Option<nat> := if Straddles(xr) then Some(ToBuffer(0.0, yr.lo, xr, yr, width, height).0) else None;
      var zeroY: Option<nat> := if Straddles(yr) then Some(ToBuffer(xr.lo, 0.0, xr, yr, width, height).1) else None;
      if zeroX.Some? {
        AxisColumnLine(zeroX.value);
      }
      if zeroY.Some? {
        AxisRowLine(zeroY.value);
      }
    }

    /** The vertical axis: column `x`, every row. */
    method AxisColumnLine(x: nat)
      requires Valid()
      modifies buffer
      ensures forall px, py | InBounds(width, height, px, py) ::
        At(px, py) == if px == x then AxisColor else old(At(px, py))
    {
      var y := 0;
      while y < height
        invariant 0 <= y <= height
        invariant forall px, py | InBounds(width, height, px, py) ::
          At(px, py) == if px == x && py < y then AxisColor else old(At(px, py))
      {
        SetPixel(x, y, AxisColor);
        y := y + 1;
      }
    }

    /** The horizontal axis: row `y`, every column. */
    method AxisRowLine(y: nat)
      requires Valid()
      modifies buffer
      ensures forall px, py | InBounds(width, height, px, py) ::
        At(px, py) == if py == y then AxisColor else old(At(px, py))
    {
      var x := 0;
      while x < width
        invariant 0 <= x <= width
        invariant forall px, py | InBounds(width, height, px, py) ::
          At(px, py) == if py == y && px < x then AxisColor else old(At(px, py))
      {
        SetPixel(x, y, AxisColor);
        x := x + 1;
      }
    }

    /** The dot chart: a disk of radius `thickness` per point. */
    method PlotDots(data: seq<(real, real)>, xr: Range, yr: Range, thickness: nat, color: int)
      requires Valid() && (|data| > 0 ==> width >= 1 && height >= 1)
      modifies buffer
      ensures forall px, py | InBounds(width, height, px, py) ::
        At(px, py) == if PlotCovered(Dots, data, xr, yr, width, height, thickness, px, py)
                      then color else old(At(px, py))
    {
      ghost var base := buffer[..];
      ghost var done: seq<Point> := [];
      forall px, py | InBounds(width, height, px, py) ensures At(px, py) == Was(base, px, py) {
        IndexInRange(width, height, px, py);
      }
      var k := 0;
      while k < |data|
        invariant 0 <= k <= |data| && |done| == k
        invariant forall j | 0 <= j < k :: done[j] == ToPoint(data[j], xr, yr, width, height)
        invariant forall px, py | InBounds(width, height, px, py) ::
          At(px, py) == if Covered(done, thickness, px, py) then color else Was(base, px, py)
      {
        var sx, sy := MapPoint(data, k, xr, yr, width, height);
        Dot(sx, sy, thickness, color, done, base);
        MappedSnoc(data, xr, yr, width, height, done, Point(sx, sy));
        done := done + [Point(sx, sy)];
        k := k + 1;
      }
      MapPointsEqual(data, xr, yr, width, height, done);
    }

    /** One dot: the disk around the point joins the disks already painted
        over the snapshot `base`. */
    method Dot(cx: nat, cy: nat, r: nat, color: int, ghost done: seq<Point>, ghost base: seq<int>)
      requires Valid() && |base| == width * height
      requires forall px, py | InBounds(width, height, px, py) ::
        At(px, py) == if Covered(done, r, px, py) then color else Was(base, px, py)
      modifies buffer
      ensures forall px, py | InBounds(width, height, px, py) ::
        At(px, py) == if Covered(done + [Point(cx, cy)], r, px, py) then color else Was(base, px, py)
    {
      DrawCircle(cx, cy, r, color);
      forall px, py {
        CoveredSnoc(done, Point(cx, cy), r, px, py);
      }
    }

    /** The line chart: a line between every two consecutive points, so
        fewer than two points draw nothing. */
    method PlotLines(data: seq<(real, real)>, xr: Range, yr: Range, thickness: nat, color: int)
      requires Valid() && (|data| >= 2 ==> width >= 1 && height >= 1)
      modifies buffer
      ensures forall px, py | InBounds(width, height, px, py) ::
        At(px, py) == if PlotCovered(Lines, data, xr, yr, width, height, thickness, px, py)
                      then color else old(At(px, py))
    {
      if |data| >= 2 {
        ghost var done := [ToPoint(data[0], xr, yr, width, height)];
        var i := 0;
        while i < |data| - 1
          invariant 0 <= i <= |data| - 1 && |done| == i + 1
          invariant forall j | 0 <= j < |done| :: done[j] == ToPoint(data[j], xr, yr, width, height)
          invariant forall px, py | InBounds(width, height, px, py) ::
            At(px, py) == if Covered(Polyline(done), StampRadius(thickness), px, py) then color
                          else old(At(px, py))
        {
          var x1, y1 := PlotSegment(data, i, xr, yr, thickness, color);
          ghost var seg := Bresenham.Line(Segment(done[i].x, done[i].y, x1, y1));
          PolylineSnoc(done, Point(x1, y1));
          forall px, py {
            CoveredAppend(Polyline(done), seg, StampRadius(thickness), px, py);
          }
          MappedSnoc(data, xr, yr, width, height, done, Point(x1, y1));
          done := done + [Point(x1, y1)];
          i := i + 1;
        }
        MapPointsEqual(data, xr, yr, width, height, done);
      }
    }

    /** The line between the window `(a, b)` of data points `i` and `i + 1`,
        both mapped; returns the mapped end point. */
    method PlotSegment(data: seq<(real, real)>, i: nat, xr: Range, yr: Range, thickness: nat, color: int)
      returns (x1: nat, y1: nat)
      requires Valid() && i + 1 < |data| && width >= 1 && height >= 1
      modifies buffer
      ensures Point(x1, y1) == ToPoint(data[i + 1], xr, yr, width, height)
      ensures var p := ToPoint(data[i], xr, yr, width, height);
        forall px, py | InBounds(width, height, px, py) ::
          At(px, py) == if Covered(Bresenham.Line(Segment(p.x, p.y, x1, y1)), StampRadius(thickness), px, py)
                        then color else old(At(px, py))
    {
      var x0, y0 := MapPoint(data, i, xr, yr, width, height);
      x1, y1 := MapPoint(data, i + 1, xr, yr, width, height);
      DrawLine((x0, y0), (x1, y1), thickness, color);
    }

    /** `text` in the built-in 5x7 font at `(x, y)`, `scale` pixels per font
        pixel: every set bit of a glyph becomes a `scale x scale` block in
        `color`; characters without a glyph still take their slot. */
    method DrawText(x: nat, y: nat, text: string, color: int, scale: nat)
      requires Valid()
      modifies buffer
      ensures forall px, py | InBounds(width, height, px, py) ::
        At(px, py) == if TextLit(Table.Glyph5x7, text, x, y, scale, px, py) then color else old(At(px, py))
    {
      DrawGlyphs(x, y, text, color, scale, Table.Glyph5x7);
    }

    /** The loops of `DrawText` over the glyphs of `font`. */
    method DrawGlyphs(x: nat, y: nat, text: string, color: int, scale: nat, font: Font)
      requires Valid()
      modifies buffer
      ensures forall px, py | InBounds(width, height, px, py) ::
        At(px, py) == if TextLit(font, text, x, y, scale, px, py) then color else old(At(px, py))
    {
      ghost var base := buffer[..];
      forall px, py | InBounds(width, height, px, py) ensures At(px, py) == Was(base, px, py) {
        IndexInRange(width, height, px, py);
      }
      var i := 0;
      while i < |text|
        invariant 0 <= i <= |text|
        invariant forall px, py | InBounds(width, height, px, py) ::
          At(px, py) == if LitBefore(font, text, x, y, scale, px, py, i, 0, 0) then color else Was(base, px, py)
      {
        DrawChar(x, y, text, color, scale, font, i, base);
        i := i + 1;
      }
      forall px, py | InBounds(width, height, px, py) {
        LitBeforeBounds(font, text, x, y, scale, px, py);
      }
    }

    /** Character `i`: the lit cells of its glyph, if the font has one, join
        the cells of the characters before it. */
    method DrawChar(x: nat, y: nat, text: string, color: int, scale: nat, font: Font, i: nat,
                    ghost base: seq<int>)
      requires Valid() && |base| == width * height && i < |text|
      requires forall px, py | InBounds(width, height, px, py) ::
        At(px, py) == if LitBefore(font, text, x, y, scale, px, py, i, 0, 0) then color else Was(base, px, py)
      modifies buffer
      ensures forall px, py | InBounds(width, height, px, py) ::
        At(px, py) == if LitBefore(font, text, x, y, scale, px, py, i + 1, 0, 0) then color else Was(base, px, py)
    {
      var glyph := font(text[i]);
      if glyph.None? {
        forall px, py | InBounds(width, height, px, py) {
          LitSkip(font, text, x, y, scale, px, py, i);
        }
        return;
      }
      var xOffset := x + i * Advance * scale;
      var row := 0;
      while row < CharHeight
        invariant 0 <= row <= CharHeight
        invariant forall px, py | InBounds(width, height, px, py) ::
          At(px, py) == if LitBefore(font, text, x, y, scale, px, py, i, row, 0) then color else Was(base, px, py)
      {
        var col := 0;
        while col < CharWidth
          invariant 0 <= col <= CharWidth
          invariant forall px, py | InBounds(width, height, px, py) ::
            At(px, py) == if LitBefore(font, text, x, y, scale, px, py, i, row, col) then color else Was(base, px, py)
        {
          if BitSet(glyph.value.Row(row), col) {
            DrawBlock(xOffset + col * scale, y + row * scale, scale, color);
          }
          if scale > 0 {
            forall px, py | InBounds(width, height, px, py) {
              LitStep(font, text, x, y, scale, px, py, i, row, col);
            }
          }
          col := col + 1;
        }
        forall px, py | InBounds(width, height, px, py) {
          LitRowEnd(font, text, x, y, scale, px, py, i, row);
        }
        row := row + 1;
      }
      forall px, py | InBounds(width, height, px, py) {
        LitSlotEnd(font, text, x, y, scale, px, py, i);
      }
    }
  }
}
