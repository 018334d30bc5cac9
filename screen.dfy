/** The windowed renderer: a pixel buffer with a current stroke and fill,
    and drawing operations (circle, Bresenham line, rectangle, text,
    buffer blit) that write into it. The window itself is not modelled. */
module Renderer {
  import opened Options
  import opened Canvas
  import opened Styles
  import opened Bresenham
  import opened Glyphs

  /** What the circle rasteriser leaves at `(px, py)`: inside the outer disk
      the fill colour within the inner disk and the stroke colour in the
      band beyond it; outside, the pixel keeps its colour `under`. */
  function DiskColor(cx: int, cy: int, b: Band, ink: int, paper: int, px: int, py: int, under: int): int
  {
    if !InDisk(cx, cy, b.outer, px, py) then under
    else if InDisk(cx, cy, b.inner, px, py) then paper
    else ink
  }

  /** Radius of the disk each point of a line stamps: a width-1 line sets
      single pixels; any other width stamps a circle of radius `width / 2`
      drawn with the current stroke geometry, so its outer radius is that
      of the circle's stroke band. */
  function LineRadius(s: Stroke): nat
  {
    if s.width == 1 then 0 else CircleBand(s.width / 2, s).outer
  }

  /** What a rectangle leaves at `(px, py)`: inside frame `f`, the stroke
      colour within the stroke width of an edge and the fill elsewhere
      (unless only the stroke is drawn); outside, the old colour. */
  function RectColor(f: Frame, s: Stroke, paper: int, onlyStroke: bool, px: int, py: int, under: int): int
  {
    if !(f.x <= px < f.x + f.width && f.y <= py < f.y + f.height) then under
    else if EdgeBand(px - f.x, py - f.y, f.width, f.height, s.width) then s.color
    else if onlyStroke then under
    else paper
  }

  /** What copying the `w x h` image `src` to `(x0, y0)` leaves at
      `(px, py)`. */
  function ImageColor(x0: int, y0: int, src: seq<int>, w: nat, h: nat, px: int, py: int, under: int): int
    requires |src| >= w * h
  {
    if x0 <= px < x0 + w && y0 <= py < y0 + h then
      ImageIndex(w, h, px - x0, py - y0);
      src[(py - y0) * w + (px - x0)]
    else under
  }

  lemma ImageIndex(w: nat, h: nat, x: int, y: int)
    requires 0 <= x < w && 0 <= y < h
    ensures 0 <= y * w + x < w * h
  {
    IndexInRange(w, h, x, y);
  }

  class Screen {
    const width: nat
    const height: nat
    /** Row-major, `width * height` packed colours. */
    const buffer: array<int>
    var stroke: Stroke
    var fill: int

    ghost predicate Valid()
    {
      buffer.Length == width * height
    }

    /** The colour of pixel `(x, y)`. */
    function At(x: int, y: int): int
      reads buffer
      requires Valid() && InBounds(width, height, x, y)
    {
      IndexInRange(width, height, x, y);
      buffer[Index(width, x, y)]
    }

    /** A black buffer, a white centred stroke of width 1, black fill. */
    constructor (width: nat, height: nat)
      ensures Valid() && this.width == width && this.height == height && fresh(buffer)
      ensures stroke == Stroke(0xFFFFFF, 1, Center) && fill == 0
      ensures forall i | 0 <= i < buffer.Length :: buffer[i] == 0
    {
      this.width := width;
      this.height := height;
      buffer := new int[width * height](_ => 0);
      stroke := Stroke(0xFFFFFF, 1, Center);
      fill := 0;
    }

    method StrokeColor(color: int)
      modifies this
      ensures stroke == old(stroke).(color := color) && fill == old(fill)
    {
      stroke := stroke.(color := color);
    }

    method StrokeWidth(w: nat)
      modifies this
      ensures stroke == old(stroke).(width := w) && fill == old(fill)
    {
      stroke := stroke.(width := w);
    }

    method StrokeType(kind: StrokeType)
      modifies this
      ensures stroke == old(stroke).(kind := kind) && fill == old(fill)
    {
      stroke := stroke.(kind := kind);
    }

    method Fill(color: int)
      modifies this
      ensures fill == color && stroke == old(stroke)
    {
      fill := color;
    }

    /** Writes one pixel if it is on the buffer and ignores it otherwise. */
    method SetPixel(x: int, y: int, color: int)
      requires Valid()
      modifies buffer
      ensures forall px, py | InBounds(width, height, px, py) ::
        At(px, py) == if px == x && py == y then color else old(At(px, py))
    {
      if InBounds(width, height, x, y) {
        IndexInRange(width, height, x, y);
        buffer[Index(width, x, y)] := color;
        forall px, py | InBounds(width, height, px, py)
          ensures At(px, py) == if px == x && py == y then color else old(At(px, py))
        {
          IndexInRange(width, height, px, py);
          if px != x || py != y {
            if Index(width, px, py) == Index(width, x, y) {
              IndexInjective(width, px, py, x, y);
            }
          }
        }
      }
    }

    /** Paints every pixel `color`. */
    method Solid(color: int)
      requires Valid()
      modifies buffer
      ensures forall i | 0 <= i < buffer.Length :: buffer[i] == color
      ensures forall px, py | InBounds(width, height, px, py) :: At(px, py) == color
    {
      forall i | 0 <= i < buffer.Length {
        buffer[i] := color;
      }
      forall px, py | InBounds(width, height, px, py) ensures At(px, py) == color {
        IndexInRange(width, height, px, py);
      }
    }

    method Clear()
      requires Valid()
      modifies buffer
      ensures forall i | 0 <= i < buffer.Length :: buffer[i] == 0
      ensures forall px, py | InBounds(width, height, px, py) :: At(px, py) == 0
    {
      Solid(0);
    }

    /** A circle of nominal radius `radius` around `(cx, cy)`, with the stroke
        band of the current stroke and the current fill inside it. The loops
        scan the square around the outer radius; every pixel of it is
        visited once, so the result does not depend on the scan order. */
    method Circle(cx: nat, cy: nat, radius: nat)
      requires Valid()
      modifies buffer
      ensures forall px, py | InBounds(width, height, px, py) ::
        At(px, py) == DiskColor(cx, cy, CircleBand(radius, stroke), stroke.color, fill, px, py, old(At(px, py)))
    {
      var b := CircleBand(radius, stroke);
      var o: int := b.outer;
      var y := -o;
      forall px, py | InBounds(width, height, px, py) && Scanned(cx, cy, y, -o, px, py)
        ensures !InDisk(cx, cy, b.outer, px, py)
      {
        if InDisk(cx, cy, b.outer, px, py) {
          DiskInSquare(cx, cy, b.outer, px, py);
        }
      }
      while y <= o
        invariant -o <= y <= o + 1
        invariant forall px, py | InBounds(width, height, px, py) ::
          At(px, py) == if Scanned(cx, cy, y, -o, px, py)
                        then DiskColor(cx, cy, b, stroke.color, fill, px, py, old(At(px, py)))
                        else old(At(px, py))
      {
        var x := -o;
        while x <= o
          invariant -o <= x <= o + 1
          invariant forall px, py | InBounds(width, height, px, py) ::
            At(px, py) == if Scanned(cx, cy, y, x, px, py)
                          then DiskColor(cx, cy, b, stroke.color, fill, px, py, old(At(px, py)))
                          else old(At(px, py))
        {
          Plot(cx, cy, b, x, y);
          x := x + 1;
        }
        forall px, py | InBounds(width, height, px, py) &&
                        ((py - cy == y && px - cx > o) || (py - cy == y + 1 && px - cx < -o))
          ensures !InDisk(cx, cy, b.outer, px, py)
        {
          if InDisk(cx, cy, b.outer, px, py) {
            DiskInSquare(cx, cy, b.outer, px, py);
          }
        }
        y := y + 1;
      }
      forall px, py | InBounds(width, height, px, py) && InDisk(cx, cy, b.outer, px, py)
        ensures Scanned(cx, cy, y, -o, px, py)
      {
        DiskInSquare(cx, cy, b.outer, px, py);
      }
    }

    /** One step of the circle scan: the pixel at offset `(x, y)` gets its
        disk colour and nothing else changes. */
    method Plot(cx: nat, cy: nat, b: Band, x: int, y: int)
      requires Valid()
      modifies buffer
      ensures forall px, py | InBounds(width, height, px, py) ::
        At(px, py) == if px == cx + x && py == cy + y
                      then DiskColor(cx, cy, b, stroke.color, fill, px, py, old(At(px, py)))
                      else old(At(px, py))
    {
      var distSq := x * x + y * y;
      OffsetDisk(cx, cy, b.outer, x, y);
      OffsetDisk(cx, cy, b.inner, x, y);
      if distSq <= b.outer * b.outer {
        if distSq > b.inner * b.inner {
          SetPixel(cx + x, cy + y, stroke.color);
        } else {
          SetPixel(cx + x, cy + y, fill);
        }
      }
    }

    /** Bresenham's line from `(x0, y0)` to `(x1, y1)`: every point of the
        walk gets a single pixel (width 1) or a circle of radius
        `width / 2` drawn with the fill temporarily set to the stroke
        colour, so exactly the union of those disks takes the stroke colour.
        Stroke and fill are as before. */
    method Line(x0: nat, y0: nat, x1: nat, y1: nat)
      requires Valid()
      modifies this, buffer
      ensures stroke == old(stroke) && fill == old(fill)
      ensures forall px, py | InBounds(width, height, px, py) ::
        At(px, py) == if Covered(Bresenham.Line(Segment(x0, y0, x1, y1)), LineRadius(stroke), px, py)
                      then stroke.color else old(At(px, py))
    {
      var l := Segment(x0, y0, x1, y1);
      var err := Dx(l) - Dy(l);
      var x: int, y: int := x0, y0;
      ghost var visited: seq<Point> := [];
      ghost var r := LineRadius(stroke);
      StartOnTrack(l);
      while true
        invariant OnTrack(l, Walker(x, y, err))
        invariant visited + Trace(l, Walker(x, y, err)) == Bresenham.Line(l)
        invariant stroke == old(stroke) && fill == old(fill)
        invariant forall px, py | InBounds(width, height, px, py) ::
          At(px, py) == if Covered(visited, r, px, py) then stroke.color else old(At(px, py))
        decreases Remaining(l, Walker(x, y, err))
      {
        Stamp(x, y);
        ghost var w := Walker(x, y, err);
        TraceStep(l, visited, w);
        forall px, py ensures Covered(visited + [Point(x, y)], r, px, py) <==>
                              Covered(visited, r, px, py) || InDisk(x, y, r, px, py)
        {
          CoveredSnoc(visited, Point(x, y), r, px, py);
        }
        visited := visited + [Point(x, y)];
        if x == x1 && y == y1 {
          break;
        }
        var next := Step(l, Walker(x, y, err));
        x, y, err := next.x, next.y, next.err;
      }
    }

    /** The stamp the line puts at one point of its walk: a single pixel for
        width 1, otherwise a disk of radius `width / 2`, all in the stroke
        colour. */
    method Stamp(x: nat, y: nat)
      requires Valid()
      modifies this, buffer
      ensures stroke == old(stroke) && fill == old(fill)
      ensures forall px, py | InBounds(width, height, px, py) ::
        At(px, py) == if InDisk(x, y, LineRadius(stroke), px, py) then stroke.color else old(At(px, py))
    {
      if stroke.width == 1 {
        SetPixel(x, y, stroke.color);
        forall px, py ensures InDisk(x, y, 0, px, py) <==> px == x && py == y {
          DiskZero(x, y, px, py);
        }
      } else {
        var f := fill;
        Fill(stroke.color);
        Circle(x, y, stroke.width / 2);
        Fill(f);
        BandPlacement(stroke.width / 2, stroke);
      }
    }

    /** A `rw` by `rh` rectangle at `(x, y)`: the frame it covers grows with
        the stroke geometry, the band within the stroke width of the frame's
        edges takes the stroke colour and the rest the fill colour (or is
        left alone when only the stroke is drawn). The source moves the
        corner with unsigned subtractions, hence the precondition. */
    method Rect(x: nat, y: nat, rw: nat, rh: nat, onlyStroke: bool)
      requires Valid() && FrameFits(x, y, stroke)
      modifies buffer
      ensures forall px, py | InBounds(width, height, px, py) ::
        At(px, py) == RectColor(RectFrame(x, y, rw, rh, stroke), stroke, fill, onlyStroke, px, py, old(At(px, py)))
    {
      var sw := stroke.width;
      var fx: nat, fy: nat, ow: nat, oh: nat;
      match stroke.kind {
        case Inner =>
          fx, fy, ow, oh := x, y, rw, rh;
        case Outer =>
          fx, fy, ow, oh := x - sw, y - sw, rw + sw * 2, rh + sw * 2;
        case Center =>
          fx, fy, ow, oh := x - sw / 2, y - sw / 2, rw + sw, rh + sw;
      }
      var f := Frame(fx, fy, ow, oh);
      assert f == RectFrame(x, y, rw, rh, stroke);
      ScanFrame(f, onlyStroke);
    }

    /** The scan of the frame `f` of a rectangle, row by row. */
    method ScanFrame(f: Frame, onlyStroke: bool)
      requires Valid()
      modifies buffer
      ensures forall px, py | InBounds(width, height, px, py) ::
        At(px, py) == RectColor(f, stroke, fill, onlyStroke, px, py, old(At(px, py)))
    {
      var (fx, fy, ow, oh) := (f.x, f.y, f.width, f.height);
      var dy := 0;
      while dy < oh
        invariant 0 <= dy <= oh
        invariant forall px, py | InBounds(width, height, px, py) ::
          At(px, py) == if Scanned(fx, fy, dy, 0, px, py)
                        then RectColor(f, stroke, fill, onlyStroke, px, py, old(At(px, py)))
                        else old(At(px, py))
      {
        var dx := 0;
        while dx < ow
          invariant 0 <= dx <= ow
          invariant forall px, py | InBounds(width, height, px, py) ::
            At(px, py) == if Scanned(fx, fy, dy, dx, px, py)
                          then RectColor(f, stroke, fill, onlyStroke, px, py, old(At(px, py)))
                          else old(At(px, py))
        {
          RectPlot(f, dx, dy, onlyStroke);
          dx := dx + 1;
        }
        dy := dy + 1;
      }
    }

    /** One step of the rectangle scan: the pixel at offset `(dx, dy)` of
        frame `f` gets its rectangle colour and nothing else changes. The
        three geometries write the test differently; all three are the
        edge-band test. */
    method RectPlot(f: Frame, dx: nat, dy: nat, onlyStroke: bool)
      requires Valid() && dx < f.width && dy < f.height
      modifies buffer
      ensures forall px, py | InBounds(width, height, px, py) ::
        At(px, py) == if px == f.x + dx && py == f.y + dy
                      then RectColor(f, stroke, fill, onlyStroke, px, py, old(At(px, py)))
                      else old(At(px, py))
    {
      var sw := stroke.width;
      var (ow, oh) := (f.width, f.height);
      assert (f.x + dx) - f.x == dx && (f.y + dy) - f.y == dy;
      match stroke.kind {
        case Inner =>
          InnerTestIsEdgeBand(dx, dy, ow, oh, sw);
          if dx >= sw && dx < ow - sw && dy >= sw && dy < oh - sw {
            if !onlyStroke {
              SetPixel(f.x + dx, f.y + dy, fill);
            }
          } else {
            SetPixel(f.x + dx, f.y + dy, stroke.color);
          }
        case Outer =>
          if dx < sw || dx >= ow - sw || dy < sw || dy >= oh - sw {
            SetPixel(f.x + dx, f.y + dy, stroke.color);
          } else if !onlyStroke {
            SetPixel(f.x + dx, f.y + dy, fill);
          }
        case Center =>
          if dx < sw || dx >= ow - sw || dy < sw || dy >= oh - sw {
            SetPixel(f.x + dx, f.y + dy, stroke.color);
          } else if !onlyStroke {
            SetPixel(f.x + dx, f.y + dy, fill);
          }
      }
    }

    /** `text` in the 5x7 font `font`, `scale` pixels per font pixel, in the
        stroke colour: every set bit of a glyph becomes a filled square drawn
        as a rectangle with stroke width 0 and the fill set to the stroke
        colour. Stroke and fill are as before. */
    method Text(x: nat, y: nat, text: string, scale: nat, font: Font)
      requires Valid()
      modifies this, buffer
      ensures stroke == old(stroke) && fill == old(fill)
      ensures forall px, py | InBounds(width, height, px, py) ::
        At(px, py) == if TextLit(font, text, x, y, scale, px, py) then stroke.color else old(At(px, py))
    {
      ghost var base := buffer[..];
      forall px, py | InBounds(width, height, px, py) ensures At(px, py) == Was(base, px, py) {
        IndexInRange(width, height, px, py);
      }
      var i := 0;
      while i < |text|
        invariant 0 <= i <= |text|
        invariant stroke == old(stroke) && fill == old(fill)
        invariant forall px, py | InBounds(width, height, px, py) ::
          At(px, py) == if LitBefore(font, text, x, y, scale, px, py, i, 0, 0) then stroke.color else Was(base, px, py)
      {
        DrawChar(x, y, text, scale, font, i, base);
        i := i + 1;
      }
      forall px, py | InBounds(width, height, px, py) {
        LitBeforeBounds(font, text, x, y, scale, px, py);
      }
    }

    /** The pixels of a buffer snapshot. */
    ghost function Was(base: seq<int>, x: int, y: int): int
      requires |base| == width * height && InBounds(width, height, x, y)
    {
      IndexInRange(width, height, x, y);
      base[Index(width, x, y)]
    }

    /** Character `i`: the lit cells of its glyph, if the font has one, join
        the cells of the characters before it. */
    method DrawChar(x: nat, y: nat, text: string, scale: nat, font: Font, i: nat, ghost base: seq<int>)
      requires Valid() && |base| == width * height && i < |text|
      requires forall px, py | InBounds(width, height, px, py) ::
        At(px, py) == if LitBefore(font, text, x, y, scale, px, py, i, 0, 0) then stroke.color else Was(base, px, py)
      modifies this, buffer
      ensures stroke == old(stroke) && fill == old(fill)
      ensures forall px, py | InBounds(width, height, px, py) ::
        At(px, py) == if LitBefore(font, text, x, y, scale, px, py, i + 1, 0, 0) then stroke.color else Was(base, px, py)
    {
      var glyph := font(text[i]);
      if glyph.None? {
        forall px, py | InBounds(width, height, px, py) {
          LitSkip(font, text, x, y, scale, px, py, i);
        }
        return;
      }
      var xOffset := x + i * Advance * scale;
      var row := 0;
      while row < CharHeight
        invariant 0 <= row <= CharHeight
        invariant stroke == old(stroke) && fill == old(fill)
        invariant forall px, py | InBounds(width, height, px, py) ::
          At(px, py) == if LitBefore(font, text, x, y, scale, px, py, i, row, 0) then stroke.color else Was(base, px, py)
      {
        var col := 0;
        while col < CharWidth
          invariant 0 <= col <= CharWidth
          invariant stroke == old(stroke) && fill == old(fill)
          invariant forall px, py | InBounds(width, height, px, py) ::
            At(px, py) == if LitBefore(font, text, x, y, scale, px, py, i, row, col) then stroke.color else Was(base, px, py)
        {
          if BitSet(glyph.value.Row(row), col) {
            GlyphBlock(xOffset + col * scale, y + row * scale, scale);
          }
          if scale > 0 {
            forall px, py | InBounds(width, height, px, py) {
              LitStep(font, text, x, y, scale, px, py, i, row, col);
            }
          }
          col := col + 1;
        }
        forall px, py | InBounds(width, height, px, py) {
          LitRowEnd(font, text, x, y, scale, px, py, i, row);
        }
        row := row + 1;
      }
      forall px, py | InBounds(width, height, px, py) {
        LitSlotEnd(font, text, x, y, scale, px, py, i);
      }
    }

    /** One lit font pixel: a `size x size` square at `(left, top)` in the
        stroke colour, drawn as a rectangle of stroke width 0 whose fill is
        the stroke colour; stroke and fill are restored afterwards. */
    method GlyphBlock(left: nat, top: nat, size: nat)
      requires Valid()
      modifies this, buffer
      ensures stroke == old(stroke) && fill == old(fill)
      ensures forall px, py | InBounds(width, height, px, py) ::
        At(px, py) == if left <= px < left + size && top <= py < top + size then stroke.color
                      else old(At(px, py))
    {
      var fillColor := fill;
      var strokeWidth := stroke.width;
      Fill(stroke.color);
      StrokeWidth(0);
      Rect(left, top, size, size, false);
      Fill(fillColor);
      StrokeWidth(strokeWidth);
    }

    /** Copies the `w x h` image `src` (row-major) to `(x0, y0)`, clipped to
        the buffer, then outlines it with a stroke-only rectangle in the
        stroke colour. The source indexes `src` without a check, hence the
        length precondition; the outline moves the corner like `Rect`. */
    method DrawBuffer(x0: nat, y0: nat, src: seq<int>, w: nat, h: nat)
      requires Valid() && |src| >= w * h && FrameFits(x0, y0, stroke)
      modifies this, buffer
      ensures stroke == old(stroke) && fill == old(fill)
      ensures forall px, py | InBounds(width, height, px, py) ::
        At(px, py) == RectColor(RectFrame(x0, y0, w, h, stroke), stroke, stroke.color, true, px, py,
                                ImageColor(x0, y0, src, w, h, px, py, old(At(px, py))))
    {
      var y := 0;
      while y < h
        invariant 0 <= y <= h
        invariant stroke == old(stroke) && fill == old(fill)
        invariant forall px, py | InBounds(width, height, px, py) ::
          At(px, py) == if py - y0 < y then ImageColor(x0, y0, src, w, h, px, py, old(At(px, py)))
                        else old(At(px, py))
      {
        var x := 0;
        while x < w
          invariant 0 <= x <= w
          invariant stroke == old(stroke) && fill == old(fill)
          invariant forall px, py | InBounds(width, height, px, py) ::
            At(px, py) == if Scanned(x0, y0, y, x, px, py) then ImageColor(x0, y0, src, w, h, px, py, old(At(px, py)))
                          else old(At(px, py))
        {
          ImageIndex(w, h, x, y);
          var pixel := src[y * w + x];
          SetPixel(x + x0, y + y0, pixel);
          assert (x + x0) - x0 == x && (y + y0) - y0 == y;
          x := x + 1;
        }
        y := y + 1;
      }
      var fillColor := fill;
      Fill(stroke.color);
      Rect(x0, y0, w, h, true);
      Fill(fillColor);
    }
  }
}
