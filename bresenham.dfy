/** The integer Bresenham walk shared by the three line routines, as a pure
    function that visits the same points, in the same order, as their
    `loop`: paint the current point, stop at the end point, otherwise step
    along x when `2*err > -dy` and along y when `2*err < dx`. */
module Bresenham {
  import opened Canvas

  datatype Segment = Segment(x0: int, y0: int, x1: int, y1: int)

  /** The loop's mutable state: the current point and the error term. */
  datatype Walker = Walker(x: int, y: int, err: int)

  function Abs(v: int): nat
  {
    if v < 0 then -v else v
  }

  function Dx(l: Segment): nat { Abs(l.x1 - l.x0) }
  function Dy(l: Segment): nat { Abs(l.y1 - l.y0) }
  function Sx(l: Segment): int { if l.x0 < l.x1 then 1 else -1 }
  function Sy(l: Segment): int { if l.y0 < l.y1 then 1 else -1 }

  /** `v` lies between `lo` and `hi`, whichever of them is larger. */
  predicate Between(lo: int, v: int, hi: int)
  {
    (lo <= v <= hi) || (hi <= v <= lo)
  }

  /** The state before the first iteration. */
  function Start(l: Segment): Walker
  {
    Walker(l.x0, l.y0, Dx(l) - Dy(l))
  }

  /** The error term after `a` steps along x and `b` along y. */
  function ErrAfter(l: Segment, a: int, b: int): int
  {
    (b + 1) * Dx(l) - (a + 1) * Dy(l)
  }

  lemma ErrAfterSteps(l: Segment, a: int, b: int)
    ensures ErrAfter(l, a + 1, b) == ErrAfter(l, a, b) - Dy(l)
    ensures ErrAfter(l, a, b + 1) == ErrAfter(l, a, b) + Dx(l)
    ensures ErrAfter(l, a + 1, b + 1) == ErrAfter(l, a, b) + Dx(l) - Dy(l)
  {
  }

  /** The loop invariant of the source's walk: the point has not left the
      segment's bounding box, and after `a` steps along x and `b` along y the
      error term is `(b+1)*dx - (a+1)*dy`. */
  predicate OnTrack(l: Segment, w: Walker)
  {
    && Between(l.x0, w.x, l.x1)
    && Between(l.y0, w.y, l.y1)
    && w.err == ErrAfter(l, Abs(w.x - l.x0), Abs(w.y - l.y0))
  }

  predicate AtEnd(l: Segment, w: Walker)
  {
    w.x == l.x1 && w.y == l.y1
  }

  /** Distance still to go along both axes: the termination measure. */
  function Remaining(l: Segment, w: Walker): nat
  {
    Abs(l.x1 - w.x) + Abs(l.y1 - w.y)
  }

  lemma StartOnTrack(l: Segment)
    ensures OnTrack(l, Start(l))
  {
  }

  /** One pass of the loop body after the end test. */
  function Step(l: Segment, w: Walker): (w': Walker)
    requires OnTrack(l, w) && !AtEnd(l, w)
    ensures OnTrack(l, w')
    ensures Remaining(l, w') < Remaining(l, w)
    ensures Abs(w'.x - w.x) <= 1 && Abs(w'.y - w.y) <= 1
  {
    var dx: int, dy: int := Dx(l), Dy(l);
    var e2 := 2 * w.err;
    var (x, err) := if e2 > -dy then (w.x + Sx(l), w.err - dy) else (w.x, w.err);
    var (y, err') := if e2 < dx then (w.y + Sy(l), err + dx) else (w.y, err);
    StepFacts(l, w);
    ErrAfterSteps(l, Abs(w.x - l.x0), Abs(w.y - l.y0));
    Walker(x, y, err')
  }

  /** Why `Step` keeps the invariant: with `a == dx` the x step is never taken
      and with `b == dy` the y step is never taken, and away from the end at
      least one of them is. A step along x moves one closer to `x1`. */
  lemma StepFacts(l: Segment, w: Walker)
    requires OnTrack(l, w) && !AtEnd(l, w)
    ensures var dx: int, dy: int := Dx(l), Dy(l);
      var e2 := 2 * w.err;
      && (e2 > -dy ==> Abs(w.x - l.x0) < dx && Abs(w.x + Sx(l) - l.x0) == Abs(w.x - l.x0) + 1
                       && Between(l.x0, w.x + Sx(l), l.x1) && Abs(l.x1 - (w.x + Sx(l))) == Abs(l.x1 - w.x) - 1)
      && (e2 < dx ==> Abs(w.y - l.y0) < dy && Abs(w.y + Sy(l) - l.y0) == Abs(w.y - l.y0) + 1
                       && Between(l.y0, w.y + Sy(l), l.y1) && Abs(l.y1 - (w.y + Sy(l))) == Abs(l.y1 - w.y) - 1)
      && (e2 > -dy || e2 < dx)
  {
    if Abs(w.x - l.x0) == Dx(l) {
      XDoneErr(l, w);
    } else {
      Advances(l.x0, w.x, l.x1);
    }
    if Abs(w.y - l.y0) == Dy(l) {
      YDoneErr(l, w);
    } else {
      Advances(l.y0, w.y, l.y1);
    }
  }

  /** Once x has reached `x1` (and y has not reached `y1`), `err <= -dy`. */
  lemma XDoneErr(l: Segment, w: Walker)
    requires OnTrack(l, w) && !AtEnd(l, w) && Abs(w.x - l.x0) == Dx(l)
    ensures w.err + Dy(l) <= 0
  {
    var dx: int, dy: int := Dx(l), Dy(l);
    var b: int := Abs(w.y - l.y0);
    assert w.x == l.x1;
    assert b + 1 <= dy;
    MulMonotone(b + 1, dy, dx);
    assert (dx + 1) * dy == dx * dy + dy;
  }

  /** Once y has reached `y1` (and x has not reached `x1`), `err >= dx`. */
  lemma YDoneErr(l: Segment, w: Walker)
    requires OnTrack(l, w) && !AtEnd(l, w) && Abs(w.y - l.y0) == Dy(l)
    ensures w.err >= Dx(l)
  {
    var dx: int, dy: int := Dx(l), Dy(l);
    var a: int := Abs(w.x - l.x0);
    assert w.y == l.y1;
    assert a + 1 <= dx;
    MulMonotone(a + 1, dx, dy);
    assert (dy + 1) * dx == dy * dx + dx;
  }

  /** A coordinate strictly between its start and its end moves one closer to
      the end when stepped in the sign the source chooses. */
  lemma Advances(v0: int, v: int, v1: int)
    requires Between(v0, v, v1) && Abs(v - v0) < Abs(v1 - v0)
    ensures var s := if v0 < v1 then 1 else -1;
      && Between(v0, v + s, v1)
      && Abs(v + s - v0) == Abs(v - v0) + 1
      && Abs(v1 - (v + s)) == Abs(v1 - v) - 1
  {
  }

  /** The points the loop paints, from state `w` on, in order. */
  function Trace(l: Segment, w: Walker): (path: seq<Point>)
    requires OnTrack(l, w)
    ensures |path| >= 1 && path[0] == Point(w.x, w.y)
    ensures path[|path| - 1] == Point(l.x1, l.y1)
    decreases Remaining(l, w)
  {
    if AtEnd(l, w) then [Point(w.x, w.y)]
    else [Point(w.x, w.y)] + Trace(l, Step(l, w))
  }

  /** The whole line from `(x0, y0)` to `(x1, y1)`. */
  function Line(l: Segment): (path: seq<Point>)
    ensures |path| >= 1
    ensures path[0] == Point(l.x0, l.y0) && path[|path| - 1] == Point(l.x1, l.y1)
  {
    StartOnTrack(l);
    Trace(l, Start(l))
  }

  /** Both endpoints are painted: the walk starts at the start point and
      terminates exactly at the end point. */
  lemma LineEndpoints(l: Segment)
    ensures Line(l)[0] == Point(l.x0, l.y0)
    ensures Line(l)[|Line(l)| - 1] == Point(l.x1, l.y1)
  {
  }

  /** 8-neighbours: distinct points at most one apart along each axis. */
  predicate Adjacent(p: Point, q: Point)
  {
    p != q && Abs(p.x - q.x) <= 1 && Abs(p.y - q.y) <= 1
  }

  predicate Connected(path: seq<Point>)
  {
    forall k :: 0 <= k < |path| - 1 ==> Adjacent(path[k], path[k + 1])
  }

  /** Consecutive points of the walk are 8-neighbours: the line has no gaps
      and never paints the same point twice in a row. */
  lemma {:induction false} TraceConnected(l: Segment, w: Walker)
    requires OnTrack(l, w)
    ensures Connected(Trace(l, w))
    decreases Remaining(l, w)
  {
    if !AtEnd(l, w) {
      var w' := Step(l, w);
      TraceConnected(l, w');
      var rest := Trace(l, w');
      assert Trace(l, w) == [Point(w.x, w.y)] + rest;
      assert Point(w.x, w.y) != Point(w'.x, w'.y);
    }
  }

  lemma LineConnected(l: Segment)
    ensures Connected(Line(l))
  {
    StartOnTrack(l);
    TraceConnected(l, Start(l));
  }

  /** Every point of the walk lies in the segment's bounding box. */
  lemma {:induction false} TraceInBox(l: Segment, w: Walker)
    requires OnTrack(l, w)
    ensures forall k :: 0 <= k < |Trace(l, w)| ==>
      Between(l.x0, Trace(l, w)[k].x, l.x1) && Between(l.y0, Trace(l, w)[k].y, l.y1)
    decreases Remaining(l, w)
  {
    if !AtEnd(l, w) {
      TraceInBox(l, Step(l, w));
    }
  }

  lemma LineInBox(l: Segment)
    ensures forall k :: 0 <= k < |Line(l)| ==>
      Between(l.x0, Line(l)[k].x, l.x1) && Between(l.y0, Line(l)[k].y, l.y1)
  {
    StartOnTrack(l);
    TraceInBox(l, Start(l));
  }

  /** A degenerate segment paints its one point and nothing else. */
  lemma LineDegenerate(l: Segment)
    requires l.x0 == l.x1 && l.y0 == l.y1
    ensures Line(l) == [Point(l.x0, l.y0)]
  {
  }

  /** Union of the disks of radius `r` around the points of `path`: what a
      walk paints when every point stamps such a disk (radius 0 is the point
      itself). */
  predicate Covered(path: seq<Point>, r: nat, x: int, y: int)
    decreases |path|
  {
    |path| > 0 &&
    (InDisk(path[|path| - 1].x, path[|path| - 1].y, r, x, y) || Covered(path[..|path| - 1], r, x, y))
  }

  lemma {:induction false} CoveredExists(path: seq<Point>, r: nat, x: int, y: int)
    ensures Covered(path, r, x, y) <==>
      exists k :: 0 <= k < |path| && InDisk(path[k].x, path[k].y, r, x, y)
    decreases |path|
  {
    if |path| > 0 {
      var init := path[..|path| - 1];
      CoveredExists(init, r, x, y);
      if Covered(init, r, x, y) {
        var k :| 0 <= k < |init| && InDisk(init[k].x, init[k].y, r, x, y);
        assert path[k] == init[k];
      }
      if k :| 0 <= k < |path| && InDisk(path[k].x, path[k].y, r, x, y) {
        if k < |init| {
          assert init[k] == path[k];
        }
      }
    }
  }

  lemma CoveredAppend(a: seq<Point>, b: seq<Point>, r: nat, x: int, y: int)
    ensures Covered(a + b, r, x, y) <==> Covered(a, r, x, y) || Covered(b, r, x, y)
  {
    CoveredExists(a + b, r, x, y);
    CoveredExists(a, r, x, y);
    CoveredExists(b, r, x, y);
    if k :| 0 <= k < |b| && InDisk(b[k].x, b[k].y, r, x, y) {
      assert (a + b)[|a| + k] == b[k];
    }
    if k :| 0 <= k < |a| && InDisk(a[k].x, a[k].y, r, x, y) {
      assert (a + b)[k] == a[k];
    }
  }

  /** Stamping one more point adds its disk. */
  lemma CoveredSnoc(path: seq<Point>, p: Point, r: nat, x: int, y: int)
    ensures Covered(path + [p], r, x, y) <==> Covered(path, r, x, y) || InDisk(p.x, p.y, r, x, y)
  {
    assert (path + [p])[..|path|] == path;
  }

  /** The walk so far plus the rest of it is the whole line, one point at a
      time: the accounting of a loop that paints as it walks. */
  lemma TraceStep(l: Segment, visited: seq<Point>, w: Walker)
    requires OnTrack(l, w) && visited + Trace(l, w) == Line(l)
    ensures AtEnd(l, w) ==> visited + [Point(w.x, w.y)] == Line(l)
    ensures !AtEnd(l, w) ==> (visited + [Point(w.x, w.y)]) + Trace(l, Step(l, w)) == Line(l)
  {
    var p := Point(w.x, w.y);
    if AtEnd(l, w) {
      assert Trace(l, w) == [p];
    } else {
      var rest := Trace(l, Step(l, w));
      assert Trace(l, w) == [p] + rest;
      SeqAssoc(visited, [p], rest);
    }
  }

  lemma SeqAssoc<T>(a: seq<T>, b: seq<T>, c: seq<T>)
    ensures (a + b) + c == a + (b + c)
  {
  }

  lemma TakeSnoc<T>(s: seq<T>, k: nat)
    requires k < |s|
    ensures s[..k + 1] == s[..k] + [s[k]]
  {
  }

  /** With radius 0 a walk paints exactly the points it visits. */
  lemma {:induction false} CoveredPoints(path: seq<Point>, x: int, y: int)
    ensures Covered(path, 0, x, y) <==> Point(x, y) in path
    decreases |path|
  {
    if |path| > 0 {
      var init, last := path[..|path| - 1], path[|path| - 1];
      assert path == init + [last];
      CoveredPoints(init, x, y);
      DiskZero(last.x, last.y, x, y);
    }
  }

  /** The segments between consecutive points of `pts`, walked one after
      the other. */
  function Polyline(pts: seq<Point>): (path: seq<Point>)
    decreases |pts|
  {
    if |pts| < 2 then []
    else
      var n := |pts|;
      Polyline(pts[..n - 1]) + Line(Segment(pts[n - 2].x, pts[n - 2].y, pts[n - 1].x, pts[n - 1].y))
  }

  /** Drawing the segments one after the other: one more point adds the
      segment from the previous last point to it. */
  lemma PolylineSnoc(pts: seq<Point>, q: Point)
    requires |pts| >= 1
    ensures Polyline(pts + [q]) ==
      Polyline(pts) + Line(Segment(pts[|pts| - 1].x, pts[|pts| - 1].y, q.x, q.y))
  {
    var s := pts + [q];
    assert s[..|s| - 1] == pts;
    assert s[|s| - 2] == pts[|pts| - 1] && s[|s| - 1] == q;
  }

  /** A polyline of at least two points passes through every one of them. */
  lemma {:induction false} PolylineVisits(pts: seq<Point>, k: nat)
    requires |pts| >= 2 && k < |pts|
    ensures pts[k] in Polyline(pts)
    decreases |pts|
  {
    var n := |pts|;
    var last := Segment(pts[n - 2].x, pts[n - 2].y, pts[n - 1].x, pts[n - 1].y);
    LineEndpoints(last);
    if k >= n - 2 {
      assert pts[k] in Line(last);
    } else {
      PolylineVisits(pts[..n - 1], k);
      assert pts[..n - 1][k] == pts[k];
    }
  }
}
