/** Retained-mode shapes: a circle that knows its own geometry and answers,
    for any position, which colour it would put there. Unlike the
    rasteriser, the hit test compares squared distances with strict `<`
    against both band radii. */
module Shapes {
  import opened Options
  import opened Canvas
  import opened Styles
  import Renderer

  /** The source's `Vector2<usize>`. */
  datatype Pos = Pos(x: nat, y: nat)

  class Circle {
    var center: Pos
    var radius: nat
    /** `None` leaves the inside transparent. */
    var fill: Option<int>
    var stroke: Stroke

    constructor (center: Pos, radius: nat, fill: Option<int>, stroke: Stroke)
      ensures this.center == center && this.radius == radius
      ensures this.fill == fill && this.stroke == stroke
    {
      this.center := center;
      this.radius := radius;
      this.fill := fill;
      this.stroke := stroke;
    }

    /** Squared distance from the centre to `pos`, in signed arithmetic. */
    function DistSq(pos: Pos): (d: int)
      reads this
      ensures d == SqLen(pos.x - center.x, pos.y - center.y)
    {
      var (dx, dy) := (center.x - pos.x, center.y - pos.y);
      dx * dx + dy * dy
    }

    /** `is_in_shape`: the fill (which may be `None`) strictly inside the
        inner radius, the stroke colour strictly inside the outer radius,
        nothing elsewhere. The band is the one the rasteriser uses. */
    function IsInShape(pos: Pos): (r: Option<int>)
      reads this
      ensures r.Some? ==> r == fill || r == Some(stroke.color)
      ensures r.Some? ==> DistSq(pos) < CircleBand(radius, stroke).outer * CircleBand(radius, stroke).outer
    {
      var b := CircleBand(radius, stroke);
      var (innerSq, outerSq) := (b.inner * b.inner, b.outer * b.outer);
      var d := DistSq(pos);
      assert innerSq <= outerSq by {
        if b.inner < b.outer { MulStrict(b.inner, b.outer); }
      }
      if d < innerSq then fill
      else if d < outerSq then Some(stroke.color)
      else None
    }

    /** The three answers of the hit test, by squared distance `d` from
        the centre: the fill for `d < inner^2`, the stroke colour for
        `inner^2 <= d < outer^2`, nothing for `d >= outer^2`. */
    lemma Classification(pos: Pos)
      ensures var (b, d) := (CircleBand(radius, stroke), SqLen(pos.x - center.x, pos.y - center.y));
        && (d < b.inner * b.inner ==> IsInShape(pos) == fill)
        && (b.inner * b.inner <= d < b.outer * b.outer ==> IsInShape(pos) == Some(stroke.color))
        && (d >= b.outer * b.outer ==> IsInShape(pos) == None)
    {
      var b := CircleBand(radius, stroke);
      var (innerSq, outerSq) := (b.inner * b.inner, b.outer * b.outer);
      var d := DistSq(pos);
      if b.inner < b.outer {
        MulStrict(b.inner, b.outer);
      }
      assert IsInShape(pos) == if d < innerSq then fill else if d < outerSq then Some(stroke.color) else None;
    }

    /** `set_pos`: moves the circle and keeps everything else. */
    method SetPos(pos: Pos)
      modifies this
      ensures center == pos
      ensures radius == old(radius) && fill == old(fill) && stroke == old(stroke)
    {
      center := pos;
    }

    /** Away from the two boundary circles the hit test and the rasteriser
        agree: a filled circle's hit is the colour the rasteriser paints,
        a miss leaves the colour underneath. */
    lemma AgreesWithRaster(pos: Pos, paper: int, under: int)
      requires fill == Some(paper)
      requires var b := CircleBand(radius, stroke);
        DistSq(pos) != b.inner * b.inner && DistSq(pos) != b.outer * b.outer
      ensures Renderer.DiskColor(center.x, center.y, CircleBand(radius, stroke), stroke.color, paper,
                                 pos.x, pos.y, under)
              == match IsInShape(pos) case Some(c) => c case None => under
    {
      var b := CircleBand(radius, stroke);
      var (innerSq, outerSq) := (b.inner * b.inner, b.outer * b.outer);
      var d := DistSq(pos);
      if b.inner < b.outer {
        MulStrict(b.inner, b.outer);
      }
      assert IsInShape(pos) == if d < innerSq then fill else if d < outerSq then Some(stroke.color) else None;
      assert Renderer.DiskColor(center.x, center.y, b, stroke.color, paper, pos.x, pos.y, under)
          == if d > outerSq then under else if d <= innerSq then paper else stroke.color;
    }

    /** On the boundary circles they differ: a point exactly at the outer
        radius is painted with the stroke but missed by the hit test; a
        point exactly at a positive inner radius is painted with the fill but
        hit as stroke. */
    lemma BoundaryDiffers(pos: Pos, paper: int, under: int)
      requires fill == Some(paper)
      ensures var b := CircleBand(radius, stroke);
        var raster := Renderer.DiskColor(center.x, center.y, b, stroke.color, paper, pos.x, pos.y, under);
        && (DistSq(pos) == b.outer * b.outer && b.inner < b.outer ==>
              IsInShape(pos) == None && raster == stroke.color)
        && (DistSq(pos) == b.inner * b.inner && b.inner < b.outer ==>
              IsInShape(pos) == Some(stroke.color) && raster == paper)
    {
      var b := CircleBand(radius, stroke);
      if b.inner < b.outer {
        MulStrict(b.inner, b.outer);
      }
    }

    /** An Inner circle of radius 0 has an empty band and an empty inside:
        the hit test never hits. */
    lemma InnerZeroRadiusMisses(pos: Pos)
      requires stroke.kind == Inner && radius == 0
      ensures IsInShape(pos) == None
    {
    }

    /** An Outer circle whose stroke has width 0 never reports the stroke
        band: a point is the fill strictly inside the radius and a miss
        elsewhere. */
    lemma OuterZeroWidthNoBand(pos: Pos)
      requires stroke.kind == Outer && stroke.width == 0
      ensures IsInShape(pos) == if DistSq(pos) < radius * radius then fill else None
    {
    }
  }
}
