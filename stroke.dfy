/** Styling shared by every renderer: the stroke record and the rules that
    turn a nominal circle radius or rectangle into a stroke band and a fill
    region, according to the stroke's geometry. */
module Styles {

  /** How the stroke band sits relative to the nominal boundary. */
  datatype StrokeType = Inner | Outer | Center

  /** Stroke colour (an opaque packed colour), width in pixels, geometry. */
  datatype Stroke = Stroke(color: int, width: nat, kind: StrokeType)

  /** Radii of a circle's stroke band: fill for squared distances up to
      `inner*inner`, stroke between that and `outer*outer`. */
  datatype Band = Band(inner: nat, outer: nat)

  /** The Inner/Outer/Center rule for circles, with the saturating
      subtractions of the source (a radius smaller than the part of the
      stroke that goes inside clamps the inner radius to 0). */
  function CircleBand(radius: nat, stroke: Stroke): (b: Band)
    ensures b.inner <= radius <= b.outer
    ensures b.outer - b.inner <= stroke.width
  {
    match stroke.kind
    case Inner => Band(if radius < stroke.width then 0 else radius - stroke.width, radius)
    case Outer => Band(radius, radius + stroke.width)
    case Center =>
      Band(if radius < stroke.width / 2 then 0 else radius - stroke.width / 2,
           radius + stroke.width / 2)
  }

  /** Where the band lies: Inner keeps it inside the nominal circle, Outer
      puts it outside, Center centres it on the nominal radius (half the
      width, rounded down, on each side) unless the inside half is clamped. */
  lemma BandPlacement(radius: nat, stroke: Stroke)
    ensures var b := CircleBand(radius, stroke);
      && (stroke.kind == Inner ==> b.outer == radius)
      && (stroke.kind == Outer ==> b.inner == radius && b.outer == radius + stroke.width)
      && (stroke.kind == Center ==> b.outer == radius + stroke.width / 2)
      && (stroke.kind == Center && stroke.width / 2 <= radius ==> radius - b.inner == b.outer - radius)
  {
  }

  /** The band is exactly as thick as the stroke unless the radius is too
      small, and then the inner radius is 0; Center loses one pixel of an
      odd width. */
  lemma BandThickness(radius: nat, stroke: Stroke)
    ensures var b := CircleBand(radius, stroke);
      && (stroke.kind == Outer ==> b.outer - b.inner == stroke.width)
      && (stroke.kind == Inner ==>
            if stroke.width <= radius then b.outer - b.inner == stroke.width else b.inner == 0)
      && (stroke.kind == Center ==>
            if stroke.width / 2 <= radius then b.outer - b.inner == 2 * (stroke.width / 2)
            else b.inner == 0)
  {
  }

  /** The rectangle that a stroked rectangle actually covers. */
  datatype Frame = Frame(x: nat, y: nat, width: nat, height: nat)

  /** The source shifts the top-left corner with unsigned subtractions, which
      panic when the corner is closer to the origin than the shift. */
  predicate FrameFits(x: nat, y: nat, stroke: Stroke)
  {
    match stroke.kind
    case Inner => true
    case Outer => stroke.width <= x && stroke.width <= y
    case Center => stroke.width / 2 <= x && stroke.width / 2 <= y
  }

  /** The covered rectangle per geometry: Inner keeps the nominal rectangle,
      Outer grows it by the stroke width on every side, Center by half the
      stroke width on the top and left (the extents grow by the whole width). */
  function RectFrame(x: nat, y: nat, width: nat, height: nat, stroke: Stroke): (f: Frame)
    requires FrameFits(x, y, stroke)
    ensures f.x <= x && x + width <= f.x + f.width
    ensures f.y <= y && y + height <= f.y + f.height
  {
    match stroke.kind
    case Inner => Frame(x, y, width, height)
    case Outer =>
      Frame(x - stroke.width, y - stroke.width, width + stroke.width * 2, height + stroke.width * 2)
    case Center =>
      Frame(x - stroke.width / 2, y - stroke.width / 2, width + stroke.width, height + stroke.width)
  }

  /** Offset `(dx, dy)` of a frame of size `ow` by `oh` lies within `w` of an
      edge of the frame: the stroke test shared by all three geometries. */
  predicate EdgeBand(dx: int, dy: int, ow: int, oh: int, w: int)
  {
    dx < w || dx >= ow - w || dy < w || dy >= oh - w
  }

  /** The Inner geometry's test in the source is written as "inside the
      inner rectangle, else stroke", and is the same test as the other two
      once the offset is inside the frame. It never underflows: its
      subtraction is reached only once `dx >= w` (and `dy >= w`). */
  lemma InnerTestIsEdgeBand(dx: nat, dy: nat, ow: nat, oh: nat, w: nat)
    requires dx < ow && dy < oh
    ensures !(dx >= w && dx < ow - w && dy >= w && dy < oh - w) <==> EdgeBand(dx, dy, ow, oh, w)
    ensures dx >= w ==> ow - w >= 0
    ensures dx >= w && dx < ow - w && dy >= w ==> oh - w >= 0
  {
  }

  /** The fill region of a stroked rectangle, in absolute coordinates: for
      Inner the nominal rectangle shrunk by the stroke width, for Outer exactly
      the nominal rectangle, for Center the nominal rectangle shifted in by
      the part of the width that does not go outside. */
  lemma FillRegion(x: nat, y: nat, width: nat, height: nat, stroke: Stroke, dx: nat, dy: nat)
    requires FrameFits(x, y, stroke)
    requires var f := RectFrame(x, y, width, height, stroke); dx < f.width && dy < f.height
    ensures var f := RectFrame(x, y, width, height, stroke);
      var (px, py, w) := (f.x + dx, f.y + dy, stroke.width);
      && (stroke.kind == Inner ==>
            (!EdgeBand(dx, dy, f.width, f.height, w) <==>
               x + w <= px < x + width - w && y + w <= py < y + height - w))
      && (stroke.kind == Outer ==>
            (!EdgeBand(dx, dy, f.width, f.height, w) <==>
               x <= px < x + width && y <= py < y + height))
      && (stroke.kind == Center ==>
            (!EdgeBand(dx, dy, f.width, f.height, w) <==>
               x + (w - w / 2) <= px < x + width - w / 2 && y + (w - w / 2) <= py < y + height - w / 2))
  {
  }

  /** A stroke of width 0 leaves no band: the whole frame, which is then the
      nominal rectangle, is fill. */
  lemma ZeroWidthIsAllFill(x: nat, y: nat, width: nat, height: nat, stroke: Stroke, dx: nat, dy: nat)
    requires stroke.width == 0 && dx < width && dy < height
    ensures FrameFits(x, y, stroke)
    ensures RectFrame(x, y, width, height, stroke) == Frame(x, y, width, height)
    ensures !EdgeBand(dx, dy, width, height, stroke.width)
  {
  }
}
