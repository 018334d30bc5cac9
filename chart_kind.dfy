/** The two kinds of chart, which both chart routines take: the chart
    renderer's `ChartType` and the old renderer's enum of the same name
    have the same two variants. */
module ChartKinds {
  datatype ChartType = Dots | Lines

  /** The mapping is needed (and so the buffer must have both dimensions)
      when the dot chart has a point or the line chart a segment. */
  predicate NeedsMapping(kind: ChartType, data: seq<(real, real)>)
  {
    match kind
    case Dots => |data| > 0
    case Lines => |data| >= 2
  }
}
