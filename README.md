# screen_renderer, modelled in Dafny

`screen_renderer` is a small software rasteriser. Its core is a row-major
buffer of packed colours, `width * height` entries. Drawing routines write
into it with bounds-checked pixel writes; a write off the buffer is
silently dropped. The repository holds three renderers over such a buffer
and one retained-mode shape:

- **`Screen`** (`src/lib.rs`), the windowed renderer. It keeps a current
  stroke and fill and draws:
  - circles with an Inner, Outer or Center stroke band;
  - Bresenham lines, which stamp single pixels at width 1 and circles
    otherwise;
  - stroked and optionally filled rectangles;
  - 5x7 bitmap text;
  - image blits with an outline.
- **`Chart`** (`src/chart.rs`). It maps a series of `(x, y)` samples from a
  data window to buffer coordinates. It draws the axes through the origin,
  then the data, as dots or as a polyline.
- **`Circle`** (`src/shapes.rs`), a shape that answers, for a position,
  which colour it would put there.
- **The old `Screen`** (`src/old.rs`), the first renderer. It is a bare
  buffer with routines that take colour and thickness as arguments, and it
  has its own chart routine, grey-scale bitmaps and a built-in 5x7 font
  table.

Each renderer is a Dafny class that holds the buffer as an `array<int>`.
Every drawing method is proved against a pointwise specification. Its
postcondition gives the new colour of every in-bounds pixel as a function
of the old colour, for example "stroke colour if the pixel is covered by
the walk's disks, else unchanged". So the result is stated without
depending on the order in which pixels are written.

The geometry is stated once and shared:

- the stroke band (`Styles`);
- the Bresenham walk as a pure function, with termination, both endpoints,
  8-connectivity and the bounding box proved (`Bresenham`);
- the data-to-buffer mapping (`Mapping`);
- the glyph layout (`Glyphs`);
- the font table (`Font`).

Modules, one per file:

| file | module | models |
|---|---|---|
| `options.dfy` | `Options` | `Option` |
| `canvas.dfy` | `Canvas` | points, bounds, row-major index, disks |
| `stroke.dfy` | `Styles` | `StrokeType`, `Stroke`, circle band, rectangle frame |
| `chart_kind.dfy` | `ChartKinds` | `ChartType`, which both chart routines take |
| `bresenham.dfy` | `Bresenham` | the line walk, which is shared by all three `line` routines |
| `mapping.dfy` | `Mapping` | `to_buffer_coordinates` / `to_screen` and the axis positions |
| `glyphs.dfy` | `Glyphs` | the 5x7 text layout shared by both text routines |
| `font.dfy` | `Font` | the `get_font_5x7` table of `src/old.rs` |
| `screen.dfy` | `Renderer` | `Screen` of `src/lib.rs` |
| `chart.dfy` | `Charts` | `Chart` of `src/chart.rs` |
| `shapes.dfy` | `Shapes` | `Circle` of `src/shapes.rs` |
| `old.dfy` | `Legacy` | `Screen` of `src/old.rs` |

Modelling conventions:

- Coordinates are unbounded integers. A negative `isize` offset that the
  source casts to `usize` becomes a huge index, which the bounds check
  drops. The model states this as "a negative coordinate is not in
  bounds".
- Every `usize` subtraction that can panic is a precondition:
  - the corner shift of an Outer or Center rectangle;
  - `width - 1` and `height - 1` in the chart mapping and the axes;
  - `data.len() - 1` of an empty line chart.
- Colours are opaque integers.
- The source's `f32` arithmetic is exact real arithmetic here, with one
  IEEE case modelled explicitly (`Mapping.Float`, `Mapping.Div`). For a
  data range of zero span, the span is taken to be `+0.0`. The division
  then gives `+inf`, `-inf` or NaN by the sign of the numerator, before
  the clamp and the cast. This is an assumption about the arithmetic, and
  the model does not prove it. IEEE behaviour also decides the pixel in
  two cases the model leaves out, a span of `-0.0` and a span that
  overflows `f32` (see "Left out").

`Mapping.CentredWindow` pins down what the code computes for a 100 by
100 chart over x in [-10, 10] and y in [-5, 5]. The origin lands at
(50, 50). The sample (5, 5) lands at (75, 0), because 5 normalises to 0.75
of the x range. It does not land in the last column.

## Model

| member | source | states |
|---|---|---|
| Styles.CircleBand | src/lib.rs:87-105 | the band radii satisfy `inner <= radius <= outer` and are at most the stroke width apart, for every geometry |
| Styles.BandPlacement | src/lib.rs:87-105 | Inner keeps the outer radius at the nominal radius; Outer starts the band at the radius and ends it `width` beyond; Center extends `width / 2` beyond the radius, and is symmetric about it unless the inside is clamped |
| Styles.BandThickness | src/lib.rs:87-105 | the band is exactly `width` thick for Outer and for an Inner circle at least as large as the width, `2 * (width / 2)` for Center; when the radius is too small the inner radius saturates to 0 |
| Styles.RectFrame | src/lib.rs:215-258 | the frame a stroked rectangle covers contains the nominal rectangle (Outer grows it by `w` per side, Center by `w / 2` on the top and left and `w` in extent) |
| Styles.InnerTestIsEdgeBand | src/lib.rs:264-274 | the Inner branch's "inside the inner rectangle" test is the negation of the edge-band test of the other two branches, and its subtractions cannot underflow once the short-circuit reaches them |
| Styles.FillRegion | src/lib.rs:259-300 | in absolute coordinates the filled part of a rectangle is the nominal rectangle shrunk by `w` (Inner), the nominal rectangle itself (Outer), or the rectangle shrunk by the part of the width that is not outside (Center) |
| Styles.ZeroWidthIsAllFill | src/lib.rs:213-301 | with stroke width 0 the frame is the nominal rectangle and no pixel of it is stroke |
| Canvas.IndexInRange | src/lib.rs:177-181 | the row-major index `y * width + x` of an in-bounds pixel is a valid buffer index |
| Canvas.IndexInjective | src/lib.rs:177-181 | two in-bounds pixels with the same index are the same pixel, so a write to one pixel changes no other |
| Canvas.IndexCovers | src/lib.rs:165-171 | every buffer index is the index of exactly one in-bounds pixel |
| Canvas.DiskInSquare | src/lib.rs:110-124 | a disk of radius `r` lies in the `(2r+1)`-square around its centre, which is the square the circle loops scan |
| Canvas.DiskZero | src/lib.rs:142-149 | the disk of radius 0 is its centre alone |
| Bresenham.Step | src/lib.rs:153-161 | one loop pass keeps the walk's invariant (stays in the bounding box, error term `(b+1)dx - (a+1)dy`), strictly decreases the distance to the end and moves by at most one along each axis |
| Bresenham.StepFacts | src/lib.rs:153-161 | an x step is taken only while x has not reached `x1` and moves it one closer; likewise for y; away from the end at least one of the two steps is taken |
| Bresenham.Trace | src/lib.rs:140-162 | the walk from any state on track terminates, starts at that state's point and ends exactly at `(x1, y1)` |
| Bresenham.Line | src/lib.rs:126-163 | the walk has at least one point, starts at `start` and ends at `end` |
| Bresenham.LineEndpoints | src/lib.rs:140-162 | the line paints both `start` and `end` |
| Bresenham.TraceConnected | src/lib.rs:153-161 | consecutive points of the walk are distinct 8-neighbours |
| Bresenham.LineConnected | src/lib.rs:140-162 | the whole line is 8-connected |
| Bresenham.TraceInBox | src/lib.rs:153-161 | every point of the walk lies in the segment's bounding box |
| Bresenham.LineInBox | src/lib.rs:140-162 | every point of the line lies between the endpoints on both axes |
| Bresenham.LineDegenerate | src/lib.rs:140-152 | a segment whose endpoints coincide paints that one point |
| Bresenham.CoveredExists | src/lib.rs:140-162 | a pixel is covered by a walk's stamps iff some point of the walk has it within the stamp radius |
| Bresenham.CoveredAppend | src/chart.rs:181-191 | stamps of two walks one after the other cover exactly the union |
| Bresenham.CoveredSnoc | src/lib.rs:140-162 | stamping one more point adds exactly its disk |
| Bresenham.TraceStep | src/lib.rs:140-162 | the points visited so far plus the rest of the walk is the whole line, before and after each loop pass |
| Bresenham.CoveredPoints | src/lib.rs:142-144 | with radius 0 a walk paints exactly the points it visits |
| Bresenham.PolylineSnoc | src/chart.rs:182-190 | drawing one more consecutive pair extends the polyline by the segment from the previous last point to the new one |
| Bresenham.PolylineVisits | src/chart.rs:182-190 | a line chart with at least two points passes through every mapped point |
| Mapping.ClampCast | src/chart.rs:134-135 | clamp to `[0, hi]`, then the saturating cast: the floor inside the range, 0 below it or for NaN, `hi` above it or for `+inf`, always `<= hi` |
| Mapping.Column | src/chart.rs:126-138 | the mapped column lies in `[0, width)` |
| Mapping.Row | src/chart.rs:126-138 | the mapped row lies in `[0, height)` |
| Mapping.ToBuffer | src/chart.rs:126-138 | every data point lands on the buffer |
| Mapping.Corners | src/chart.rs:126-138 | the window's minimum lands at the bottom-left pixel and its maximum at the top-right pixel |
| Mapping.CentredWindow | src/chart.rs:126-138 | on a 100 by 100 chart over `[-10, 10] x [-5, 5]` the origin lands at (50, 50) and (5, 5) at (75, 0) |
| Mapping.ColumnMonotone | src/chart.rs:126-138 | a larger abscissa never lands further left |
| Mapping.RowAntitone | src/chart.rs:126-138 | a larger ordinate never lands lower (the y axis is flipped) |
| Mapping.EmptyRangeColumn | src/chart.rs:126-138 | over a zero-span x range, points past the value go to the last column and all others (the value itself via NaN) to column 0 |
| Mapping.EmptyRangeRow | src/chart.rs:126-138 | over a zero-span y range, points below the value go to the bottom row and all others to the top row |
| Mapping.AxisColumn | src/chart.rs:146-150 | the vertical axis's column lies on the buffer |
| Mapping.AxisRow | src/chart.rs:159-163 | the horizontal axis's row lies on the buffer |
| Mapping.MapPoints | src/chart.rs:175-180 | the mapped series has one point per datum, all on the buffer |
| Mapping.MapPointsAt | src/chart.rs:175-180 | point `k` of the mapped series is datum `k` mapped |
| Glyphs.LitBeforeBounds | src/lib.rs:190-205 | before the first glyph cell nothing is lit; after the last slot exactly the text's lit pixels are |
| Glyphs.CellBlock | src/lib.rs:197-205 | the `scale x scale` block at `x + i*6*scale + col*scale`, `y + row*scale` is exactly the set of pixels that decode to cell `(i, row, col)` |
| Glyphs.LitStep | src/lib.rs:195-205 | visiting a glyph cell adds exactly its block when bit `4 - col` of the row is set, and nothing otherwise |
| Glyphs.LitRowEnd | src/lib.rs:195-205 | the spacing column is never lit, so a row's scan ends where the next begins |
| Glyphs.LitSlotEnd | src/lib.rs:193-205 | after seven rows a glyph's slot is done |
| Glyphs.LitSkip | src/lib.rs:191-192 | a character without a glyph lights nothing but still takes its slot |
| Font.Glyph5x7 | src/old.rs:218-612 | the table has a glyph for exactly the characters from space to backquote, 65 of them; lower-case letters have none |
| Font.FiveBitRows | src/old.rs:218-612 | every row of every glyph of the table is below 32, a 5-bit mask |
| Font.SpaceIsBlank | src/old.rs:377-382 | no lit pixel of a text lies in the slot of a space |
| Font.LetterA | src/old.rs:221-226 | "A" at scale 1 lights exactly the table's A pattern within its 5x7 cell and nothing else |
| Renderer.ImageIndex | src/lib.rs:312-317 | the source index `y * w + x` of an image pixel is within the image |
| Renderer.Screen.constructor | src/lib.rs:41-65 | a black buffer of `width * height` pixels, a white width-1 Center stroke and a black fill |
| Renderer.Screen.StrokeColor | src/lib.rs:67-69 | changes only the stroke colour |
| Renderer.Screen.StrokeWidth | src/lib.rs:70-72 | changes only the stroke width |
| Renderer.Screen.StrokeType | src/lib.rs:73-75 | changes only the stroke geometry |
| Renderer.Screen.Fill | src/lib.rs:77-79 | changes only the fill colour |
| Renderer.Screen.SetPixel | src/lib.rs:173-181 | sets the pixel iff `x < width && y < height`; every other pixel is unchanged |
| Renderer.Screen.Solid | src/lib.rs:165-167 | every buffer entry becomes the colour |
| Renderer.Screen.Clear | src/lib.rs:169-171 | every buffer entry becomes 0 |
| Renderer.Screen.Circle | src/lib.rs:86-125 | every in-bounds pixel gets the fill for `d <= inner^2`, the stroke colour for `inner^2 < d <= outer^2` and keeps its colour for `d > outer^2`, where `d` is the squared distance from the centre |
| Renderer.Screen.Plot | src/lib.rs:110-124 | one scan step sets only the pixel at its offset, to the colour the band gives it |
| Renderer.Screen.Line | src/lib.rs:126-163 | exactly the pixels covered by the stamps along the Bresenham walk take the stroke colour (single pixels at width 1, disks of the stroke band's outer radius for `width / 2` otherwise); the others, the stroke and the fill are unchanged |
| Renderer.Screen.Stamp | src/lib.rs:142-149 | one stamp paints a single pixel at width 1, otherwise a disk of its circle's outer radius filled with the stroke colour, and restores the fill |
| Renderer.Screen.Rect | src/lib.rs:213-301 | in the frame, the stroke colour within the stroke width of an edge and the fill elsewhere, or the old colour there when only the stroke is drawn; outside the frame nothing changes |
| Renderer.Screen.ScanFrame | src/lib.rs:259-300 | the scan over the frame leaves every pixel with its rectangle colour |
| Renderer.Screen.RectPlot | src/lib.rs:259-300 | one scan step sets only the frame pixel at its offset, by the edge-band test |
| Renderer.Screen.Text | src/lib.rs:183-211 | exactly the pixels of the blocks of set glyph bits take the stroke colour; the stroke and the fill are restored |
| Renderer.Screen.DrawChar | src/lib.rs:191-207 | character `i` adds exactly the blocks of its lit cells, or nothing when the font has no glyph for it; the stroke and the fill are restored |
| Renderer.Screen.GlyphBlock | src/lib.rs:197-205 | one glyph bit fills its clipped `scale x scale` square in the stroke colour and restores the stroke width and the fill |
| Renderer.Screen.DrawBuffer | src/lib.rs:303-323 | the image is copied to its place, then outlined with a stroke-only rectangle, so only the outline overwrites copied pixels; the stroke and the fill are restored |
| Charts.Chart.constructor | src/chart.rs:20-42 | a black buffer of `width * height`, the given ranges, a black fill, a white width-1 Outer stroke and a `0x444444` width-1 axis stroke |
| Charts.Chart.Fill | src/chart.rs:44-46 | changes only the fill |
| Charts.Chart.SetStroke | src/chart.rs:48-51 | changes only the stroke's colour and width |
| Charts.Chart.StrokeColor | src/chart.rs:53-55 | changes only the stroke colour |
| Charts.Chart.StrokeWidth | src/chart.rs:57-59 | changes only the stroke width |
| Charts.Chart.ChartColor | src/chart.rs:61-63 | changes only the axis colour |
| Charts.Chart.ChartWidth | src/chart.rs:64-66 | changes only the axis width |
| Charts.Chart.SetPixel | src/chart.rs:68-76 | sets the pixel iff it is in bounds; every other pixel is unchanged |
| Charts.Chart.Circle | src/chart.rs:78-91 | exactly the in-bounds pixels of the disk take the stroke colour; the fill is never used |
| Charts.Chart.Line | src/chart.rs:92-124 | exactly the pixels covered by the walk's stamps (single pixels at width 1, disks of radius `width / 2` otherwise) take the stroke colour |
| Charts.Chart.Stamp | src/chart.rs:106-110 | one stamp paints a pixel or a disk of radius `width / 2` in the stroke colour |
| Charts.Chart.ChartAxis | src/chart.rs:141-170 | the vertical axis is drawn iff `x_min <= 0 <= x_max`, the horizontal one iff `y_min <= 0 <= y_max`, in the axis stroke; the stroke is the same before and after |
| Charts.Chart.Axes | src/chart.rs:151-168 | the column line when there is an axis column and the row line when there is an axis row, in the axis colour; the data stroke is unchanged |
| Charts.Chart.AxisLine | src/chart.rs:152-155 | one axis line, drawn with the axis stroke swapped in, exactly where its stamps cover; the data stroke is restored |
| Charts.Chart.Draw | src/chart.rs:172-194 | the data's stamps take the stroke colour, over the axes in the axis colour, over the old picture: the axes are drawn first |
| Charts.Chart.DrawDots | src/chart.rs:175-180 | one disk of radius `width / 2` per mapped point |
| Charts.Chart.Dot | src/chart.rs:177-179 | one more dot adds its disk |
| Charts.Chart.DrawLines | src/chart.rs:181-191 | the segments between consecutive mapped points, `len - 1` of them, drawn in the stroke |
| Charts.Chart.DrawSegment | src/chart.rs:182-189 | the line between mapped points `i` and `i + 1`; returns the mapped end point |
| Shapes.Circle.constructor | src/shapes.rs:62-69 | stores exactly the given centre, radius, fill and stroke |
| Shapes.Circle.DistSq | src/shapes.rs:43-45 | the squared Euclidean distance from the centre |
| Shapes.Circle.IsInShape | src/shapes.rs:19-55 | a hit is always the fill or the stroke colour, and lies strictly inside the outer radius of the band |
| Shapes.Circle.Classification | src/shapes.rs:19-55 | strictly inside the inner radius the answer is the fill (possibly none); in `inner^2 <= d < outer^2` it is the stroke colour; at or beyond the outer radius it is none |
| Shapes.Circle.SetPos | src/shapes.rs:56-58 | changes only the centre |
| Shapes.Circle.AgreesWithRaster | src/shapes.rs:19-55 | away from the two boundary circles the hit test gives the colour the rasteriser of `src/lib.rs` paints for the same circle, and a miss where it leaves the pixel alone |
| Shapes.Circle.BoundaryDiffers | src/shapes.rs:47-52 | on the outer circle the hit test misses where the rasteriser paints stroke; on the inner circle it reports stroke where the rasteriser paints fill |
| Shapes.Circle.InnerZeroRadiusMisses | src/shapes.rs:20-54 | an Inner circle of radius 0 never hits |
| Shapes.Circle.OuterZeroWidthNoBand | src/shapes.rs:29-54 | an Outer circle with stroke width 0 never gives the stroke colour |
| Legacy.Gray | src/old.rs:62-63 | the packed grey of a byte fits in 24 bits |
| Legacy.OrIsSum | src/old.rs:62-63 | for a byte the three shifted copies share no bit, so their or is their sum, and as an integer it is `Gray` of the byte |
| Legacy.GrayChannels | src/old.rs:62-63 | the red, green and blue channels of a packed grey are all the byte |
| Legacy.CellStep | src/old.rs:58-65 | the block stamped for cell `(row, col)` at `(x + col*scale, y + row*scale)` is exactly the pixels whose cell it is |
| Legacy.StampedBounds | src/old.rs:58-66 | a bitmap row ends where the next begins; after the last row exactly the image's pixels are stamped |
| Legacy.Screen.constructor | src/old.rs:16-23 | a black buffer of `width * height` pixels |
| Legacy.Screen.Clear | src/old.rs:25-27 | every buffer entry becomes 0 |
| Legacy.Screen.SetPixel | src/old.rs:29-33 | sets the pixel iff it is in bounds; every other pixel is unchanged |
| Legacy.Screen.DrawCircle | src/old.rs:35-47 | exactly the in-bounds pixels with `dx^2 + dy^2 <= radius^2` take the colour; the scan's lower bounds saturate at 0 |
| Legacy.Screen.DrawBlock | src/old.rs:208-214 | exactly the clipped `size x size` square at `(x, y)` takes the colour |
| Legacy.Screen.DrawBitmap | src/old.rs:49-67 | every pixel whose cell is in the bitmap takes the packed grey of its byte; the rest is unchanged |
| Legacy.Screen.DrawStamp | src/old.rs:89-93 | one stamp paints a pixel at thickness 1, otherwise a disk of radius `thickness / 2` |
| Legacy.Screen.DrawLine | src/old.rs:69-107 | exactly the pixels covered by the stamps along the Bresenham walk take the colour |
| Legacy.Screen.DrawChart | src/old.rs:110-183 | the data (disks of radius `thickness` per point, or lines between consecutive points) in the colour, over the axes in `0x444444`, over the old picture |
| Legacy.Screen.DrawAxes | src/old.rs:136-158 | the column of abscissa 0 when the x range contains 0 and the row of ordinate 0 when the y range does, in `0x444444`, full length |
| Legacy.Screen.AxisColumnLine | src/old.rs:148-152 | the whole column takes the axis colour |
| Legacy.Screen.AxisRowLine | src/old.rs:154-158 | the whole row takes the axis colour |
| Legacy.Screen.PlotDots | src/old.rs:162-167 | one disk of radius `thickness` per mapped point |
| Legacy.Screen.Dot | src/old.rs:164-166 | one more dot adds its disk |
| Legacy.Screen.PlotLines | src/old.rs:168-176 | a line between every two consecutive mapped points, none for fewer than two |
| Legacy.Screen.PlotSegment | src/old.rs:169-175 | the line between mapped points `i` and `i + 1`; returns the mapped end point |
| Legacy.Screen.DrawText | src/old.rs:185-206 | exactly the blocks of set bits of the built-in table's glyphs take the colour; characters without a glyph advance the pen |
| Legacy.Screen.DrawGlyphs | src/old.rs:189-205 | the same loops over any font |
| Legacy.Screen.DrawChar | src/old.rs:190-204 | character `i` adds exactly the blocks of its lit cells, or nothing when the table has no glyph for it |

## Left out

- The window is not modelled: `Window::new` in `Screen::new`, `target_fps`, `draw`, `is_window_open` and `is_key_down` are minifb I/O.
- `get_width` and `get_height` of `src/lib.rs` are plain field reads; the model reads the `width` and `height` constants.
- `src/font.rs`, which `Screen::text` of `src/lib.rs` takes its glyphs from, is not part of this model. `Renderer.Screen.Text` takes the font as a parameter of type `char -> Option<Glyph>`.
- The `has_grid` flag of `draw_chart` does nothing in the source. `Legacy.Screen.DrawChart` takes it and ignores it.
- The module re-exports, the empty test in `src/lib.rs` and the `Shape` trait's dynamic dispatch are left out. Only the `Circle` shape is modelled, as a class.
- The source's `f32` values are exact reals here, and `f32` rounding is not modelled. A cell computed near a pixel boundary can therefore differ by one from the real program. NaN or infinite inputs in the data are not modelled; the IEEE values that arise from a zero-span range are.
- Signed-zero bounds are not modelled. The source accepts the range `(0.0, -0.0)`, since `0.0 <= -0.0` holds in `f32`, and its span is `-0.0`. A positive numerator then gives `-inf`, so a point right of the value goes to column 0 instead of the last column. For rows the same flip sends a point above the value to the bottom row. The model has no `-0.0` and treats every zero span as `+0.0`.
- Spans that overflow `f32` are not modelled. A range of finite bounds such as `(-3e38, 3e38)` has span `+inf` in `f32`, so `x_max` normalises to `inf / inf = NaN` and lands in column 0. In the model the span is the exact real difference.
- Mapping.Corners: proved for the exact real span, so it assumes the span does not overflow `f32`. For a range like `(-3e38, 3e38)` the source puts the maximum in column 0, not in `width - 1`.
- Mapping.EmptyRangeColumn and Mapping.EmptyRangeRow: proved for a `+0.0` span, so they assume the bounds are not `0.0` and `-0.0`. For those bounds the source sends the points to the opposite edge.
- `usize` overflow is not modelled, because integers are unbounded. This covers `x + size` in the block loops, `radius + width` in the band, and the saturating additions of `draw_circle`.
- `Pixel` is an opaque integer. The only channel arithmetic modelled is the grey packing of `draw_bitmap`, where the or of the shifted bytes is written as their sum, `Legacy.Gray` (`Legacy.OrIsSum` proves that the 32-bit or, read as an integer, equals `Gray` of the byte).
- The variables `inner_width` and `outer_heigth` (so spelt in `src/lib.rs:215`) are computed and never used by `rect`, so they are omitted.
- The order of pixel writes is not captured. Each drawing postcondition gives only the final colour of every pixel.
- Out-of-range indexing that panics in the source is a precondition of the model. This covers the image length in `draw_buffer` and `draw_bitmap`, the corner shift in `rect` and `draw_buffer`, the chart's `width - 1` and `height - 1`, and the empty line chart in `Chart::draw`.
- `is_in_bounds` is modelled by `Canvas.InBounds`, which the `SetPixel` postconditions state.
