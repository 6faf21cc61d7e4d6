# Drawer engine model

This project models the core of `Drawer.cs`, the geometry and raster engine of a
small WPF drawing program, in Dafny. It covers:

- **Geometry values.** `Point` and its cross product `Rotate`, `Edge` with
  its up/down normalisation and LEFT/RIGHT direction, `Polygon` (`Edges`,
  `Center`, `Contains`), `Line.Center` and `IsPointInTriangle`.
- **The Graham scan** of `Hull.Create`.
- **`Color`.** Real-valued channels, `Normalize`/`ToBgra` into BGRA
  bytes, channel arithmetic, `Swap` and `IsSimilar`.
- **The `Drawer` class.** A BGRA byte buffer `bitmap` that the drawing
  operations write, and a separate snapshot `pixels` that `GetPixel`
  reads and `SetPixels` refreshes, so a read sees a write only after the
  next snapshot. On top of that buffer:
  - `Clear`, `DrawPoint` and the thick point (a disc);
  - `DrawLine`, the Bresenham line `DrawLineBresenham` and `DrawPolygon`;
  - `SetBaseColor`;
  - the scanline flood fill `Fill`;
  - the textured fill `FillImage`/`_fill`, with its memo of used spans and
    its wrap-around texture sampling;
  - the 8-connected border trace `GetBorderPoints` and `Highlight`;
  - the vertex reordering `SwapTrianglePoints`.

One module per concern:

- `Colors`: colors.dfy
- `Geometry`: geometry.dfy
- `Polygons`: polygon.dfy
- `Hull`: hull.dfy
- `Triangles`: triangle.dfy
- `Raster`: raster.dfy. A pure view of a byte buffer as a `width × height`
  image: pixel `q` lives at bytes `4*(q.y*width + q.x) ..+4`.
- `Bresenham`: bresenham.dfy. The pixel sequence the line loops produce.
- `Drawing`: drawer.dfy. The `Drawer` class and the specification
  predicates of the fills and the border trace.

Code that mutates state stays imperative:

- The buffers are `array<byte>` fields of `Drawer`. Its methods carry
  `modifies` clauses and are proved against pure functions of the buffer
  contents, such as `Plot`, `PaintPoints` and `Bresenham.Pixels`.
- `Point.Swap` and `Color.Swap` work on the heap cells `PointCell` and
  `ColorCell`.
- The hull scan and `Polygon.Contains` keep their loops.

Integers are unbounded, so overflow is not modelled. C#'s truncating `/` is
modelled explicitly by `Geometry.TruncDiv`. `double` colour channels are
modelled as `real`.

Two behaviours of the code as written are modelled exactly:

- **Bresenham shifts its pixels.** The error term moves before each pixel
  is drawn. A diagonal segment is therefore drawn one row low, and a
  one-point segment lands one row below its point. `ShiftedExamples` pins
  both.
- **SwapTrianglePoints can miss the top vertex.** Its three y-tests do not
  always put the top vertex first (`ReorderKeepsMiddleFirst`).

## Model

| member | source | states |
|---|---|---|
| Colors.Normalize | Drawer.cs:132-137 | below 0 gives 0, above 255 gives 255, otherwise the integer part (b <= v < b+1) |
| Colors.ToBgra | Drawer.cs:139-142 | the four bytes are the normalised blue, green, red and alpha channels, in that order |
| Colors.FromBgra | Drawer.cs:793-801 | a colour built from four buffer bytes has byte-valued channels |
| Colors.NormalizeOfByte | Drawer.cs:132-137 | a channel already in 0..255 with no fraction is kept unchanged |
| Colors.FromToBgra | Drawer.cs:139-142 | for a byte-valued colour, reading back the bytes of ToBgra gives the same colour |
| Colors.ToFromBgra | Drawer.cs:793-801 | encoding a colour read from four bytes gives back the same bytes |
| Colors.FromBgraInjective | Drawer.cs:158-167 | two byte quadruples read as equal colours (channel-wise Equals) are equal |
| Colors.GetDiffWith | Drawer.cs:117-120 | channel-wise difference of blue, green and red; alpha is 255 |
| Colors.GetSumWith | Drawer.cs:122-125 | channel-wise sum of blue, green and red; alpha is 255 |
| Colors.GetMultBy | Drawer.cs:127-130 | each of blue, green and red is multiplied by k; alpha is 255 |
| Colors.SumOfDiff | Drawer.cs:117-125 | adding back what GetDiffWith removed restores the channels, with alpha 255 |
| Colors.SquaredDistance | Drawer.cs:174-181 | the squared RGB distance is never negative |
| Colors.IsSimilar | Drawer.cs:174-181 | defines similarity as squared RGB distance <= threshold², with a negative threshold admitting nothing; its properties are IsSimilarProperties |
| Colors.IsSimilarProperties | Drawer.cs:174-181 | similarity (distance <= threshold) is reflexive exactly for a threshold >= 0, symmetric, ignores alpha, and bounds each channel difference by the threshold |
| Colors.ColorCell.Swap | Drawer.cs:144-156 | the two colours exchange blue, green and red; each keeps its own alpha |
| Geometry.Rotate | Drawer.cs:403-406 | the cross product (b-a)×(c-a); it is 0 when two of the points coincide |
| Geometry.RotateProperties | Drawer.cs:403-406 | Rotate changes sign when two arguments are exchanged and is invariant under cyclic shifts |
| Geometry.TruncDiv | Drawer.cs:202 | C# integer division, rounding toward zero, for a positive divisor; dividing by 1 changes nothing |
| Geometry.PointCell.Swap | Drawer.cs:370-379 | the two points exchange coordinates |
| Geometry.LineCenter | Drawer.cs:202 | the centre lies in the segment's bounding box and is the exact midpoint rounded toward zero |
| Polygons.MakeEdge | Drawer.cs:328-344 | up.y <= down.y; up/down is p1/p2 in some order, and p1 is up on equal y; LEFT iff up.x > down.x |
| Polygons.IsHorizontal | Drawer.cs:325 | an edge is horizontal when its two ends share a row |
| Polygons.IsRight | Drawer.cs:345-348 | the source's cross product at `down` is positive; IsRightIsRotate relates it to Rotate |
| Polygons.IsRightIsRotate | Drawer.cs:345-348 | IsRight is the strictly positive cross product Rotate(down, up, q) |
| Polygons.EdgeAtJoins | Drawer.cs:244-255 | edge i joins points[i] and points[(i+1) mod n]; the last edge closes the ring to points[0] |
| Polygons.Edges | Drawer.cs:244-255 | exactly one edge per point, edge i being EdgeAt(points, i) |
| Polygons.CrossingsOf | Drawer.cs:286-299 | an edge adds 0 or 1 crossings; a horizontal edge or one whose lower end is on the query row adds none; a crossing needs up.y <= q.y < down.y |
| Polygons.CrossingRule | Drawer.cs:286-299 | for an edge of the ring, one crossing is counted iff up.y <= q.y < down.y and q is strictly right of the edge (both directions) |
| Polygons.RightOfLeaningLeft | Drawer.cs:294-295 | for a LEFT edge, q right of the edge within its span is right of `down`, so the x test at `down` adds nothing |
| Polygons.RightOfLeaningRight | Drawer.cs:296-297 | for a RIGHT edge, q right of the edge within its span is right of `up`, so the x test at `up` adds nothing |
| Polygons.CrossingCount | Drawer.cs:280-301 | the crossing counter after the first k edges; bounded by CrossingCountBounds |
| Polygons.CrossingCountBounds | Drawer.cs:280-301 | the crossing count over k edges is between 0 and k |
| Polygons.Contains | Drawer.cs:280-301 | inside iff the number of crossings is odd |
| Polygons.OutsideBoundingBox | Drawer.cs:280-301 | a point at or left of every vertex, above every vertex, or on or below the lowest row has no crossings |
| Polygons.RightOfEnds | Drawer.cs:345-348 | q strictly right of both ends of an edge whose span holds q's row is right of the edge |
| Polygons.CrossingRightOfEnds | Drawer.cs:286-299 | seen from a point right of both ends, an edge counts a crossing iff its ends lie on different sides of q's row |
| Polygons.RightStep | Drawer.cs:286-299 | for q right of every vertex, edge k-1 adds 1 exactly when vertices k-1 and k (wrapping to 0) lie on different sides of q's row |
| Polygons.RightParity | Drawer.cs:280-301 | for q right of every vertex, the count over k edges is odd iff vertex 0 and vertex k lie on different sides of q's row |
| Polygons.RightOfBoundingBox | Drawer.cs:280-301 | a point strictly right of every vertex has an even count, so it is not inside |
| Polygons.EdgeAtNext | Drawer.cs:244-255 | edge i ends at vertex i+1, or at vertex 0 after the last vertex |
| Polygons.SquareExample | Drawer.cs:280-301 | on the square (0,0),(4,0),(4,4),(0,4): (2,2) is inside, (9,2) is not |
| Polygons.Center | Drawer.cs:257-266 | the truncated mean of the vertices; a one-vertex polygon is its own centre |
| Polygons.SumBounds | Drawer.cs:257-266 | the coordinate sums lie between n*min and n*max |
| Polygons.MeanBounds | Drawer.cs:257-266 | a truncated mean of values within [lo, hi] is within [lo, hi] |
| Polygons.CenterInBoundingBox | Drawer.cs:257-266 | the polygon centre lies in the bounding box of its vertices |
| Hull.PivotIndex | Drawer.cs:29-31 | the first point of least y, which is what the stable sort by y puts in front |
| Hull.Pop | Drawer.cs:45-48 | popping only removes entries from the top (the result is a prefix) and never below two entries |
| Hull.ScanTo | Drawer.cs:37-50 | the stack after the points before i: indices below i, at least two of them |
| Hull.PopStep | Drawer.cs:45-48 | on an angle-sorted input the stack is popped exactly while the top two points and point i turn clockwise; the two-entry stop is never reached |
| Hull.PopClockwise | Drawer.cs:45-48 | the inner loop computes Pop, keeps the stack's shape, and ends with no clockwise turn onto point i |
| Hull.ScanPoint | Drawer.cs:45-49 | one pass of the for loop: the stack becomes Pop of it for point i, then i is pushed; the shape is kept |
| Hull.Scan | Drawer.cs:37-50 | the loop computes ScanTo of the whole input; the kept indices start at 0, end at n-1, are strictly increasing and make no clockwise turn |
| Hull.PopKeepsShape | Drawer.cs:45-48 | popping the stack keeps the indices increasing and free of right turns |
| Hull.PushKeepsShape | Drawer.cs:49 | pushing i after a non-clockwise turn keeps the indices increasing and free of right turns |
| Hull.Create | Drawer.cs:27-56 | the hull is the sorted points at the indices ScanTo keeps, a subsequence of them; it starts at the pivot, ends at the last angle-sorted point, holds only input points, and never turns clockwise |
| Hull.Collect | Drawer.cs:52-55 | the hull holds the points at the kept indices, in stack order |
| Hull.SelectionKeepsShape | Drawer.cs:52-55 | the collected points are input points and keep the stack's turns |
| Hull.SquareIsAngleSorted | Drawer.cs:33-35 | the square's corners and centre in the order the two sorts give are angle-sorted |
| Hull.SquareHull | Drawer.cs:37-50 | on that square the scan drops the centre and keeps the four corners |
| Triangles.IsPointInTriangle | Drawer.cs:442-449 | inside when the three half-plane expressions are all >= 0 or all <= 0; its properties are the lemmas below |
| Triangles.SideIsRotate | Drawer.cs:442-449 | each half-plane expression is the cross product Rotate of an edge and the point |
| Triangles.InTriangleIffSameSide | Drawer.cs:442-449 | inside iff the three cross products are all >= 0 or all <= 0 |
| Triangles.InTriangleProperties | Drawer.cs:442-449 | every vertex is inside, and the test does not depend on the vertex order |
| Triangles.Reorder | Drawer.cs:451-481 | the source's four passes of conditional swaps composed; its properties are the Reorder lemmas |
| Triangles.ReorderPermutes | Drawer.cs:451-481 | the reordering permutes the three (point, colour) corners, up to alpha, and ends with v2.x <= v3.x |
| Triangles.ReorderPutsApexFirst | Drawer.cs:451-481 | when exactly two vertices share a row, the third vertex (the apex) ends first and the other two share a row |
| Triangles.ReorderPutsTopFirst | Drawer.cs:451-481 | with three distinct rows the top vertex ends first, except when y3 < y1 < y2 |
| Triangles.ReorderKeepsMiddleFirst | Drawer.cs:451-481 | on rows 1, 2, 0 the middle-row vertex stays first, below the third vertex |
| Triangles.SwapTrianglePoints | Drawer.cs:451-481 | the cells end holding Reorder of the triangle they held |
| Raster.IndexInjective | Drawer.cs:793-801 | distinct in-bounds points have distinct buffer indices |
| Raster.OffsetInRange | Drawer.cs:437-438 | offset y*stride + 4x of an in-bounds point fits in the 4*w*h buffer |
| Raster.WritePixel | Drawer.cs:726-730 | the written pixel holds the data; every other pixel keeps its bytes |
| Raster.PlotAt | Drawer.cs:726-730 | after plotting q, q reads the data and every other point reads as before |
| Raster.PaintPointsAt | Drawer.cs:951-958 | after painting a list of points, a point reads the data iff it is in the list, otherwise as before |
| Raster.PaintPointsAppend | Drawer.cs:754-762 | painting a + b is painting a then b |
| Raster.SampleAtCenter | Drawer.cs:879-895 | the texture is centred: the centre point samples texel (width/2, height/2) |
| Raster.SampleRepeats | Drawer.cs:879-895 | sampling repeats with the texture's width horizontally and its height vertically |
| Raster.RecolorsTransitive | Drawer.cs:831-908 | "every changed pixel took the paint" composes over successive steps |
| Raster.BaseSetShrinks | Drawer.cs:844 | painting with a non-base colour never adds a base-coloured pixel |
| Bresenham.NotPastIsProduct | Drawer.cs:673 | the loop condition x*step <= x2*step is "not past x2" for step ±1 |
| Bresenham.ShallowUnfold | Drawer.cs:673-686 | one gentle step: the error term decides whether y advances before the pixel |
| Bresenham.SteepUnfold | Drawer.cs:703-716 | one steep step: the error term decides whether x advances before the pixel |
| Bresenham.ShallowColumns | Drawer.cs:673-686 | the gentle loop draws |x2-x|+1 pixels, one per column, walking toward x2 |
| Bresenham.ShallowRows | Drawer.cs:673-686 | in the gentle loop y starts at y or y+1 and rises by 0 or 1 per pixel |
| Bresenham.Transposed | Drawer.cs:690-718 | swapping coordinates keeps the length and swaps every point |
| Bresenham.SteepIsTransposedShallow | Drawer.cs:690-718 | the steep loop is the gentle loop with x and y exchanged |
| Bresenham.Shallow | Drawer.cs:670-688 | the pixels of the gentle loop from its current state; described by ShallowColumns and ShallowRows |
| Bresenham.Steep | Drawer.cs:700-718 | the pixels of the steep loop; SteepIsTransposedShallow relates it to Shallow |
| Bresenham.Pixels | Drawer.cs:657-721 | the pixels of a whole segment, gentle or steep; described by the Segment lemmas |
| Bresenham.ShallowSegment | Drawer.cs:657-688 | a gentle segment has |dx|+1 pixels, one per column from the start to the end; y rises by 0 or 1 per step |
| Bresenham.HorizontalSegment | Drawer.cs:657-688 | a horizontal segment of two or more pixels is exactly its row from x1 to x2 |
| Bresenham.SteepSegment | Drawer.cs:657-721 | a steep segment is the transposed gentle segment |
| Bresenham.ShiftedExamples | Drawer.cs:678-688 | (0,0)-(1,1) draws (0,1),(1,2); a one-point segment at (3,5) draws (3,6) |
| Drawing.OutlineMembership | Drawer.cs:754-762 | a point is on the outline iff it is on one of the sides drawn so far |
| Drawing.OutlinePainted | Drawer.cs:754-762 | after DrawPolygon a pixel has the colour iff it is on a side, and is otherwise unchanged |
| Drawing.LineDrawnStep | Drawer.cs:809-826 | painting the next pixel extends a painted span by one column and changes nothing else |
| Drawing.SpanThenStep | Drawer.cs:831-908 | painting the seed's maximal base run and then the neighbour rows: only the paint is written, only base pixels change, black is kept, and the seed's whole run is painted |
| Drawing.BaseStepTransitive | Drawer.cs:847-851 | successive recursive fills compose: still only paint, only base pixels |
| Drawing.DrawnSpan | Drawer.cs:839-844 | drawing the run between the scans paints it and touches only base pixels |
| Drawing.ChangesOnlyBaseTransitive | Drawer.cs:847-851 | "only base pixels changed" composes when each step reads a fresh snapshot |
| Drawing.KeepsBlackOfBase | Drawer.cs:833 | with a non-black base, a fill that only changes base pixels never changes a black pixel |
| Drawing.PaintedSpanKept | Drawer.cs:847-851 | later fills, which write only the paint, keep a painted span painted |
| Drawing.RunInsideBounds | Drawer.cs:839-842 | the scans stop at the edge or at a non-base pixel, so the run lies strictly between them |
| Drawing.RunPaintedOfSpan | Drawer.cs:839-844 | painting from left+1 to right paints every pixel of the seed's base run |
| Drawing.CoveredGrows | Drawer.cs:863-864 | a span recorded in used stays recorded as used grows |
| Drawing.UncoveredShrinks | Drawer.cs:863-877 | growing used never uncovers a point (termination of _fill) |
| Drawing.Wrap | Drawer.cs:885-892 | adding the period until non-negative, then taking the remainder, gives v mod n |
| Drawing.SampleTexel | Drawer.cs:881-895 | the colour drawn at (i, y) is the texture sampled around the centre with wrap-around |
| Drawing.Around | Drawer.cs:915-925 | eight neighbours, in the order of the direction table |
| Drawing.AroundIsAdjacent | Drawer.cs:915-925 | q is among the eight neighbours of p iff it is 8-adjacent and distinct |
| Drawing.PushAround | Drawer.cs:944-945 | the eight neighbours are pushed in direction order |
| Drawing.RegionUnique | Drawer.cs:910-948 | two border regions traced from the same start have the same points |
| Drawing.SearchSkip | Drawer.cs:934-946 | popping a labelled or non-candidate point keeps the search invariant |
| Drawing.SearchVisit | Drawer.cs:934-946 | visiting a candidate, labelling it and pushing its neighbours keeps the search invariant |
| Drawing.SearchDone | Drawer.cs:934-947 | with an empty stack the result is the whole 8-connected candidate region of the start |
| Drawing.Drawer.constructor | Drawer.cs:429-440 | the given width and height, a white buffer, a zero snapshot, base white |
| Drawing.Drawer.Clear | Drawer.cs:774-785 | every byte is 255, so every pixel reads white |
| Drawing.Drawer.SetPixels | Drawer.cs:787-792 | the snapshot equals the buffer |
| Drawing.Drawer.GetPixel | Drawer.cs:793-801 | the colour of the four snapshot bytes at y*stride + 4x; for in-bounds points, the pixel's colour |
| Drawing.Drawer.SetBaseColor | Drawer.cs:803-807 | base becomes the old snapshot colour at (x, y), then the snapshot is refreshed |
| Drawing.Drawer.DrawPoint | Drawer.cs:726-730 | the buffer becomes Plot of the point with the data |
| Drawing.Drawer.DrawDisc | Drawer.cs:732-746 | exactly the pixels with i*i + j*j <= r*r, r = thickness/2 truncated, take the colour; the rest are unchanged |
| Drawing.Drawer.DrawLine | Drawer.cs:809-826 | pixels x1 .. x2-1 of row y take the data; nothing else changes |
| Drawing.Drawer.DrawLineBresenham | Drawer.cs:657-721 | the buffer becomes the old one with Bresenham.Pixels painted |
| Drawing.Drawer.GentleLoop | Drawer.cs:670-688 | the gentle loop paints exactly Bresenham.Shallow |
| Drawing.Drawer.SteepLoop | Drawer.cs:700-718 | the steep loop paints exactly Bresenham.Steep |
| Drawing.Drawer.DrawPolygon | Drawer.cs:754-762 | the buffer becomes the old one with the closed ring of sides painted |
| Drawing.Drawer.DrawSide | Drawer.cs:756-760 | side i, from points[i] to points[(i+1) mod n], is painted |
| Drawing.Drawer.FillStops | Drawer.cs:833 | Fill's early-return test: out of bounds, or the snapshot shows the colour, black or anything but base |
| Drawing.Drawer.BaseRunLeft | Drawer.cs:839-840 | the left scan stops at -1 or at a non-base pixel, with base pixels up to x |
| Drawing.Drawer.BaseRunRight | Drawer.cs:841-842 | the right scan stops at the width or at a non-base pixel, with base pixels from x |
| Drawing.Drawer.Fill | Drawer.cs:831-852 | a no-op when the seed is out of bounds, the fill colour, black or not base; a repeated call is a no-op; only base pixels change and only to the fill colour; black is kept on a fresh snapshot; the seed's base run is painted |
| Drawing.Drawer.FillSeed | Drawer.cs:836-851 | from a fillable seed: the same guarantees, with the snapshot fresh afterwards |
| Drawing.Drawer.PaintRun | Drawer.cs:836-845 | finds the seed's maximal base run, paints it, refreshes the snapshot; the set of base pixels shrinks strictly on a fresh snapshot |
| Drawing.Drawer.FillNeighbours | Drawer.cs:847-851 | the recursive calls change only base pixels, only to the fill colour, and never add a base pixel |
| Drawing.Drawer.FillImage | Drawer.cs:854-859 | only base pixels change, each to its texture sample; with a black base nothing changes; the seed's run is painted |
| Drawing.Drawer.FillImageStops | Drawer.cs:863-867 | _fill's early-return test: a recorded span covers the point, it is out of bounds, or it is black |
| Drawing.Drawer.FillImageFrom | Drawer.cs:861-908 | returns at once on a used span, out of bounds or black; otherwise records the span and paints it and the rows above and below from the texture |
| Drawing.Drawer.PaintImageRun | Drawer.cs:869-896 | finds the seed's maximal base run and paints it from the texture; an empty run leaves the buffer unchanged |
| Drawing.Drawer.DrawImageSpan | Drawer.cs:881-895 | pixels lo .. hi-1 of row y take their texture samples; nothing else changes |
| Drawing.Drawer.FillImageRows | Drawer.cs:898-906 | the recursive calls along a row keep only-texture, only-base changes and a growing used list |
| Drawing.Drawer.LeftToBlack | Drawer.cs:912-914 | the left scan stops at 0 or at a black pixel, passing no black pixel |
| Drawing.Drawer.ScanToBlack | Drawer.cs:912-914 | the loop computes LeftToBlack |
| Drawing.Drawer.Candidates | Drawer.cs:939 | exactly the in-bounds points within distance 50 of black |
| Drawing.Drawer.GetBorderPoints | Drawer.cs:910-948 | the result is the 8-connected region of candidates around the scan's stop point, starting there, with no duplicates |
| Drawing.Drawer.Highlight | Drawer.cs:951-958 | exactly the border points take the colour; nothing else changes |
| Drawing.Drawer.DrawPoints | Drawer.cs:954-957 | the listed points are painted in order |

## Left out

- The user interface (`MainWindow.xaml.cs`, `Utilities.cs`), `Cursors` and `Colors.Random`: event wiring, resource streams and `System.Random`. None of it is part of the engine.
- Floating-point rasterisers: `DrawLineWu` and `GetFractionPart`, `DrawTriangleVectors`, `DrawTriangleLinear` and `InterpolateColor`. These are all floating point.
- `Line.Intersection`: its parameter `t` is floating point.
- `Point.Distance` and `Math.Sqrt`: floating point. Similarity is decided on the squared distance, which is exact.
- `Hull.Create`: the `atan2` angle sort is floating point, so `AngleSorted` states the order it provides and is a requirement. The hull works on values, so the caller's list cannot be reordered by it.
- Hull.Create: requires two or more points. With one point or none the source throws when it reads `_points[1]`; that exception is not modelled.
- Hull.Create: pins the hull to the scan's result and proves it never turns clockwise, but does not prove that every input point lies on or left of every hull edge.
- `Color` arithmetic uses exact reals instead of `double` rounding.
- `Color.GetHashCode` (it throws), `Id` and `Title`.
- The `WriteableBitmap` and `System.Drawing.Bitmap` internals. `WritePixels` and `CopyPixels` are array writes and copies. Out-of-range rectangles, which throw in the source, are preconditions.
- The `Bitmap` property setter, which replaces the buffer.
- The overloads that only delegate: `DrawLineBresenham(Point, Point, Color)`, `DrawLineBresenham(Line, Color)`, `DrawPolygon(Polygon)` and `DrawPolygon(IList<Line>)`.
- `DrawPoint(double, double)`, a truncating cast to `DrawPoint(int, int)`.
- Fixed-width integers: overflow is not modelled anywhere.
- `Fill` and `_fill`: the recursion depth and the stack overflow it can cause on large regions.
- Triangles.SwapTrianglePoints: requires six distinct cells. When the caller passes the same object twice, the source's aliasing is not modelled.
- Drawing.Drawer.DrawLine: requires x1 <= x2. The source's `new byte[(x2 - x1) * 4]` throws on a negative length.
- Drawing.Drawer.GetPixel: requires the offset y*stride + 4x and the three bytes after it to lie in the snapshot. Outside it the source throws `IndexOutOfRangeException`; the exception is not modelled.
- Drawing.Drawer.SetBaseColor: requires the same as `GetPixel`, which it calls.
- Drawing.Drawer.Fill: requires a byte-valued colour, or one whose stored bytes read back as a colour other than base. Otherwise, for a colour such as (255.5, 255, 255) on a white base, the painted seed still reads as base and the source recurses without end.
- Drawing.Drawer.Fill: proves what is painted and what is kept, and that the seed's whole run is painted. It does not prove that the whole 4-connected base region is reached.
- Drawing.Drawer.FillImage: same as `Fill`; the whole region is not claimed.
- Drawing.Drawer.GetBorderPoints: states the set of points returned, which `RegionUnique` shows is determined by the start. It does not state the order in which the stack discovers them.
- Drawing.Drawer.GetBorderPoints: requires either x <= 0 or that the start point's offset lies in the buffer. A call with y < 0 whose scan could still reach a pixel is excluded.
- Drawing.Drawer.Highlight: requires the same as `GetBorderPoints`.
- Several loop bodies are separate methods so that each proof stays small. They are `GentleLoop`, `SteepLoop`, `DrawSide`, `PaintRun`, `FillNeighbours`, `PaintImageRun`, `DrawImageSpan`, `FillImageRows`, `DrawPoints` and `PushAround`.
