# Rust3DTest rasterizer, modelled in Dafny

Rust3DTest draws triangle meshes in software. The picture is a 64 x 48 grid of colour
pixels, and each pixel also has a depth. `clear_display` may paint any colour; every pixel
that a triangle draws is a shade of grey given by its depth. `GraphicsState` borrows two flat buffers of
`BUFFER_SIZE = WIDTH * HEIGHT` entries: the colours `d` and the `depth_buffer`.

- `clear_display` and `clear_depth_buffer` overwrite these buffers.
- `draw_scanline` fills the pixels of one row between two edge positions. It interpolates
  each pixel's depth and keeps the pixel only when it passes the depth test.
- `draw_tri` works through one triangle in order:
  - it culls the triangle when it faces backwards;
  - it maps the corners onto the display with `toDCoords`;
  - it sorts the corners by row with three conditional swaps;
  - it runs one row loop from the top corner to the middle one and another from the
    middle corner to the bottom one.
- `draw_model` transforms a copy of a mesh's vertices and draws its faces in order.
- `Model::load_obj` builds the mesh from the lines of an OBJ-like file.
- `point.rs` supplies 2-D points, the map onto display coordinates and a clamped `lerp`.

The project has these modules:

- `Numeric` (numeric.dfy): f32 arithmetic over exact reals.
  - `round` rounds half away from zero.
  - The `as` casts to `i32` and `u8` saturate.
  - A division by zero gives a signed infinity.
- `Screen` (numeric.dfy): the display size.
- `Point` (point.dfy): `point.rs`.
- `Vectors` (vectors.dfy): the vector and vertex types the core uses, and the culling
  cross product.
- `Mesh` (mesh.dfy): `model.rs`.
  - `LoadFrom` specifies the line loop as a function.
  - `LoadObj` is the loop itself.
- `Raster` (raster.dfy): pure functions on a snapshot of both buffers (a `Frame`) saying
  what each drawing operation does. These lemmas prove the properties:
  - every write stays in the buffers and in the pixel row and columns it belongs to;
  - no depth decreases;
  - a written pixel holds the grey of its depth, and that depth lies between the depths
    of the triangle's corners;
  - the row sort yields an ordered permutation;
  - a back-facing triangle draws nothing.
- `Graphics` (graphics.dfy): the class `GraphicsState` over two arrays, with the source's
  loops.
  - `ClearDisplay` and `ClearDepthBuffer` state the new contents of the arrays directly.
  - Each drawing method is proved to leave the arrays exactly as the `Raster` function of
    the old contents says.
  - So everything proved about those functions holds of the arrays.

## Model

| member | source | states |
|---|---|---|
| Numeric.Round | src/graphics.rs:45-46 | `f32::round`: the result is within 1/2 of t, and a tie goes away from zero |
| Numeric.Trunc | src/graphics.rs:57-59 | truncation toward zero: the result lies between t and 0, less than 1 away from t |
| Numeric.RoundToI32 | src/graphics.rs:45-46 | `t.round() as i32` lies in the i32 range and equals the rounded value whenever that fits |
| Numeric.AsU8 | src/graphics.rs:57-59 | `t as u8`: 0 below 1, 255 from 255 up, and in between the integer part of t |
| Numeric.Divide | src/graphics.rs:50 | IEEE division: finite exactly when the denominator is nonzero, and then quotient times denominator is the numerator; otherwise +inf or -inf by the numerator's sign |
| Point.Add | src/point.rs:12-16 | `p + q` is the point from which subtracting q gives p back |
| Point.Sub | src/point.rs:17-21 | `p - q` is the point to which adding q gives p back |
| Point.Mul | src/point.rs:22-26 | componentwise `p * q`: dividing a component by a nonzero component of q gives p's back, and a zero component of q gives 0 |
| Point.Scale | src/point.rs:27-31 | `p * s` is the componentwise product with the point (s, s) |
| Point.Div | src/point.rs:32-36 | componentwise `p / q` for nonzero components is the point that multiplying by q takes back to p |
| Point.Shrink | src/point.rs:37-41 | `p / s` for a nonzero s is the point that scaling by s takes back to p |
| Point.AddSubInverse | src/point.rs:12-21 | `(p + q) - q == p` and `(p - q) + q == p` |
| Point.AddCommutesAssociates | src/point.rs:12-16 | point addition is commutative and associative |
| Point.MulDivInverse | src/point.rs:22-36 | componentwise division by a point with nonzero components undoes componentwise multiplication, and back |
| Point.ScaleShrinkInverse | src/point.rs:27-41 | division by a nonzero scalar undoes scaling by it, and back |
| Point.ScaleIsMul | src/point.rs:22-31 | scaling by s is multiplying by the point (s, s) |
| Point.ToDCoords | src/point.rs:47-50 | `toDCoords` is affine: x' = (x + 1) / 2 * WIDTH and y' = (y + 1) / 2 * HEIGHT |
| Point.ToDCoordsCorners | src/point.rs:44-50 | MIN_SCREEN maps to (0, 0) and MAX_SCREEN to (WIDTH, HEIGHT) |
| Point.ToDCoordsMonotone | src/point.rs:47-50 | each display coordinate is strictly increasing in, and determined by, the same screen coordinate |
| Point.Lerp | src/point.rs:52-56 | `lerp` never leaves [min(a, b), max(a, b)], gives a at v = 0 and b at v = 1 |
| Point.LerpBetween | src/point.rs:55 | for 0 <= v <= 1 the blend `a*(1-v) + b*v` lies between a and b |
| Point.LerpClamped | src/point.rs:53-54 | every v < 0 gives a, as v = 0 does; every v > 1 gives b, as v = 1 does |
| Point.LerpAt | src/point.rs:52-56 | `lerp` at a possibly infinite f32 fraction: -inf gives a, +inf gives b, and the result stays between a and b |
| Vectors.WindingReverses | src/graphics.rs:67 | swapping two corners, or the two cross-product factors, negates the culling value |
| Vectors.WindingRotates | src/graphics.rs:67 | rotating the corners leaves the culling value unchanged |
| Vectors.Winding | src/graphics.rs:67 | the z-component of `(b - a) x (c - a)` in closed form; it is 0 when two corners coincide |
| Raster.Culled | src/graphics.rs:67 | a culled triangle's mirror image (two corners swapped) is never culled and its rotation is; a triangle with two coinciding corners is never culled |
| Mesh.NewModel | src/model.rs:15-18 | `Model::new` has no vertices and no faces |
| Mesh.TokenLength | src/model.rs:25 | the longest `[-.0-9]` prefix: all its characters are numerals and the next one is not |
| Mesh.SplitTokens | src/model.rs:25 | a match of `([-.0-9]+) ([-.0-9]+) ([-.0-9]+)$` yields three tokens that join back, with single spaces, into the text |
| Mesh.SplitTokensComplete | src/model.rs:25 | any three tokens joined with single spaces are split back into exactly those tokens |
| Mesh.MatchLine | src/model.rs:25-35 | captures found for a line are well formed and render back to that line |
| Mesh.MatchLineComplete | src/model.rs:25-35 | every well-formed capture set is found again in the line it renders to |
| Mesh.MatchLineIff | src/model.rs:25-35 | a line yields captures f if and only if f is well formed and renders to the line |
| Mesh.ParseUsize | src/model.rs:46-48 | `parse::<usize>` succeeds exactly on a nonempty run of digits whose value is at most usize::MAX, leading zeros allowed, and gives that value; any non-digit makes it fail |
| Mesh.LeadingZeroValue | src/model.rs:46-48 | a leading zero does not change the value of a numeral |
| Mesh.LeadingZeroParse | src/model.rs:46-48 | `parse::<usize>` gives the same result with a leading zero: `"01"` parses as `"1"` does |
| Mesh.DecimalValue | src/model.rs:46-48 | the decimal numeral of n has value n |
| Mesh.ParseDecimal | src/model.rs:46-48 | parsing the numeral of any index up to usize::MAX gives that index back |
| Mesh.Coordinate | src/model.rs:39-41 | a coordinate succeeds exactly when the float parse does, with its value, and otherwise fails naming the token |
| Mesh.FaceIndex | src/model.rs:46-48 | `parse::<usize>().unwrap() - 1` succeeds exactly on a parsed index of at least 1, giving the index minus 1; it underflows exactly on 0 |
| Mesh.UnmatchedLineIgnored | src/model.rs:28-31 | a line the pattern does not match leaves the model unchanged |
| Mesh.OtherTagIgnored | src/model.rs:37-50 | a matching line whose tag is neither `v` nor `f` leaves the model unchanged |
| Mesh.VertexLine | src/model.rs:37-43 | a `v` line appends exactly one vertex, with the three parsed coordinates, at the end of `verts`, leaving `faces` alone, exactly when all three coordinates parse; otherwise it fails on a coordinate |
| Mesh.FaceLine | src/model.rs:44-50 | an `f` line appends exactly one face of the three indices minus 1 at the end of `faces`, leaving `verts` alone, exactly when all three indices give an index; otherwise it fails with the error of the first index that does not |
| Mesh.SmallIndices | src/model.rs:46-48 | index `0` underflows, `1` gives 0, and `1.5` and `-2` fail to parse |
| Mesh.ZeroIndexLine | src/model.rs:44-50 | the line `f 0 1 2` fails with the subtraction underflow |
| Mesh.FractionalIndexLine | src/model.rs:44-50 | the line `f 1.5 1 1` fails in `parse` |
| Mesh.NegativeIndexLine | src/model.rs:44-50 | the line `f 1 -2 1` fails in `parse` |
| Mesh.ApplyLine | src/model.rs:27-50 | one loop body only appends to the lists, at most one record; it panics only on a matching `v` or `f` line |
| Mesh.ApplyCaptures | src/model.rs:37-50 | the `match` on the tag only appends, at most one record |
| Mesh.LoadFrom | src/model.rs:26-51 | the loop over the lines (what `LoadObj` is proved against) panics only if some line is a matching `v` or `f` line |
| Mesh.LoadLine | src/model.rs:26-51 | the first line applied, then the rest loaded: it panics only if some line is a matching `v` or `f` line |
| Mesh.ApplyLineRecords | src/model.rs:26-50 | a line that does not fail adds its own vertex or face, if any, at the end of the lists |
| Mesh.LoadStep | src/model.rs:26-51 | a load that does not fail applies the first line, then loads the rest from the model that line gave |
| Mesh.LoadVertices | src/model.rs:26-51 | a load that does not fail appends the vertices of the `v` lines, in line order, and no others |
| Mesh.LoadFaces | src/model.rs:26-51 | a load that does not fail appends the faces of the `f` lines, in line order, and no others |
| Mesh.LoadConcat | src/model.rs:26-51 | loading `a + b` is loading `a`, then loading `b` from its model, and it fails where `a` fails |
| Mesh.LoadOne | src/model.rs:26-51 | loading a single line is applying that line |
| Mesh.LoadObj | src/model.rs:20-54 | the line loop returns exactly what the specification `LoadFrom` gives from `Model::new` |
| Raster.Shade | src/graphics.rs:57-59 | all three channels of a written pixel are equal; depth 0 or less gives black, 2 or more gives white |
| Raster.ShadeMonotone | src/graphics.rs:57-59 | a larger depth never gives a darker grey |
| Raster.Index | src/graphics.rs:55-60 | `y * WIDTH + x` lies in [0, BUFFER_SIZE) and gives back row y and column x |
| Raster.IndexOfPixel | src/graphics.rs:55-60 | every buffer index is the index of its own column and row |
| Raster.Plot | src/graphics.rs:55-60 | a fragment less deep than the stored depth leaves the pixel unchanged; any other, ties included, replaces the depth and paints the grey of that depth |
| Raster.Deeper | src/graphics.rs:55-60 | the fragment that wins the depth test of two: none only when both are none, one of the two, and at least as deep as each |
| Raster.PlotMerge | src/graphics.rs:55-60 | two fragments plotted one after the other leave the pixel as the deeper of them alone would |
| Raster.PlotTwice | src/graphics.rs:55-60 | the depth test is idempotent: the same fragment plotted twice gives the pixel it gives once |
| Raster.PlotCommutes | src/graphics.rs:55-60 | two fragments give the same pixel in either order |
| Raster.ColumnRange | src/graphics.rs:44-48 | the clamped column range lies within [0, WIDTH) |
| Raster.ColumnInSpan | src/graphics.rs:44-49 | every visited column lies between min(a, b) - 0.95 and max(a, b) - 0.05 |
| Raster.ColumnRangeCovers | src/graphics.rs:44-49 | every column of the row at least 0.05 inside the span is visited |
| Raster.ColumnDepth | src/graphics.rs:50-52 | the interpolated depth lies between aZ and bZ, because `lerp` is clamped |
| Raster.Fragment | src/graphics.rs:49-60 | a pixel receives a depth only in the stroke's row and columns, and that depth lies between aZ and bZ |
| Raster.NextColumn | src/graphics.rs:49-61 | one more pass of the column loop plots the depth of column x at pixel (x, y) |
| Raster.ScanColumnsAt | src/graphics.rs:49-61 | after the columns before x, each visited pixel has taken its fragment and every other pixel is unchanged |
| Raster.ScanlineAt | src/graphics.rs:43-62 | `draw_scanline` plots at every pixel exactly the fragment the stroke lays there |
| Raster.ScanlineEffect | src/graphics.rs:43-62 | a scanline changes only pixels of its row and column range and never lowers a depth; a changed pixel has a depth between aZ and bZ and the grey of that depth |
| Raster.ScanlineWrites | src/graphics.rs:55-60 | a pixel of the range whose depth passes the test gets that depth and its grey |
| Raster.Project | src/graphics.rs:69 | a corner's x and y are `toDCoords` of its position and its z is carried along |
| Raster.Step | src/graphics.rs:70-72 | one conditional swap orders the two rows, keeps the third point, and permutes the list |
| Raster.SortByRow | src/graphics.rs:69-72 | after the three swaps the rows are non-decreasing and the list is a permutation of the corners |
| Raster.FirstRow | src/graphics.rs:78 | a loop's first row is at least 0 and at most 0.95 above the corner's row |
| Raster.EndRow | src/graphics.rs:79 | a loop's end is at most HEIGHT and at most 0.95 below the corner's row |
| Raster.RowStart | src/graphics.rs:78-89 | the first row of either loop is at least 0 and at most 0.95 above the loop's upper corner |
| Raster.RowEnd | src/graphics.rs:79-90 | the end of either loop is at most HEIGHT and at most 0.95 below the loop's lower corner |
| Raster.RowInRange | src/graphics.rs:78-90 | every row of either loop is in [0, HEIGHT), near the triangle's rows, and strictly above the loop's lower corner |
| Raster.RowRangeCovers | src/graphics.rs:78-90 | every display row at least 0.05 inside a loop's two corner rows is visited by that loop |
| Raster.Split | src/graphics.rs:74-76 | `mid` and `midZ` lie between the top and bottom corners' x and z |
| Raster.EdgeFraction | src/graphics.rs:80-81 | `v_a` / `v_b` are finite exactly when the edge is not flat, and are never 0/0 |
| Raster.Edges | src/graphics.rs:80-96 | each loop walks two edges ending at the lower corner, whose endpoints lie in the corners' box |
| Raster.RowStroke | src/graphics.rs:80-96 | the positions and depths passed to `draw_scanline` lie within the corners' x and z ranges |
| Raster.ScanColumns | src/graphics.rs:49-61 | the column loop after the columns before x yields two buffers of BUFFER_SIZE entries |
| Raster.Scanline | src/graphics.rs:43-62 | `draw_scanline` yields two buffers of BUFFER_SIZE entries; its pixelwise effect is `ScanlineAt` |
| Raster.FillRows | src/graphics.rs:78-99 | a row loop yields two buffers of BUFFER_SIZE entries; its effect is `FillRowsPainted` |
| Raster.NextRow | src/graphics.rs:78-99 | one more pass of a row loop draws the scanline of row y, which lies in [0, HEIGHT) |
| Raster.RowPainted | src/graphics.rs:80-98 | the scanline of one row paints every pixel only as the triangle may |
| Raster.RowPaintedAt | src/graphics.rs:80-98 | at one pixel, the scanline of one row paints only as the triangle may |
| Raster.PaintedTwice | src/graphics.rs:78-99 | two paintings by the same triangle compose into one |
| Raster.FillRowsPainted | src/graphics.rs:78-99 | a row loop changes only pixels in the triangle's widened box and never lowers a depth; a changed pixel has a depth between the corners' depths and its grey |
| Raster.RowFragment | src/graphics.rs:78-99 | the fragment a row loop lays on a pixel comes only from the pixel's own row, and only once that row is drawn |
| Raster.NextRowFragment | src/graphics.rs:78-99 | drawing one more row adds to a pixel exactly the fragment that row lays there |
| Raster.RowDrawnAt | src/graphics.rs:78-99 | at every pixel, one more pass of a row loop is one depth test of that row's fragment |
| Raster.NextRowAt | src/graphics.rs:78-99 | one more pass of a row loop keeps every pixel equal to the depth test of the fragments of the rows drawn so far |
| Raster.FillRowsAt | src/graphics.rs:78-99 | at every pixel, a row loop is a single depth test of a fragment that depends on the corners and the row alone, not on the buffers |
| Raster.Corners | src/graphics.rs:67-72 | the sorted corners are row-ordered and a permutation of the three projected corners |
| Raster.TriFrame | src/graphics.rs:65-100 | a back-facing triangle leaves both buffers unchanged |
| Raster.TriFramePainted | src/graphics.rs:65-100 | a triangle changes only pixels in its widened box and never lowers a depth; a changed pixel has a depth between the corners' depths and the grey of that depth |
| Raster.TriFragment | src/graphics.rs:65-100 | the fragment a triangle lays on a pixel, independent of the buffers; none for a back-facing triangle, and one on every pixel its loops visit otherwise (TriCovers) |
| Raster.TriFrameAt | src/graphics.rs:65-100 | at every pixel, `draw_tri` is a single depth test of the triangle's fragment there |
| Raster.TriCovers | src/graphics.rs:78-99 | a front-facing triangle lays a fragment on every pixel of every row its two loops visit, across that row's column range, at least as deep as the row's depth there and as the nearest corner's |
| Raster.TriWrites | src/graphics.rs:65-100 | a front-facing triangle writes such a pixel whose stored depth lies below all its corners' depths, so the buffers change |
| Raster.SameFrame | src/graphics.rs:17-20 | two pairs of buffers that agree at every pixel are equal |
| Raster.TriFrameIdempotent | src/graphics.rs:65-100 | drawing the same triangle twice leaves the buffers as drawing it once |
| Raster.TriFramesCommute | src/graphics.rs:65-100 | two triangles leave the same buffers whichever is drawn first |
| Raster.NextFace | src/graphics.rs:37-39 | drawing face k after the faces before it is drawing the first k + 1 faces |
| Raster.FacesFrame | src/graphics.rs:37-39 | the face loop yields two buffers of BUFFER_SIZE entries; its effect is `FacesFrameDeepened` |
| Raster.FacesFrameDeepened | src/graphics.rs:37-39 | across all faces no depth decreases, and every changed pixel holds the grey of its depth |
| Raster.Transformed | src/graphics.rs:31-35 | the copy has one vertex per original, each with the transformed position |
| Raster.ModelFrame | src/graphics.rs:30-40 | `draw_model` yields two buffers of BUFFER_SIZE entries; its effect is `FacesFrameDeepened` |
| Raster.AllCulledDrawsNothing | src/graphics.rs:30-40 | a model whose every face is back-facing draws nothing |
| Graphics.GraphicsState.constructor | src/graphics.rs:17-20 | the state draws into the two given buffers of BUFFER_SIZE entries |
| Graphics.GraphicsState.ClearDisplay | src/graphics.rs:24-25 | every colour entry becomes (r, g, b) and the depths stay |
| Graphics.GraphicsState.ClearDepthBuffer | src/graphics.rs:26-27 | every depth entry becomes the value and the colours stay |
| Graphics.GraphicsState.DrawScanline | src/graphics.rs:43-62 | the in-place column loop leaves the buffers exactly as `Scanline` of their old contents |
| Graphics.GraphicsState.DrawTri | src/graphics.rs:65-100 | the buffers end exactly as `TriFrame` of their old contents |
| Graphics.GraphicsState.SortCorners | src/graphics.rs:69-72 | the in-place swaps on the local array give `SortByRow` of the corners |
| Graphics.GraphicsState.SwapIfBelow | src/graphics.rs:70-72 | one in-place conditional swap is `Step` |
| Graphics.GraphicsState.FillHalf | src/graphics.rs:78-99 | a row loop leaves the buffers exactly as `FillRows` through its end row |
| Graphics.GraphicsState.DrawRow | src/graphics.rs:80-87 | one pass of a row loop extends the rows drawn so far by row y |
| Graphics.GraphicsState.DrawModel | src/graphics.rs:30-40 | the buffers end exactly as `ModelFrame` of their old contents; the model is not changed |
| Graphics.GraphicsState.TransformAll | src/graphics.rs:31-35 | the in-place loop over the copy gives `Transformed` of the vertices |

## Left out

- src/main.rs is not part of this model: the SDL window, the event loop, `draw_pixel` and
  the frame timing. Only its `WIDTH` and `HEIGHT` are used.
- The file read at the start of `load_obj`: `LoadObj` takes the lines that `str::lines`
  yields.
- The f32 parse of a vertex coordinate is the parameter `parseReal`: a partial function
  from token to real.
- `Vertex`, `Vec3f` and `Mat4` are not defined in the modelled files.
  - A vertex is modelled by its position alone.
  - The matrix product in `draw_model` is an arbitrary function `transform` on positions.
- `toDCoords` is declared on `Point2D`, but `draw_tri` passes it a position and reads a
  third component back. `Project` maps x and y and carries z through unchanged.
- The colour interpolation `Vec3f::lerp(c1, c2, inter)` in `draw_scanline` is not
  modelled, since its result is never used. `DrawScanline` keeps the two colour
  parameters.
- f32 arithmetic is exact real arithmetic. Rounding error and overflow to infinity are
  not modelled.
  - Division by zero is modelled: an edge of zero height, or a span of zero width, gives
    a signed infinity. Each division site is shown never to compute 0/0.
  - The one NaN the source can produce is `midV` when all three projected rows coincide.
    The source's bottom loop then calls `draw_scanline` with a NaN edge.
    `NaN as i32` is 0, so the column range `min..0` is empty and nothing is drawn.
  - `TriFrame`, and `DrawTri` with it, skip the bottom loop in that case instead of
    computing with NaN.
- Point.Div: a zero component of the divisor, which gives an IEEE infinity in the source,
  is excluded by a precondition.
- Point.Shrink: a zero scalar, which gives an IEEE infinity in the source, is excluded by a
  precondition.
- Mesh.FaceIndex: `0 - 1` on `usize` is modelled as the panic of a debug build. A release
  build would wrap around to usize::MAX.
- Mesh.ParseUsize assumes a 64-bit `usize`.
- Graphics.GraphicsState.DrawScanline and `Raster.Scanline` require the row to lie in
  [0, HEIGHT). `draw_scanline` is public and takes any `i32` row. With a row outside the
  display and a non-empty column range, its buffer index is out of bounds and it panics.
  That panic is not modelled. Both calls in `draw_tri` pass rows in range (`RowInRange`).
- Graphics.GraphicsState.DrawModel requires every face index to be below the vertex
  count. An index out of range panics in the source, and that panic is not modelled.
- `GraphicsState` borrows its buffers for a lifetime. The class holds the two arrays
  given to its constructor; the borrow and its lifetime are not modelled.
- A `load_obj` panic is returned as a `Failure`. The `expect` on a file that cannot be
  read is part of the left-out file read.
