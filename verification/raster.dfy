/**
 * What each drawing operation of `GraphicsState` does to the two buffers, stated as
 * functions on a snapshot of them (a `Frame`), and the properties of those functions:
 * every write stays inside the buffers and inside the triangle's bounding box, no
 * depth ever decreases, every written pixel holds the grey of its depth, and a
 * back-facing triangle writes nothing.
 */
module Raster {
  import opened Wrappers
  import opened Numeric
  import opened Screen
  import Point
  import opened Vectors
  import opened Mesh

  const BUFFER_SIZE: int := WIDTH * HEIGHT
  /** The tolerance that widens every column and row range, against seams between triangles. */
  const EPS: real := 0.45

  datatype Rgb = Rgb(r: u8, g: u8, b: u8)

  /** The colour `draw_scanline` writes with depth z: every channel `(z / 2 * 255) as u8`. */
  function Shade(z: real): (c: Rgb)
    ensures c.r == c.g == c.b
    ensures z <= 0.0 ==> c == Rgb(0, 0, 0)
    ensures z >= 2.0 ==> c == Rgb(255, 255, 255)
  {
    var v := AsU8(z / 2.0 * 255.0);
    Rgb(v, v, v)
  }

  /** A larger depth, the one that wins the depth test, never gives a darker grey. */
  lemma ShadeMonotone(z1: real, z2: real)
    requires z1 <= z2
    ensures Shade(z1).r <= Shade(z2).r
  {
    var t1, t2 := z1 / 2.0 * 255.0, z2 / 2.0 * 255.0;
    assert t1 <= t2;
    if 0.0 <= t1 && t2 < 256.0 {
      assert Trunc(t1) <= Trunc(t2);
    }
  }

  // ------------------------------------------------------------------ buffers

  /** The contents of the colour buffer `d` and of `depth_buffer`, row-major. */
  datatype Frame = Frame(d: seq<Rgb>, depth: seq<real>)

  predicate ValidFrame(fr: Frame) {
    |fr.d| == BUFFER_SIZE && |fr.depth| == BUFFER_SIZE
  }

  /** One pixel: its colour and its depth. */
  datatype Pixel = Pixel(c: Rgb, z: real)

  function At(fr: Frame, i: int): Pixel
    requires ValidFrame(fr) && 0 <= i < BUFFER_SIZE
  {
    Pixel(fr.d[i], fr.depth[i])
  }

  /** The pixel index of column x in row y. */
  function Index(x: int, y: int): (i: int)
    requires 0 <= x < WIDTH && 0 <= y < HEIGHT
    ensures 0 <= i < BUFFER_SIZE
    ensures i / WIDTH == y && i % WIDTH == x
  {
    y * WIDTH + x
  }

  /**
   * The depth test and write of one fragment: a fragment less deep than the stored
   * depth is discarded, any other replaces the depth and gets the grey of its depth.
   */
  function Plot(p: Pixel, frag: Option<real>): (r: Pixel)
    ensures frag.None? ==> r == p
    ensures frag.Some? ==> r.z == Max(p.z, frag.value)
    ensures frag.Some? && frag.value < p.z ==> r == p
    ensures frag.Some? && frag.value >= p.z ==> r == Pixel(Shade(frag.value), frag.value)
    ensures r == p || r == Pixel(Shade(r.z), r.z)
  {
    match frag
    case None => p
    case Some(z) => if z < p.z then p else Pixel(Shade(z), z)
  }

  /** The deeper of two optional fragments: the one that would win the depth test. */
  function Deeper(f: Option<real>, g: Option<real>): (h: Option<real>)
    ensures h.None? <==> f.None? && g.None?
    ensures h.Some? ==> (h == f || h == g)
    ensures f.Some? ==> h.Some? && h.value >= f.value
    ensures g.Some? ==> h.Some? && h.value >= g.value
  {
    match f
    case None => g
    case Some(x) =>
      match g
      case None => f
      case Some(y) => if x <= y then g else f
  }

  /**
   * Two fragments plotted one after the other leave the pixel as the deeper of them alone
   * would: the depth test keeps the larger depth, and the grey follows the depth.
   */
  lemma PlotMerge(p: Pixel, f: Option<real>, g: Option<real>)
    ensures Plot(Plot(p, f), g) == Plot(p, Deeper(f, g))
  {
    if f.Some? && g.Some? && f.value < p.z && g.value < p.z {
      assert Plot(p, Deeper(f, g)) == p;
    }
  }

  /** Plotting the same fragment twice is plotting it once. */
  lemma PlotTwice(p: Pixel, f: Option<real>)
    ensures Plot(Plot(p, f), f) == Plot(p, f)
  {
    PlotMerge(p, f, f);
  }

  /** Two fragments give the same pixel in either order. */
  lemma PlotCommutes(p: Pixel, f: Option<real>, g: Option<real>)
    ensures Plot(Plot(p, f), g) == Plot(Plot(p, g), f)
  {
    PlotMerge(p, f, g);
    PlotMerge(p, g, f);
    if f.Some? && g.Some? && f.value == g.value {
      assert Deeper(f, g) == Deeper(g, f);
    }
  }

  // ------------------------------------------------------------------ scanlines

  /** The columns `min..max` of `draw_scanline`, after clamping to the row. */
  datatype Columns = Columns(lo: int, hi: int)

  function ColumnRange(a: real, b: real): (cols: Columns)
    ensures 0 <= cols.lo && cols.hi <= WIDTH
  {
    var lo := RoundToI32(Min(a, b) - EPS);
    var hi := RoundToI32(Max(a, b) + EPS);
    Columns(MaxInt(lo, 0), MinInt(hi, WIDTH))
  }

  /** Every column of the range lies within EPS + 1/2 left of the span and 1/2 - EPS inside its right end. */
  lemma ColumnInSpan(a: real, b: real, x: int)
    requires ColumnRange(a, b).lo <= x < ColumnRange(a, b).hi
    ensures Min(a, b) - 0.95 <= x as real <= Max(a, b) - 0.05
  {
  }

  /** Every column of the row that is at least 0.05 inside the span belongs to the range. */
  lemma ColumnRangeCovers(a: real, b: real, x: int)
    requires 0 <= x < WIDTH && Min(a, b) + 0.05 <= x as real < Max(a, b) - 0.05
    ensures ColumnRange(a, b).lo <= x < ColumnRange(a, b).hi
  {
  }

  /** The arguments of one `draw_scanline` call (its two colours are never used). */
  datatype Stroke = Stroke(a: real, b: real, aZ: real, bZ: real, y: int)

  /**
   * The depth `lerp(aZ, bZ, (x - a) / (b - a))` at column x. When a == b the column lies
   * strictly left of a, so the quotient is -inf rather than NaN.
   */
  function ColumnDepth(s: Stroke, x: int): (z: real)
    requires ColumnRange(s.a, s.b).lo <= x < ColumnRange(s.a, s.b).hi
    ensures Min(s.aZ, s.bZ) <= z <= Max(s.aZ, s.bZ)
  {
    ColumnInSpan(s.a, s.b, x);
    Point.LerpAt(s.aZ, s.bZ, Divide(x as real - s.a, s.b - s.a))
  }

  /** The fragment stroke s lays on pixel i, if any. */
  function Fragment(s: Stroke, i: int): (f: Option<real>)
    requires 0 <= i < BUFFER_SIZE
    ensures f.Some? ==> i / WIDTH == s.y && Min(s.aZ, s.bZ) <= f.value <= Max(s.aZ, s.bZ)
    ensures f.Some? ==> Min(s.a, s.b) - 0.95 <= (i % WIDTH) as real <= Max(s.a, s.b) - 0.05
  {
    var cols := ColumnRange(s.a, s.b);
    if i / WIDTH == s.y && cols.lo <= i % WIDTH < cols.hi then
      ColumnInSpan(s.a, s.b, i % WIDTH);
      Some(ColumnDepth(s, i % WIDTH))
    else
      None
  }

  /** The depth test and write of depth z at pixel i. */
  function PlotAt(fr: Frame, i: int, z: real): (r: Frame)
    requires ValidFrame(fr) && 0 <= i < BUFFER_SIZE
    ensures ValidFrame(r)
  {
    var p := Plot(At(fr, i), Some(z));
    Frame(fr.d[i := p.c], fr.depth[i := p.z])
  }

  /**
   * The frame after the column loop of `draw_scanline` has visited the columns of its
   * range up to, not including, x. A range whose start is past its end visits nothing.
   */
  function ScanColumns(fr: Frame, s: Stroke, x: int): (r: Frame)
    requires ValidFrame(fr) && 0 <= s.y < HEIGHT
    requires ColumnRange(s.a, s.b).lo <= x && (x <= ColumnRange(s.a, s.b).hi || x == ColumnRange(s.a, s.b).lo)
    ensures ValidFrame(r)
    decreases x - ColumnRange(s.a, s.b).lo, 0
  {
    if x <= ColumnRange(s.a, s.b).lo then fr else ColumnDrawn(fr, s, x - 1)
  }

  /** The frame once column x of the stroke has been plotted after the columns before it. */
  function ColumnDrawn(fr: Frame, s: Stroke, x: int): (r: Frame)
    requires ValidFrame(fr) && 0 <= s.y < HEIGHT
    requires ColumnRange(s.a, s.b).lo <= x < ColumnRange(s.a, s.b).hi
    ensures ValidFrame(r)
    decreases x - ColumnRange(s.a, s.b).lo, 1
  {
    PlotAt(ScanColumns(fr, s, x), Index(x, s.y), ColumnDepth(s, x))
  }

  /** Plotting column x after the columns before it is plotting the columns up to x + 1. */
  lemma NextColumn(fr: Frame, s: Stroke, x: int)
    requires ValidFrame(fr) && 0 <= s.y < HEIGHT
    requires ColumnRange(s.a, s.b).lo <= x < ColumnRange(s.a, s.b).hi
    ensures ScanColumns(fr, s, x + 1) == PlotAt(ScanColumns(fr, s, x), Index(x, s.y), ColumnDepth(s, x))
  {
    assert ScanColumns(fr, s, x + 1) == ColumnDrawn(fr, s, x);
  }

  /** `draw_scanline`: the whole column range of the stroke's row. */
  function Scanline(fr: Frame, s: Stroke): (r: Frame)
    requires ValidFrame(fr) && 0 <= s.y < HEIGHT
    ensures ValidFrame(r)
  {
    var cols := ColumnRange(s.a, s.b);
    ScanColumns(fr, s, MaxInt(cols.lo, cols.hi))
  }

  /** Every pixel index is the index of its own column and row. */
  lemma IndexOfPixel(i: int)
    requires 0 <= i < BUFFER_SIZE
    ensures 0 <= i % WIDTH < WIDTH && 0 <= i / WIDTH < HEIGHT
    ensures Index(i % WIDTH, i / WIDTH) == i
  {
  }

  /** After the columns before x, a visited pixel has plotted its fragment and every other pixel is as it was. */
  lemma {:induction false} ScanColumnsAt(fr: Frame, s: Stroke, x: int, i: int)
    requires ValidFrame(fr) && 0 <= s.y < HEIGHT
    requires ColumnRange(s.a, s.b).lo <= x && (x <= ColumnRange(s.a, s.b).hi || x == ColumnRange(s.a, s.b).lo)
    requires 0 <= i < BUFFER_SIZE
    ensures At(ScanColumns(fr, s, x), i) ==
      if i / WIDTH == s.y && i % WIDTH < x then Plot(At(fr, i), Fragment(s, i)) else At(fr, i)
    decreases x - ColumnRange(s.a, s.b).lo
  {
    if x > ColumnRange(s.a, s.b).lo {
      NextColumn(fr, s, x - 1);
      ScanColumnsAt(fr, s, x - 1, i);
      IndexOfPixel(i);
    }
  }

  /**
   * One scanline plots, at every pixel, the fragment the stroke lays there: the pixels of
   * its row and column range, and no other.
   */
  lemma ScanlineAt(fr: Frame, s: Stroke, i: int)
    requires ValidFrame(fr) && 0 <= s.y < HEIGHT && 0 <= i < BUFFER_SIZE
    ensures At(Scanline(fr, s), i) == Plot(At(fr, i), Fragment(s, i))
  {
    var cols := ColumnRange(s.a, s.b);
    ScanColumnsAt(fr, s, MaxInt(cols.lo, cols.hi), i);
  }

  /**
   * What one scanline changes: only pixels of its row and column range, never lowering
   * a depth; a changed pixel holds a depth between aZ and bZ and the grey of that depth.
   */
  lemma ScanlineEffect(fr: Frame, s: Stroke, i: int)
    requires ValidFrame(fr) && 0 <= s.y < HEIGHT && 0 <= i < BUFFER_SIZE
    ensures Scanline(fr, s).depth[i] >= fr.depth[i]
    ensures At(Scanline(fr, s), i) != At(fr, i) ==>
      && i / WIDTH == s.y
      && ColumnRange(s.a, s.b).lo <= i % WIDTH < ColumnRange(s.a, s.b).hi
      && Min(s.aZ, s.bZ) <= Scanline(fr, s).depth[i] <= Max(s.aZ, s.bZ)
      && Scanline(fr, s).d[i] == Shade(Scanline(fr, s).depth[i])
  {
    ScanlineAt(fr, s, i);
  }

  /** A pixel of the range whose fragment is at least as deep as the stored depth is written. */
  lemma ScanlineWrites(fr: Frame, s: Stroke, x: int)
    requires ValidFrame(fr) && 0 <= s.y < HEIGHT
    requires ColumnRange(s.a, s.b).lo <= x < ColumnRange(s.a, s.b).hi
    requires ColumnDepth(s, x) >= fr.depth[Index(x, s.y)]
    ensures At(Scanline(fr, s), Index(x, s.y)) == Pixel(Shade(ColumnDepth(s, x)), ColumnDepth(s, x))
  {
    ScanlineAt(fr, s, Index(x, s.y));
  }

  // ------------------------------------------------------------------ triangles

  /** The display position of a vertex: `toDCoords` on x and y, the depth z carried along. */
  function Project(p: Vec3): (q: Vec3)
    ensures q.z == p.z
    ensures Point.Point2D(q.x, q.y) == Point.ToDCoords(Point.Point2D(p.x, p.y))
  {
    var d := Point.ToDCoords(Point.Point2D(p.x, p.y));
    Vec3(d.x, d.y, p.z)
  }

  predicate RowSorted(list: seq<Vec3>) {
    |list| == 3 && list[0].y <= list[1].y <= list[2].y
  }

  /**
   * One conditional swap of `draw_tri`: when `list[i]` lies below `list[j]` the two
   * change places; the third point stays.
   */
  function Step(list: seq<Vec3>, i: nat, j: nat): (r: seq<Vec3>)
    requires i < j < |list| == 3
    ensures |r| == 3 && r[i].y <= r[j].y && r[i].y == Min(list[i].y, list[j].y)
    ensures forall k :: 0 <= k < 3 && k != i && k != j ==> r[k] == list[k]
    ensures multiset(r) == multiset(list)
  {
    if list[i].y > list[j].y then list[i := list[j]][j := list[i]] else list
  }

  /**
   * The three conditional swaps of `draw_tri`: afterwards the rows are in order and the
   * list holds the same three points.
   */
  function SortByRow(list: seq<Vec3>): (r: seq<Vec3>)
    requires |list| == 3
    ensures RowSorted(r)
    ensures multiset(r) == multiset(list)
  {
    var l1 := Step(list, 0, 1);
    var l2 := Step(l1, 0, 2);
    assert l2[1] == l1[1];
    var r := Step(l2, 1, 2);
    assert r[0] == l2[0];
    r
  }

  /** `(t - EPS).round().max(0.0) as i32`: the first row of a row loop. */
  function FirstRow(t: real): (y: int)
    ensures 0 <= y
    ensures y <= HEIGHT ==> t - 0.95 <= y as real
  {
    Saturate(MaxInt(Round(t - EPS), 0), I32_MIN, I32_MAX)
  }

  /** `(t + EPS).round().min(HEIGHT as f32) as i32`: the end of a row loop. */
  function EndRow(t: real): (y: int)
    ensures y <= HEIGHT
    ensures 0 <= y ==> y as real <= t + 0.95
  {
    Saturate(MinInt(Round(t + EPS), HEIGHT), I32_MIN, I32_MAX)
  }

  /** The two row loops of `draw_tri`: from the top vertex to the middle one, then to the bottom one. */
  datatype Half = Top | Bottom

  /** The first row of loop h: at most EPS + 1/2 above the loop's upper corner, and never above the display. */
  function RowStart(h: Half, list: seq<Vec3>): (y: int)
    requires |list| == 3
    ensures 0 <= y
    ensures y <= HEIGHT ==> (if h == Top then list[0].y else list[1].y) - 0.95 <= y as real
  {
    if h == Top then FirstRow(list[0].y) else FirstRow(list[1].y)
  }

  /** The end of loop h: at most EPS + 1/2 below the loop's lower corner, and never below the display. */
  function RowEnd(h: Half, list: seq<Vec3>): (y: int)
    requires |list| == 3
    ensures y <= HEIGHT
    ensures 0 <= y ==> y as real <= (if h == Top then list[1].y else list[2].y) + 0.95
  {
    if h == Top then EndRow(list[1].y) else EndRow(list[2].y)
  }

  /** Every row of a loop lies within EPS + 1/2 of its vertices' rows and strictly above the last. */
  lemma RowInRange(h: Half, list: seq<Vec3>, y: int)
    requires RowSorted(list) && RowStart(h, list) <= y < RowEnd(h, list)
    ensures 0 <= y < HEIGHT
    ensures list[0].y - 0.95 <= y as real <= list[2].y - 0.05
    ensures h == Top ==> y as real < list[1].y
    ensures y as real < list[2].y
  {
  }

  /** Every display row at least 0.05 inside a loop's two corner rows is visited by that loop. */
  lemma RowRangeCovers(h: Half, list: seq<Vec3>, y: int)
    requires |list| == 3 && 0 <= y < HEIGHT
    requires (if h == Top then list[0].y else list[1].y) + 0.05 <= y as real
    requires y as real <= (if h == Top then list[1].y else list[2].y) - 0.05
    ensures RowStart(h, list) <= y < RowEnd(h, list)
  {
  }

  /**
   * `midV`, `mid` and `midZ`: where the long edge crosses the middle vertex's row. When
   * all three rows coincide `midV` is 0/0 (NaN); that case never reaches this function.
   */
  function Split(list: seq<Vec3>): (m: (real, real))
    requires RowSorted(list) && list[0].y != list[2].y
    ensures Min(list[0].x, list[2].x) <= m.0 <= Max(list[0].x, list[2].x)
    ensures Min(list[0].z, list[2].z) <= m.1 <= Max(list[0].z, list[2].z)
  {
    var midV := (list[1].y - list[0].y) / (list[2].y - list[0].y);
    (Point.Lerp(list[0].x, list[2].x, midV), Point.Lerp(list[0].z, list[2].z, midV))
  }

  function MinX(list: seq<Vec3>): real requires |list| == 3 { Min(list[0].x, Min(list[1].x, list[2].x)) }
  function MaxX(list: seq<Vec3>): real requires |list| == 3 { Max(list[0].x, Max(list[1].x, list[2].x)) }
  function MinZ(list: seq<Vec3>): real requires |list| == 3 { Min(list[0].z, Min(list[1].z, list[2].z)) }
  function MaxZ(list: seq<Vec3>): real requires |list| == 3 { Max(list[0].z, Max(list[1].z, list[2].z)) }

  /** Point p lies in the box spanned by the x and z coordinates of the three corners. */
  predicate InCornerBox(p: Vec3, list: seq<Vec3>)
    requires |list| == 3
  {
    MinX(list) <= p.x <= MaxX(list) && MinZ(list) <= p.z <= MaxZ(list)
  }

  /** A triangle edge walked downwards, from the row of `from` to the row of `to`. */
  datatype Edge = Edge(from: Vec3, to: Vec3)

  /**
   * `v_a` / `v_b`: row y's fraction of the edge's height. Rows are visited strictly above
   * `to`, so a flat edge gives -inf rather than 0/0.
   */
  function EdgeFraction(e: Edge, y: int): (q: Quot)
    requires y as real < e.to.y
    ensures q.Finite? <==> e.from.y != e.to.y
  {
    Divide(y as real - e.from.y, e.to.y - e.from.y)
  }

  /** The two edges of loop h: the long edge and the upper short one, then the lower short edge and the rest of the long one. */
  function Edges(h: Half, list: seq<Vec3>): (edges: (Edge, Edge))
    requires RowSorted(list) && (h == Bottom ==> list[0].y != list[2].y)
    ensures edges.0.to == list[2] && edges.1.to == (if h == Top then list[1] else list[2])
    ensures InCornerBox(edges.0.from, list) && InCornerBox(edges.0.to, list)
    ensures InCornerBox(edges.1.from, list) && InCornerBox(edges.1.to, list)
  {
    if h == Top then (Edge(list[0], list[2]), Edge(list[0], list[1]))
    else
      var (mid, midZ) := Split(list);
      (Edge(list[1], list[2]), Edge(Vec3(mid, list[1].y, midZ), list[2]))
  }

  /**
   * The `draw_scanline` call of row y in loop h: on each edge, the position and the depth
   * are a clamped `lerp` by the row's fraction of that edge.
   */
  function RowStroke(h: Half, list: seq<Vec3>, y: int): (s: Stroke)
    requires RowSorted(list) && RowStart(h, list) <= y < RowEnd(h, list)
    requires h == Bottom ==> list[0].y != list[2].y
    ensures s.y == y
    ensures MinX(list) <= s.a <= MaxX(list) && MinX(list) <= s.b <= MaxX(list)
    ensures MinZ(list) <= s.aZ <= MaxZ(list) && MinZ(list) <= s.bZ <= MaxZ(list)
  {
    RowInRange(h, list, y);
    var (ea, eb) := Edges(h, list);
    var vA := EdgeFraction(ea, y);
    var vB := EdgeFraction(eb, y);
    Stroke(Point.LerpAt(ea.from.x, ea.to.x, vA), Point.LerpAt(eb.from.x, eb.to.x, vB),
           Point.LerpAt(ea.from.z, ea.to.z, vA), Point.LerpAt(eb.from.z, eb.to.z, vB), y)
  }

  /** Pixel i lies in the triangle's bounding box, widened by the rounding tolerance. */
  predicate InBox(i: int, list: seq<Vec3>)
    requires |list| == 3
  {
    && MinX(list) - 0.95 <= (i % WIDTH) as real <= MaxX(list) - 0.05
    && list[0].y - 0.95 <= (i / WIDTH) as real <= list[2].y - 0.05
  }

  /** Pixel i of `r` differs from `fr` only as a triangle of corners `list` may change it. */
  predicate Painted(fr: Frame, r: Frame, i: int, list: seq<Vec3>)
    requires ValidFrame(fr) && ValidFrame(r) && 0 <= i < BUFFER_SIZE && |list| == 3
  {
    && r.depth[i] >= fr.depth[i]
    && (At(r, i) != At(fr, i) ==>
          && InBox(i, list)
          && MinZ(list) <= r.depth[i] <= MaxZ(list)
          && r.d[i] == Shade(r.depth[i]))
  }

  /**
   * The frame after loop h has drawn its rows up to, not including, y. A loop whose
   * first row is past its end draws nothing, as an empty Rust range does.
   */
  function FillRows(fr: Frame, h: Half, list: seq<Vec3>, y: int): (r: Frame)
    requires ValidFrame(fr) && RowSorted(list) && (y <= RowStart(h, list) || y <= RowEnd(h, list))
    requires h == Bottom ==> list[0].y != list[2].y
    ensures ValidFrame(r)
    decreases y - RowStart(h, list), 0
  {
    if y <= RowStart(h, list) then fr else RowDrawn(fr, h, list, y - 1)
  }

  /** The frame once loop h has drawn row y after the rows before it. */
  function RowDrawn(fr: Frame, h: Half, list: seq<Vec3>, y: int): (r: Frame)
    requires ValidFrame(fr) && RowSorted(list) && RowStart(h, list) <= y < RowEnd(h, list)
    requires h == Bottom ==> list[0].y != list[2].y
    ensures ValidFrame(r)
    decreases y - RowStart(h, list), 1
  {
    RowInRange(h, list, y);
    Scanline(FillRows(fr, h, list, y), RowStroke(h, list, y))
  }

  /** Whatever rows of a half are drawn, every pixel is painted as the triangle may paint it. */
  lemma {:induction false} FillRowsPainted(fr: Frame, h: Half, list: seq<Vec3>, y: int)
    requires ValidFrame(fr) && RowSorted(list) && (y <= RowStart(h, list) || y <= RowEnd(h, list))
    requires h == Bottom ==> list[0].y != list[2].y
    ensures forall i :: 0 <= i < BUFFER_SIZE ==> Painted(fr, FillRows(fr, h, list, y), i, list)
    decreases y - RowStart(h, list)
  {
    if y > RowStart(h, list) {
      var prev := FillRows(fr, h, list, y - 1);
      NextRow(fr, h, list, y - 1);
      FillRowsPainted(fr, h, list, y - 1);
      RowPainted(prev, h, list, y - 1);
      PaintedTwice(fr, prev, FillRows(fr, h, list, y), list);
    }
  }

  /** Drawing row y after the rows before it is drawing the rows up to y + 1. */
  lemma NextRow(fr: Frame, h: Half, list: seq<Vec3>, y: int)
    requires ValidFrame(fr) && RowSorted(list) && RowStart(h, list) <= y < RowEnd(h, list)
    requires h == Bottom ==> list[0].y != list[2].y
    ensures 0 <= y < HEIGHT
    ensures FillRows(fr, h, list, y + 1) == Scanline(FillRows(fr, h, list, y), RowStroke(h, list, y))
  {
    RowInRange(h, list, y);
  }

  /** The scanline of one row of loop h paints as the triangle may. */
  lemma RowPainted(fr: Frame, h: Half, list: seq<Vec3>, y: int)
    requires ValidFrame(fr) && RowSorted(list) && RowStart(h, list) <= y < RowEnd(h, list)
    requires h == Bottom ==> list[0].y != list[2].y
    ensures 0 <= y < HEIGHT
    ensures forall i :: 0 <= i < BUFFER_SIZE ==> Painted(fr, Scanline(fr, RowStroke(h, list, y)), i, list)
  {
    RowInRange(h, list, y);
    forall i | 0 <= i < BUFFER_SIZE
      ensures Painted(fr, Scanline(fr, RowStroke(h, list, y)), i, list)
    {
      RowPaintedAt(fr, h, list, y, i);
    }
  }

  lemma RowPaintedAt(fr: Frame, h: Half, list: seq<Vec3>, y: int, i: int)
    requires ValidFrame(fr) && RowSorted(list) && RowStart(h, list) <= y < RowEnd(h, list)
    requires h == Bottom ==> list[0].y != list[2].y
    requires 0 <= i < BUFFER_SIZE
    ensures 0 <= y < HEIGHT
    ensures Painted(fr, Scanline(fr, RowStroke(h, list, y)), i, list)
  {
    RowInRange(h, list, y);
    var s := RowStroke(h, list, y);
    var r := Scanline(fr, s);
    ScanlineEffect(fr, s, i);
    if At(r, i) != At(fr, i) {
      RowInRange(h, list, y);
      ColumnInSpan(s.a, s.b, i % WIDTH);
      assert Min(s.a, s.b) >= MinX(list) && Max(s.a, s.b) <= MaxX(list);
      assert Min(s.aZ, s.bZ) >= MinZ(list) && Max(s.aZ, s.bZ) <= MaxZ(list);
    }
  }

  /** Painting is transitive: two paintings by the same triangle are one. */
  lemma PaintedTwice(fr: Frame, mid: Frame, r: Frame, list: seq<Vec3>)
    requires ValidFrame(fr) && ValidFrame(mid) && ValidFrame(r) && |list| == 3
    requires forall i :: 0 <= i < BUFFER_SIZE ==> Painted(fr, mid, i, list)
    requires forall i :: 0 <= i < BUFFER_SIZE ==> Painted(mid, r, i, list)
    ensures forall i :: 0 <= i < BUFFER_SIZE ==> Painted(fr, r, i, list)
  {
    forall i | 0 <= i < BUFFER_SIZE
      ensures Painted(fr, r, i, list)
    {
      assert Painted(fr, mid, i, list) && Painted(mid, r, i, list);
    }
  }

  /** `draw_tri` culls a triangle whose cross product has a negative z-component. */
  predicate Culled(a: Vertex, b: Vertex, c: Vertex)
    ensures Culled(a, b, c) ==> Winding(a.p, c.p, b.p) > 0.0 && Winding(b.p, c.p, a.p) < 0.0
    ensures a.p == b.p || b.p == c.p || c.p == a.p ==> !Culled(a, b, c)
  {
    Winding(a.p, b.p, c.p) < 0.0
  }

  /** The projected corners in row order, as `list` stands after the swaps. */
  function Corners(a: Vertex, b: Vertex, c: Vertex): (list: seq<Vec3>)
    ensures RowSorted(list)
    ensures multiset(list) == multiset{Project(a.p), Project(b.p), Project(c.p)}
  {
    SortByRow([Project(a.p), Project(b.p), Project(c.p)])
  }

  /**
   * `draw_tri`: nothing for a back-facing triangle; otherwise the top loop, then the
   * bottom loop. When all three rows coincide the source's bottom loop passes a NaN edge
   * to `draw_scanline`, whose column range `..NaN as i32` is then empty: it draws nothing.
   */
  function TriFrame(fr: Frame, a: Vertex, b: Vertex, c: Vertex): (r: Frame)
    requires ValidFrame(fr)
    ensures ValidFrame(r)
    ensures Culled(a, b, c) ==> r == fr
  {
    if Culled(a, b, c) then fr
    else
      var list := Corners(a, b, c);
      var top := FillRows(fr, Top, list, RowEnd(Top, list));
      if list[0].y == list[2].y then top
      else FillRows(top, Bottom, list, RowEnd(Bottom, list))
  }

  /**
   * A triangle changes only pixels of its bounding box (widened by the rounding
   * tolerance), never lowers a depth, writes depths between its corners' depths, and
   * gives every pixel it changes the grey of its new depth.
   */
  lemma TriFramePainted(fr: Frame, a: Vertex, b: Vertex, c: Vertex)
    requires ValidFrame(fr)
    ensures forall i :: 0 <= i < BUFFER_SIZE ==> Painted(fr, TriFrame(fr, a, b, c), i, Corners(a, b, c))
  {
    if !Culled(a, b, c) {
      var list := Corners(a, b, c);
      var top := FillRows(fr, Top, list, RowEnd(Top, list));
      FillRowsPainted(fr, Top, list, RowEnd(Top, list));
      if list[0].y != list[2].y {
        FillRowsPainted(top, Bottom, list, RowEnd(Bottom, list));
        PaintedTwice(fr, top, TriFrame(fr, a, b, c), list);
      }
    }
  }

  /**
   * The fragment loop h has laid on pixel i once its rows before y are drawn: the one of
   * the pixel's own row, if that row is among them. No other row reaches the pixel.
   */
  function RowFragment(h: Half, list: seq<Vec3>, y: int, i: int): (f: Option<real>)
    requires RowSorted(list) && (h == Bottom ==> list[0].y != list[2].y) && 0 <= i < BUFFER_SIZE
    ensures f.Some? ==> RowStart(h, list) <= i / WIDTH < y
  {
    var row := i / WIDTH;
    if RowStart(h, list) <= row < y && row < RowEnd(h, list) then Fragment(RowStroke(h, list, row), i) else None
  }

  /**
   * Plotting, after the fragments of the rows before y, the one row y lays on pixel i is
   * plotting the fragments of the rows up to y + 1.
   */
  lemma NextRowFragment(p: Pixel, h: Half, list: seq<Vec3>, y: int, i: int)
    requires RowSorted(list) && RowStart(h, list) <= y < RowEnd(h, list)
    requires h == Bottom ==> list[0].y != list[2].y
    requires 0 <= i < BUFFER_SIZE
    ensures Plot(Plot(p, RowFragment(h, list, y, i)), Fragment(RowStroke(h, list, y), i))
         == Plot(p, RowFragment(h, list, y + 1, i))
  {
    var here := Fragment(RowStroke(h, list, y), i);
    if i / WIDTH != y {
      assert here == None;
    }
    assert RowFragment(h, list, y + 1, i) == Deeper(RowFragment(h, list, y, i), here);
    PlotMerge(p, RowFragment(h, list, y, i), here);
  }

  /** At every pixel, drawing row y after the rows before it is one more depth test. */
  lemma RowDrawnAt(fr: Frame, h: Half, list: seq<Vec3>, y: int, i: int)
    requires ValidFrame(fr) && RowSorted(list) && RowStart(h, list) <= y < RowEnd(h, list)
    requires h == Bottom ==> list[0].y != list[2].y
    requires 0 <= i < BUFFER_SIZE
    ensures At(FillRows(fr, h, list, y + 1), i) == Plot(At(FillRows(fr, h, list, y), i), Fragment(RowStroke(h, list, y), i))
  {
    NextRow(fr, h, list, y);
    ScanlineAt(FillRows(fr, h, list, y), RowStroke(h, list, y), i);
  }

  /** At every pixel, a row loop is one depth test of the fragment its own row lays there. */
  lemma {:induction false} FillRowsAt(fr: Frame, h: Half, list: seq<Vec3>, y: int, i: int)
    requires ValidFrame(fr) && RowSorted(list) && (y <= RowStart(h, list) || y <= RowEnd(h, list))
    requires h == Bottom ==> list[0].y != list[2].y
    requires 0 <= i < BUFFER_SIZE
    ensures At(FillRows(fr, h, list, y), i) == Plot(At(fr, i), RowFragment(h, list, y, i))
    decreases y - RowStart(h, list)
  {
    if y > RowStart(h, list) {
      FillRowsAt(fr, h, list, y - 1, i);
      NextRowAt(fr, h, list, y, i);
    } else {
      assert RowFragment(h, list, y, i) == None;
    }
  }

  /** The step of FillRowsAt: what holds at pixel i before row y - 1 is drawn holds after it. */
  lemma NextRowAt(fr: Frame, h: Half, list: seq<Vec3>, y: int, i: int)
    requires ValidFrame(fr) && RowSorted(list) && RowStart(h, list) < y <= RowEnd(h, list)
    requires h == Bottom ==> list[0].y != list[2].y
    requires 0 <= i < BUFFER_SIZE
    requires At(FillRows(fr, h, list, y - 1), i) == Plot(At(fr, i), RowFragment(h, list, y - 1, i))
    ensures At(FillRows(fr, h, list, y), i) == Plot(At(fr, i), RowFragment(h, list, y, i))
  {
    RowDrawnAt(fr, h, list, y - 1, i);
    NextRowFragment(At(fr, i), h, list, y - 1, i);
  }

  /**
   * The one fragment a triangle amounts to at pixel i: none for a back-facing triangle,
   * otherwise the deeper of those its two loops lay there. It depends on the corners
   * alone, never on what the buffers hold.
   */
  function TriFragment(a: Vertex, b: Vertex, c: Vertex, i: int): (f: Option<real>)
    requires 0 <= i < BUFFER_SIZE
    ensures Culled(a, b, c) ==> f.None?
  {
    if Culled(a, b, c) then None
    else
      var list := Corners(a, b, c);
      var top := RowFragment(Top, list, RowEnd(Top, list), i);
      if list[0].y == list[2].y then top
      else Deeper(top, RowFragment(Bottom, list, RowEnd(Bottom, list), i))
  }

  /** At every pixel, drawing a triangle is one depth test of the triangle's fragment there. */
  lemma TriFrameAt(fr: Frame, a: Vertex, b: Vertex, c: Vertex, i: int)
    requires ValidFrame(fr) && 0 <= i < BUFFER_SIZE
    ensures At(TriFrame(fr, a, b, c), i) == Plot(At(fr, i), TriFragment(a, b, c, i))
  {
    if !Culled(a, b, c) {
      var list := Corners(a, b, c);
      var top := FillRows(fr, Top, list, RowEnd(Top, list));
      FillRowsAt(fr, Top, list, RowEnd(Top, list), i);
      if list[0].y != list[2].y {
        FillRowsAt(top, Bottom, list, RowEnd(Bottom, list), i);
        PlotMerge(At(fr, i), RowFragment(Top, list, RowEnd(Top, list), i),
          RowFragment(Bottom, list, RowEnd(Bottom, list), i));
      }
    }
  }

  /**
   * A front-facing triangle lays a fragment on every pixel its loops visit: row y of loop
   * h and a column of that row's range. The fragment is at least as deep as the row's
   * depth at that column, so at least the nearest corner's depth.
   */
  lemma TriCovers(a: Vertex, b: Vertex, c: Vertex, h: Half, x: int, y: int)
    requires !Culled(a, b, c)
    requires h == Bottom ==> Corners(a, b, c)[0].y != Corners(a, b, c)[2].y
    requires RowStart(h, Corners(a, b, c)) <= y < RowEnd(h, Corners(a, b, c))
    requires ColumnRange(RowStroke(h, Corners(a, b, c), y).a, RowStroke(h, Corners(a, b, c), y).b).lo <= x
    requires x < ColumnRange(RowStroke(h, Corners(a, b, c), y).a, RowStroke(h, Corners(a, b, c), y).b).hi
    ensures TriFragment(a, b, c, Index(x, y)).Some?
    ensures TriFragment(a, b, c, Index(x, y)).value >= ColumnDepth(RowStroke(h, Corners(a, b, c), y), x)
    ensures TriFragment(a, b, c, Index(x, y)).value >= MinZ(Corners(a, b, c))
  {
    var list := Corners(a, b, c);
    var i := Index(x, y);
    var s := RowStroke(h, list, y);
    assert Fragment(s, i) == Some(ColumnDepth(s, x));
    assert RowFragment(h, list, RowEnd(h, list), i) == Fragment(s, i);
  }

  /**
   * A front-facing triangle writes every pixel its loops visit whose stored depth lies
   * below all of its corners' depths: that pixel takes a larger depth, so the buffers change.
   */
  lemma TriWrites(fr: Frame, a: Vertex, b: Vertex, c: Vertex, h: Half, x: int, y: int)
    requires ValidFrame(fr) && !Culled(a, b, c)
    requires h == Bottom ==> Corners(a, b, c)[0].y != Corners(a, b, c)[2].y
    requires RowStart(h, Corners(a, b, c)) <= y < RowEnd(h, Corners(a, b, c))
    requires ColumnRange(RowStroke(h, Corners(a, b, c), y).a, RowStroke(h, Corners(a, b, c), y).b).lo <= x
    requires x < ColumnRange(RowStroke(h, Corners(a, b, c), y).a, RowStroke(h, Corners(a, b, c), y).b).hi
    requires fr.depth[Index(x, y)] < MinZ(Corners(a, b, c))
    ensures TriFrame(fr, a, b, c).depth[Index(x, y)] >= MinZ(Corners(a, b, c))
    ensures TriFrame(fr, a, b, c) != fr
  {
    var i := Index(x, y);
    TriCovers(a, b, c, h, x, y);
    TriFrameAt(fr, a, b, c, i);
  }

  /** Two frames that agree at every pixel are the same frame. */
  lemma SameFrame(r1: Frame, r2: Frame)
    requires ValidFrame(r1) && ValidFrame(r2)
    requires forall i :: 0 <= i < BUFFER_SIZE ==> At(r1, i) == At(r2, i)
    ensures r1 == r2
  {
    assert forall i :: 0 <= i < BUFFER_SIZE ==> r1.d[i] == r2.d[i] && r1.depth[i] == r2.depth[i] by {
      forall i | 0 <= i < BUFFER_SIZE
        ensures r1.d[i] == r2.d[i] && r1.depth[i] == r2.depth[i]
      {
        assert At(r1, i) == At(r2, i);
      }
    }
    assert r1.d == r2.d;
    assert r1.depth == r2.depth;
  }

  /** Drawing the same triangle twice leaves the buffers as drawing it once does. */
  lemma TriFrameIdempotent(fr: Frame, a: Vertex, b: Vertex, c: Vertex)
    requires ValidFrame(fr)
    ensures TriFrame(TriFrame(fr, a, b, c), a, b, c) == TriFrame(fr, a, b, c)
  {
    var once := TriFrame(fr, a, b, c);
    forall i | 0 <= i < BUFFER_SIZE
      ensures At(TriFrame(once, a, b, c), i) == At(once, i)
    {
      TriFrameAt(once, a, b, c, i);
      TriFrameAt(fr, a, b, c, i);
      PlotTwice(At(fr, i), TriFragment(a, b, c, i));
    }
    SameFrame(TriFrame(once, a, b, c), once);
  }

  /** Two triangles leave the same buffers whichever of them is drawn first. */
  lemma TriFramesCommute(fr: Frame, a: Vertex, b: Vertex, c: Vertex, a2: Vertex, b2: Vertex, c2: Vertex)
    requires ValidFrame(fr)
    ensures TriFrame(TriFrame(fr, a, b, c), a2, b2, c2) == TriFrame(TriFrame(fr, a2, b2, c2), a, b, c)
  {
    var one := TriFrame(fr, a, b, c);
    var two := TriFrame(fr, a2, b2, c2);
    forall i | 0 <= i < BUFFER_SIZE
      ensures At(TriFrame(one, a2, b2, c2), i) == At(TriFrame(two, a, b, c), i)
    {
      TriFrameAt(fr, a, b, c, i);
      TriFrameAt(fr, a2, b2, c2, i);
      TriFrameAt(one, a2, b2, c2, i);
      TriFrameAt(two, a, b, c, i);
      PlotCommutes(At(fr, i), TriFragment(a, b, c, i), TriFragment(a2, b2, c2, i));
    }
    SameFrame(TriFrame(one, a2, b2, c2), TriFrame(two, a, b, c));
  }

  // ------------------------------------------------------------------ models

  predicate FacesInBounds(verts: seq<Vertex>, faces: seq<Face>) {
    forall k :: 0 <= k < |faces| ==> faces[k].0 < |verts| && faces[k].1 < |verts| && faces[k].2 < |verts|
  }

  /** A pixel only changes by getting deeper, and then it holds the grey of its new depth. */
  predicate Deepened(fr: Frame, r: Frame, i: int)
    requires ValidFrame(fr) && ValidFrame(r) && 0 <= i < BUFFER_SIZE
  {
    r.depth[i] >= fr.depth[i] && (At(r, i) != At(fr, i) ==> r.d[i] == Shade(r.depth[i]))
  }

  /** The face loop of `draw_model`: each face, in order, drawn from the transformed vertices. */
  function FacesFrame(fr: Frame, verts: seq<Vertex>, faces: seq<Face>): (r: Frame)
    requires ValidFrame(fr) && FacesInBounds(verts, faces)
    ensures ValidFrame(r)
    decreases |faces|, 1
  {
    if faces == [] then fr else FaceDrawn(fr, verts, faces)
  }

  /** The frame once the last face has been drawn after the faces before it. */
  function FaceDrawn(fr: Frame, verts: seq<Vertex>, faces: seq<Face>): (r: Frame)
    requires ValidFrame(fr) && FacesInBounds(verts, faces) && faces != []
    ensures ValidFrame(r)
    decreases |faces|, 0
  {
    var f := faces[|faces| - 1];
    TriFrame(FacesFrame(fr, verts, faces[..|faces| - 1]), verts[f.0], verts[f.1], verts[f.2])
  }

  /** Drawing face k after the faces before it is drawing the first k + 1 faces. */
  lemma NextFace(fr: Frame, verts: seq<Vertex>, faces: seq<Face>, k: int)
    requires ValidFrame(fr) && FacesInBounds(verts, faces) && 0 <= k < |faces|
    ensures FacesInBounds(verts, faces[..k]) && FacesInBounds(verts, faces[..k + 1])
    ensures var f := faces[k];
      FacesFrame(fr, verts, faces[..k + 1]) == TriFrame(FacesFrame(fr, verts, faces[..k]), verts[f.0], verts[f.1], verts[f.2])
  {
    assert faces[..k + 1][..k] == faces[..k];
  }

  /** Across all faces, no depth decreases and every changed pixel holds the grey of its depth. */
  lemma {:induction false} FacesFrameDeepened(fr: Frame, verts: seq<Vertex>, faces: seq<Face>)
    requires ValidFrame(fr) && FacesInBounds(verts, faces)
    ensures forall i :: 0 <= i < BUFFER_SIZE ==> Deepened(fr, FacesFrame(fr, verts, faces), i)
    decreases |faces|
  {
    if faces != [] {
      var f := faces[|faces| - 1];
      var prev := FacesFrame(fr, verts, faces[..|faces| - 1]);
      var r := FacesFrame(fr, verts, faces);
      assert r == FaceDrawn(fr, verts, faces);
      FacesFrameDeepened(fr, verts, faces[..|faces| - 1]);
      TriFramePainted(prev, verts[f.0], verts[f.1], verts[f.2]);
      forall i | 0 <= i < BUFFER_SIZE
        ensures Deepened(fr, r, i)
      {
        assert Deepened(fr, prev, i);
        assert Painted(prev, r, i, Corners(verts[f.0], verts[f.1], verts[f.2]));
      }
    }
  }

  /** The clone of the vertices with every position transformed. */
  function Transformed(verts: seq<Vertex>, transform: Vec3 -> Vec3): (r: seq<Vertex>)
    ensures |r| == |verts|
    ensures forall k :: 0 <= k < |r| ==> r[k] == Vertex(transform(verts[k].p))
  {
    seq(|verts|, k requires 0 <= k < |verts| => Vertex(transform(verts[k].p)))
  }

  /** `draw_model`. */
  function ModelFrame(fr: Frame, model: Model, transform: Vec3 -> Vec3): (r: Frame)
    requires ValidFrame(fr) && FacesInBounds(model.verts, model.faces)
    ensures ValidFrame(r)
  {
    FacesFrame(fr, Transformed(model.verts, transform), model.faces)
  }

  /** A model whose every face is back-facing after the transform draws nothing. */
  lemma {:induction false} AllCulledDrawsNothing(fr: Frame, verts: seq<Vertex>, faces: seq<Face>)
    requires ValidFrame(fr) && FacesInBounds(verts, faces)
    requires forall k :: 0 <= k < |faces| ==> Culled(verts[faces[k].0], verts[faces[k].1], verts[faces[k].2])
    ensures FacesFrame(fr, verts, faces) == fr
    decreases |faces|
  {
    if faces != [] {
      AllCulledDrawsNothing(fr, verts, faces[..|faces| - 1]);
    }
  }
}
