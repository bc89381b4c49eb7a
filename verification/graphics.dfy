/**
 * `GraphicsState`: the colour buffer and the depth buffer the rasterizer draws into,
 * updated in place. Every drawing method is proved to leave the buffers exactly as the
 * matching function of `Raster` says, so the properties proved there hold of them.
 */
module Graphics {
  import opened Numeric
  import opened Screen
  import opened Vectors
  import opened Mesh
  import opened Raster

  class GraphicsState {
    /** The colour of each pixel, row-major. */
    const d: array<Rgb>
    /** The depth of each pixel; a larger value wins the depth test. */
    const depthBuffer: array<real>

    ghost predicate Valid() {
      d.Length == BUFFER_SIZE && depthBuffer.Length == BUFFER_SIZE
    }

    /** The current contents of both buffers. */
    function Snapshot(): (fr: Frame)
      reads d, depthBuffer
      ensures Valid() ==> ValidFrame(fr)
    {
      Frame(d[..], depthBuffer[..])
    }

    /** A state drawing into two borrowed buffers of `BUFFER_SIZE` entries each. */
    constructor (d: array<Rgb>, depthBuffer: array<real>)
      requires d.Length == BUFFER_SIZE && depthBuffer.Length == BUFFER_SIZE
      ensures Valid() && this.d == d && this.depthBuffer == depthBuffer
    {
      this.d := d;
      this.depthBuffer := depthBuffer;
    }

    /** `clear_display`: every pixel gets colour (r, g, b); the depths stay. */
    method ClearDisplay(r: u8, g: u8, b: u8)
      requires Valid()
      modifies d
      ensures forall i :: 0 <= i < BUFFER_SIZE ==> d[i] == Rgb(r, g, b)
      ensures depthBuffer[..] == old(depthBuffer[..])
    {
      forall i | 0 <= i < d.Length {
        d[i] := Rgb(r, g, b);
      }
    }

    /** `clear_depth_buffer`: every pixel gets depth `value`; the colours stay. */
    method ClearDepthBuffer(value: real)
      requires Valid()
      modifies depthBuffer
      ensures forall i :: 0 <= i < BUFFER_SIZE ==> depthBuffer[i] == value
      ensures d[..] == old(d[..])
    {
      forall i | 0 <= i < depthBuffer.Length {
        depthBuffer[i] := value;
      }
    }

    /**
     * `draw_scanline`: over the clamped column range, interpolate the depth, and where it
     * passes the depth test write its grey and the depth. The colours c1 and c2 feed an
     * interpolation whose result is never used.
     */
    method DrawScanline(a: real, b: real, aZ: real, bZ: real, y: int, c1: Vec3, c2: Vec3)
      requires Valid() && 0 <= y < HEIGHT
      modifies d, depthBuffer
      ensures Snapshot() == Scanline(old(Snapshot()), Stroke(a, b, aZ, bZ, y))
    {
      ghost var fr := Snapshot();
      ghost var s := Stroke(a, b, aZ, bZ, y);
      var cols := ColumnRange(a, b);
      var x := cols.lo;
      while x < cols.hi
        invariant cols.lo <= x && (x <= cols.hi || x == cols.lo)
        invariant Snapshot() == ScanColumns(fr, s, x)
        decreases cols.hi - x
      {
        ColumnInSpan(a, b, x);
        var inter := Divide(x as real - a, b - a);
        var z := Point.LerpAt(aZ, bZ, inter);
        var i := Index(x, y);
        NextColumn(fr, s, x);
        if !(z < depthBuffer[i]) {
          d[i] := Shade(z);
          depthBuffer[i] := z;
        }
        x := x + 1;
      }
    }

    /**
     * `draw_tri`: cull a back-facing triangle, sort the projected corners by row, then
     * draw the rows of the top half and of the bottom half. When all three rows coincide
     * the bottom half is skipped (see `TriFrame`).
     */
    method DrawTri(a: Vertex, b: Vertex, c: Vertex)
      requires Valid()
      modifies d, depthBuffer
      ensures Snapshot() == TriFrame(old(Snapshot()), a, b, c)
    {
      if Winding(a.p, b.p, c.p) < 0.0 {
        return;
      }
      var list := SortCorners(Project(a.p), Project(b.p), Project(c.p));
      FillHalf(Top, list);
      if list[0].y != list[2].y {
        FillHalf(Bottom, list);
      }
    }

    /** The three conditional swaps of `draw_tri`, on a local array of the projected corners. */
    static method SortCorners(p0: Vec3, p1: Vec3, p2: Vec3) returns (sorted: seq<Vec3>)
      ensures sorted == SortByRow([p0, p1, p2])
    {
      var list := new Vec3[3];
      list[0], list[1], list[2] := p0, p1, p2;
      assert list[..] == [p0, p1, p2];
      SwapIfBelow(list, 0, 1);
      SwapIfBelow(list, 0, 2);
      SwapIfBelow(list, 1, 2);
      sorted := list[..];
    }

    /** `if list[i][1] > list[j][1] { list.swap(i, j); }` */
    static method SwapIfBelow(list: array<Vec3>, i: nat, j: nat)
      requires i < j < list.Length == 3
      modifies list
      ensures list[..] == Step(old(list[..]), i, j)
    {
      if list[i].y > list[j].y {
        list[i], list[j] := list[j], list[i];
      }
    }

    /** One row loop of `draw_tri`: a scanline for each row of half h, top to bottom. */
    method FillHalf(h: Half, list: seq<Vec3>)
      requires Valid() && RowSorted(list)
      requires h == Bottom ==> list[0].y != list[2].y
      modifies d, depthBuffer
      ensures Snapshot() == FillRows(old(Snapshot()), h, list, RowEnd(h, list))
    {
      ghost var start := Snapshot();
      var y, end := RowStart(h, list), RowEnd(h, list);
      while y < end
        invariant RowStart(h, list) <= y && (y <= end || y == RowStart(h, list))
        invariant Snapshot() == FillRows(start, h, list, y)
        decreases end - y
      {
        DrawRow(h, list, y, start);
        y := y + 1;
      }
    }

    /**
     * The body of a row loop: the edge positions and depths of row y, then its scanline,
     * which extends the rows drawn since `start` by row y.
     */
    method DrawRow(h: Half, list: seq<Vec3>, y: int, ghost start: Frame)
      requires Valid() && RowSorted(list) && RowStart(h, list) <= y < RowEnd(h, list)
      requires h == Bottom ==> list[0].y != list[2].y
      requires ValidFrame(start) && Snapshot() == FillRows(start, h, list, y)
      modifies d, depthBuffer
      ensures Snapshot() == FillRows(start, h, list, y + 1)
    {
      var s := RowStroke(h, list, y);
      RowInRange(h, list, y);
      DrawScanline(s.a, s.b, s.aZ, s.bZ, y, Vec3(0.0, 0.0, 0.0), Vec3(1.0, 1.0, 1.0));
      NextRow(start, h, list, y);
    }

    /**
     * `draw_model`: transform a copy of the vertices, then draw the faces in order. The
     * model itself is a value and is left as it was.
     */
    method DrawModel(model: Model, transform: Vec3 -> Vec3)
      requires Valid() && FacesInBounds(model.verts, model.faces)
      modifies d, depthBuffer
      ensures Snapshot() == ModelFrame(old(Snapshot()), model, transform)
    {
      var projVert := TransformAll(model.verts, transform);
      ghost var start := Snapshot();
      for k := 0 to |model.faces|
        invariant FacesInBounds(projVert, model.faces[..k])
        invariant Snapshot() == FacesFrame(start, projVert, model.faces[..k])
      {
        var f := model.faces[k];
        NextFace(start, projVert, model.faces, k);
        DrawTri(projVert[f.0], projVert[f.1], projVert[f.2]);
      }
      assert model.faces[..|model.faces|] == model.faces;
    }

    /** The first loop of `draw_model`: a clone of the vertices, each position transformed in place. */
    static method TransformAll(verts: seq<Vertex>, transform: Vec3 -> Vec3) returns (projVert: seq<Vertex>)
      ensures projVert == Transformed(verts, transform)
    {
      projVert := verts;
      for k := 0 to |projVert|
        invariant |projVert| == |verts|
        invariant forall j :: 0 <= j < k ==> projVert[j] == Vertex(transform(verts[j].p))
        invariant forall j :: k <= j < |projVert| ==> projVert[j] == verts[j]
      {
        projVert := projVert[k := projVert[k].(p := transform(projVert[k].p))];
      }
    }
  }
}
