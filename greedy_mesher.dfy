/**
 * GreedyMesher itself: a class whose only state is the mesh it appends
 * to, the six sweeps as one method parametrised by direction, and each
 * sweep's per-slice work on two boolean masks held in arrays. Every
 * method is proved to do exactly what the functions of Sweep and
 * GreedyScan describe.
 */
module Mesher {
  import opened Geometry
  import opened Voxel
  import opened Emit
  import opened GreedyScan
  import opened Sweep

  /** The `uncovered` and `inAQuad` arrays agree with the slice's grid and with the cells already in a quad. */
  ghost predicate MasksMatch(g: Grid, uncovered: array2<bool>, inAQuad: array2<bool>, used: set<Cell>)
    requires g.Valid()
    reads uncovered, inAQuad
  {
    && uncovered.Length0 == g.rows && uncovered.Length1 == g.cols
    && inAQuad.Length0 == g.rows && inAQuad.Length1 == g.cols
    && (forall i, j :: 0 <= i < g.rows && 0 <= j < g.cols ==> uncovered[i, j] == g.exposed[i][j])
    && (forall i, j :: 0 <= i < g.rows && 0 <= j < g.cols ==> (inAQuad[i, j] <==> (i, j) in used))
  }

  /** g is a slice's grid as far as the growth loops look at it: its size and the block type behind each face. */
  ghost predicate TypesMatch(sl: Slice, g: Grid) {
    && sl.Valid() && g.Valid() && g.rows == sl.Rows() && g.cols == sl.Cols()
    && forall i, j :: sl.InMask(i, j) ==> g.types[i][j] == TypeAt(sl, i, j)
  }

  /** The first nested loop of a sweep: mark every exposed face of the slice in a fresh mask. */
  method FillUncovered(sl: Slice) returns (uncovered: array2<bool>)
    requires sl.Valid()
    ensures fresh(uncovered)
    ensures uncovered.Length0 == sl.Rows() && uncovered.Length1 == sl.Cols()
    ensures forall i, j :: sl.InMask(i, j) ==> uncovered[i, j] == Exposed(sl, i, j)
  {
    uncovered := new bool[sl.Rows(), sl.Cols()]((_, _) => false);
    var r := 0;
    while r < sl.Rows()
      invariant 0 <= r <= sl.Rows()
      invariant forall i, j :: sl.InMask(i, j) ==> uncovered[i, j] == (i < r && Exposed(sl, i, j))
    {
      var c := 0;
      while c < sl.Cols()
        invariant 0 <= c <= sl.Cols()
        invariant forall i, j :: sl.InMask(i, j) ==>
          uncovered[i, j] == ((i < r || (i == r && j < c)) && Exposed(sl, i, j))
      {
        if Exposed(sl, r, c) {
          uncovered[r, c] := true;
        }
        c := c + 1;
      }
      r := r + 1;
    }
  }

  /**
   * The expandV loop: starting from height 1, grow while the next face up
   * the V axis is in the slice, uncovered, not in a quad and of type t.
   */
  method GrowAlongV(sl: Slice, ghost g: Grid, uncovered: array2<bool>, inAQuad: array2<bool>, ghost used: set<Cell>,
                    r: int, c: int, t: BlockType) returns (v: int)
    requires TypesMatch(sl, g) && sl.InMask(r, c)
    requires MasksMatch(g, uncovered, inAQuad, used)
    ensures v == GrowV(g, used, r, c, t, 1)
  {
    v := 1;
    var expandV := true;
    while expandV
      invariant 1 <= v && r + v <= g.rows
      invariant GrowV(g, used, r, c, t, v) == GrowV(g, used, r, c, t, 1)
      invariant !expandV ==> v == GrowV(g, used, r, c, t, 1)
      decreases g.rows - v, expandV
    {
      CellTest(sl, g, uncovered, inAQuad, used, r + v, c, t);
      if r + v < sl.Rows() && uncovered[r + v, c] && !inAQuad[r + v, c] && TypeAt(sl, r + v, c) == t {
        v := v + 1;
        continue;
      }
      expandV := false;
    }
  }

  /** The growth loops' test on the two masks is the free-cell test of the scan. */
  lemma CellTest(sl: Slice, g: Grid, uncovered: array2<bool>, inAQuad: array2<bool>, used: set<Cell>,
                 i: int, j: int, t: BlockType)
    requires TypesMatch(sl, g) && 0 <= i && 0 <= j
    requires MasksMatch(g, uncovered, inAQuad, used)
    ensures CellFree(g, used, i, j, t) <==>
      i < sl.Rows() && j < sl.Cols() && uncovered[i, j] && !inAQuad[i, j] && TypeAt(sl, i, j) == t
  {
  }

  /**
   * The inner for loop of expandU: whether every face of column col over
   * rows r .. r+v-1 is in the slice, uncovered, not in a quad and of
   * type t; it stops at the first face that is not.
   */
  method ColumnOpen(sl: Slice, ghost g: Grid, uncovered: array2<bool>, inAQuad: array2<bool>, ghost used: set<Cell>,
                    r: int, col: int, v: int, t: BlockType) returns (open: bool)
    requires TypesMatch(sl, g) && 0 <= r && 1 <= v && r + v <= sl.Rows() && 0 <= col
    requires MasksMatch(g, uncovered, inAQuad, used)
    ensures open == ColumnFree(g, used, r, col, v, t)
  {
    open := true;
    for i := 0 to v
      invariant 0 < i ==> col < g.cols
      invariant forall k :: r <= k < r + i ==> CellFree(g, used, k, col, t)
    {
      CellTest(sl, g, uncovered, inAQuad, used, r + i, col, t);
      if col < sl.Cols() && r + i < sl.Rows() && uncovered[r + i, col] && !inAQuad[r + i, col]
        && TypeAt(sl, r + i, col) == t
      {
        continue;
      }
      open := false;
      break;
    }
  }

  /**
   * The expandU loop: starting from width 1, grow while the whole V span
   * of the next column is open.
   */
  method GrowAlongU(sl: Slice, ghost g: Grid, uncovered: array2<bool>, inAQuad: array2<bool>, ghost used: set<Cell>,
                    r: int, c: int, v: int, t: BlockType) returns (u: int)
    requires TypesMatch(sl, g) && sl.InMask(r, c) && 1 <= v && r + v <= sl.Rows()
    requires MasksMatch(g, uncovered, inAQuad, used)
    ensures u == GrowU(g, used, r, c, v, t, 1)
  {
    u := 1;
    var expandU := true;
    while expandU
      invariant 1 <= u && c + u <= g.cols
      invariant GrowU(g, used, r, c, v, t, u) == GrowU(g, used, r, c, v, t, 1)
      invariant !expandU ==> u == GrowU(g, used, r, c, v, t, 1)
      decreases g.cols - u, expandU
    {
      expandU := ColumnOpen(sl, g, uncovered, inAQuad, used, r, c + u, v, t);
      if expandU {
        u := u + 1;
      }
    }
  }

  /** Mark the faces of the rectangle rows r .. r+v-1, columns c .. c+u-1 as in a quad. */
  method MarkQuad(inAQuad: array2<bool>, r: int, c: int, v: int, u: int)
    requires 0 <= r && 0 <= v && r + v <= inAQuad.Length0
    requires 0 <= c && 0 <= u && c + u <= inAQuad.Length1
    modifies inAQuad
    ensures forall i, j :: 0 <= i < inAQuad.Length0 && 0 <= j < inAQuad.Length1 ==>
      inAQuad[i, j] == (old(inAQuad[i, j]) || (r <= i < r + v && c <= j < c + u))
  {
    var i := 0;
    while i < v
      invariant 0 <= i <= v
      invariant forall a, b :: 0 <= a < inAQuad.Length0 && 0 <= b < inAQuad.Length1 ==>
        inAQuad[a, b] == (old(inAQuad[a, b]) || (r <= a < r + i && c <= b < c + u))
    {
      var j := 0;
      while j < u
        invariant 0 <= j <= u
        invariant forall a, b :: 0 <= a < inAQuad.Length0 && 0 <= b < inAQuad.Length1 ==>
          inAQuad[a, b] == (old(inAQuad[a, b]) || (r <= a < r + i && c <= b < c + u)
                                                || (a == r + i && c <= b < c + j))
      {
        inAQuad[r + i, c + j] := true;
        j := j + 1;
      }
      i := i + 1;
    }
  }

  /** Appending slice s's faces after those of slices 0 .. s-1. */
  lemma SweepStep(m0: Mesh, off: Vec3, ch: Chunk, d: Dir, s: int, m: Mesh, m': Mesh)
    requires ch.WellFormed() && 0 <= s < Depth(ch, d)
    requires m == AppendFaces(m0, off, Flatten(SweepSlices(ch, d)[..s]))
    requires m' == AppendFaces(m, off, SliceFaces(Slice(ch, d, s)))
    ensures m' == AppendFaces(m0, off, Flatten(SweepSlices(ch, d)[..s + 1]))
  {
    var parts := SweepSlices(ch, d);
    FlattenStep(parts, s);
    AppendFacesConcat(m0, off, Flatten(parts[..s]), parts[s]);
  }

  /** All slices of a sweep are its faces. */
  lemma SweepAll(ch: Chunk, d: Dir)
    requires ch.WellFormed()
    ensures Flatten(SweepSlices(ch, d)[..Depth(ch, d)]) == SweepFaces(ch, d)
  {
    var parts := SweepSlices(ch, d);
    assert parts[..Depth(ch, d)] == parts;
  }

  /** Moving an emitted rectangle from the pending scan to the emitted prefix. */
  lemma SnocCons(a: seq<Rect>, q: Rect, b: seq<Rect>)
    ensures a + [q] + b == a + ([q] + b)
  {
  }

  class GreedyMesher {
    /** The mesh every call appends to; it is created empty and never cleared. */
    var mesh: Mesh

    constructor()
      ensures mesh == Mesh([], [])
    {
      mesh := Mesh([], []);
    }

    /**
     * Run the six sweeps in the order NX, PX, PY, NY, NZ, PZ and return the
     * mesh. The chunk's faces are appended after whatever earlier calls
     * left in the mesh.
     */
    method GenerateMesh(chunk: Chunk) returns (m: Mesh)
      requires chunk.WellFormed()
      modifies this
      ensures mesh == AppendFaces(old(mesh), Offset(chunk), ChunkFaces(chunk))
      ensures m == mesh
    {
      ghost var m0, off := mesh, Offset(chunk);
      SweepDir(chunk, NX);
      SweepDir(chunk, PX);
      SweepDir(chunk, PY);
      SweepDir(chunk, NY);
      SweepDir(chunk, NZ);
      SweepDir(chunk, PZ);
      ghost var f1, f2, f3 := SweepFaces(chunk, NX), SweepFaces(chunk, PX), SweepFaces(chunk, PY);
      ghost var f4, f5, f6 := SweepFaces(chunk, NY), SweepFaces(chunk, NZ), SweepFaces(chunk, PZ);
      AppendFacesConcat(m0, off, f1, f2);
      AppendFacesConcat(m0, off, f1 + f2, f3);
      AppendFacesConcat(m0, off, f1 + f2 + f3, f4);
      AppendFacesConcat(m0, off, f1 + f2 + f3 + f4, f5);
      AppendFacesConcat(m0, off, f1 + f2 + f3 + f4 + f5, f6);
      m := mesh;
    }

    /** One of greedyNX .. greedyPZ: sweep the slices along the direction's axis, first to last. */
    method SweepDir(chunk: Chunk, d: Dir)
      requires chunk.WellFormed()
      modifies this
      ensures mesh == AppendFaces(old(mesh), Offset(chunk), SweepFaces(chunk, d))
    {
      var s := 0;
      while s < Depth(chunk, d)
        invariant 0 <= s <= Depth(chunk, d)
        invariant mesh == AppendFaces(old(mesh), Offset(chunk), Flatten(SweepSlices(chunk, d)[..s]))
      {
        ghost var m := mesh;
        SweepSlice(Slice(chunk, d, s));
        SweepStep(old(mesh), Offset(chunk), chunk, d, s, m, mesh);
        s := s + 1;
      }
      SweepAll(chunk, d);
    }

    /**
     * One slice of a sweep: fill `uncovered`, then scan the mask in
     * row-major order, growing and emitting a quad from every uncovered
     * face not yet in one.
     */
    method SweepSlice(sl: Slice)
      requires sl.Valid()
      modifies this
      ensures mesh == AppendFaces(old(mesh), Offset(sl.ch), SliceFaces(sl))
    {
      ghost var g, off := SliceGrid(sl), Offset(sl.ch);
      assert TypesMatch(sl, g);
      var uncovered := FillUncovered(sl);
      var inAQuad := new bool[sl.Rows(), sl.Cols()]((_, _) => false);
      ghost var used: set<Cell> := {};
      ghost var emitted: seq<Rect> := [];
      var r := 0;
      while r < sl.Rows()
        invariant 0 <= r <= sl.Rows() && uncovered != inAQuad
        invariant MasksMatch(g, uncovered, inAQuad, used)
        invariant emitted + Scan(g, used, r, 0) == SliceRects(sl)
        invariant mesh == AppendFaces(old(mesh), off, FacesOf(sl.d, sl.s, emitted))
      {
        var c := 0;
        while c < sl.Cols()
          invariant 0 <= c <= sl.Cols()
          invariant MasksMatch(g, uncovered, inAQuad, used)
          invariant emitted + Scan(g, used, r, c) == SliceRects(sl)
          invariant mesh == AppendFaces(old(mesh), off, FacesOf(sl.d, sl.s, emitted))
        {
          if inAQuad[r, c] || !uncovered[r, c] {
            ScanSkips(g, used, r, c);
            c := c + 1;
            continue;
          }
          ghost var q := QuadAt(sl, g, uncovered, inAQuad, used, r, c);
          ghost var rest := Scan(g, used + RectCells(q), r, c + 1);
          ScanSeeds(g, used, r, c);
          SnocCons(emitted, q, rest);
          used := used + RectCells(q);
          FacesOfSnoc(sl.d, sl.s, emitted, q);
          AppendFacesSnoc(old(mesh), off, FacesOf(sl.d, sl.s, emitted), RectFace(sl.d, sl.s, q));
          emitted := emitted + [q];
          c := c + 1;
        }
        ScanWraps(g, used, r);
        r := r + 1;
      }
      assert Scan(g, used, r, 0) == [];
      assert emitted == SliceRects(sl);
    }

    /**
     * The body of the scan for an uncovered face not yet in a quad: grow
     * along V, then along U, mark the rectangle in `inAQuad` and emit its
     * quad with the seed block's type.
     */
    method QuadAt(sl: Slice, ghost g: Grid, uncovered: array2<bool>, inAQuad: array2<bool>, ghost used: set<Cell>,
                  r: int, c: int) returns (ghost q: Rect)
      requires TypesMatch(sl, g) && sl.InMask(r, c) && uncovered != inAQuad
      requires MasksMatch(g, uncovered, inAQuad, used)
      requires uncovered[r, c] && !inAQuad[r, c]
      modifies this, inAQuad
      ensures q == Seed(g, used, r, c)
      ensures MasksMatch(g, uncovered, inAQuad, used + RectCells(q))
      ensures mesh == WithQuad(old(mesh), Offset(sl.ch), RectQuad(sl.d, sl.s, q), TypeId(q.blockType))
    {
      var neededType := TypeAt(sl, r, c);
      var v := GrowAlongV(sl, g, uncovered, inAQuad, used, r, c, neededType);
      var u := GrowAlongU(sl, g, uncovered, inAQuad, used, r, c, v, neededType);
      q := Rect(r, c, v, u, neededType);
      MarkQuad(inAQuad, r, c, v, u);
      var quad := Quad(Start(sl.d, sl.s, r, c), DirU(sl.d), DirV(sl.d), Normal(sl.d), u, v);
      EmitQuad(sl.ch, quad, TypeId(neededType));
    }

    /** Append the quad's four corners and its two triangles to the mesh. */
    method EmitQuad(chunk: Chunk, quad: Quad, t: int)
      modifies this
      ensures mesh == WithQuad(old(mesh), Offset(chunk), quad, t)
    {
      var offset := Vec3(chunk.pos.x, 0, chunk.pos.y);
      var pos0 := quad.start;
      var pos1 := quad.start.Add(quad.dirU.Scale(quad.sizeU));
      var pos2 := quad.start.Add(quad.dirU.Scale(quad.sizeU)).Add(quad.dirV.Scale(quad.sizeV));
      var pos3 := quad.start.Add(quad.dirV.Scale(quad.sizeV));
      pos0 := pos0.Add(offset);
      pos1 := pos1.Add(offset);
      pos2 := pos2.Add(offset);
      pos3 := pos3.Add(offset);
      var v0 := Vertex(pos0, quad.normal, Vec2(0, 0), t);
      var v1 := Vertex(pos1, quad.normal, Vec2(quad.sizeU, 0), t);
      var v2 := Vertex(pos2, quad.normal, Vec2(quad.sizeU, quad.sizeV), t);
      var v3 := Vertex(pos3, quad.normal, Vec2(0, quad.sizeV), t);

      var baseIndex := |mesh.vertices|;
      mesh := mesh.(vertices := mesh.vertices + [v0]);
      mesh := mesh.(vertices := mesh.vertices + [v1]);
      mesh := mesh.(vertices := mesh.vertices + [v2]);
      mesh := mesh.(vertices := mesh.vertices + [v3]);

      mesh := mesh.(indices := mesh.indices + [baseIndex + 0]);
      mesh := mesh.(indices := mesh.indices + [baseIndex + 1]);
      mesh := mesh.(indices := mesh.indices + [baseIndex + 2]);

      mesh := mesh.(indices := mesh.indices + [baseIndex + 0]);
      mesh := mesh.(indices := mesh.indices + [baseIndex + 2]);
      mesh := mesh.(indices := mesh.indices + [baseIndex + 3]);
    }
  }
}
