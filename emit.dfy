/**
 * What GreedyMesher.EmitQuad appends to the mesh for one quad, and what a
 * sequence of such appends builds.
 */
module Emit {
  import opened Geometry
  import opened Voxel

  /** A quad together with the material id its four vertices carry. */
  datatype Face = Face(quad: Quad, typeId: int)

  /** The world offset added to every vertex: the chunk's XZ position, at height 0. */
  function Offset(ch: Chunk): Vec3 {
    Vec3(ch.pos.x, 0, ch.pos.y)
  }

  /**
   * The four corners of a quad, in the order start, start+U, start+U+V,
   * start+V. Each corner's uv is its coordinates along the quad's U and V
   * axes, so uvs span [0,sizeU] x [0,sizeV] and a texture tiles once per block.
   */
  function QuadVertices(off: Vec3, q: Quad, t: int): (vs: seq<Vertex>)
    ensures |vs| == 4
    ensures vs[0].uv == Vec2(0, 0) && vs[1].uv == Vec2(q.sizeU, 0)
    ensures vs[2].uv == Vec2(q.sizeU, q.sizeV) && vs[3].uv == Vec2(0, q.sizeV)
    ensures forall k :: 0 <= k < 4 ==>
      vs[k].pos == off.Add(q.start).Add(q.dirU.Scale(vs[k].uv.x)).Add(q.dirV.Scale(vs[k].uv.y))
    ensures forall k :: 0 <= k < 4 ==> vs[k].normal == q.normal && vs[k].typeId == t
  {
    var p0 := q.start;
    var p1 := q.start.Add(q.dirU.Scale(q.sizeU));
    var p2 := q.start.Add(q.dirU.Scale(q.sizeU)).Add(q.dirV.Scale(q.sizeV));
    var p3 := q.start.Add(q.dirV.Scale(q.sizeV));
    [ Vertex(p0.Add(off), q.normal, Vec2(0, 0), t),
      Vertex(p1.Add(off), q.normal, Vec2(q.sizeU, 0), t),
      Vertex(p2.Add(off), q.normal, Vec2(q.sizeU, q.sizeV), t),
      Vertex(p3.Add(off), q.normal, Vec2(0, q.sizeV), t) ]
  }

  /** The index pattern of one quad whose first vertex has index b: triangles (b,b+1,b+2) and (b,b+2,b+3). */
  function QuadIndices(b: int): seq<int> {
    [b + 0, b + 1, b + 2, b + 0, b + 2, b + 3]
  }

  /**
   * Every index names an existing vertex, and vertices and indices come in
   * whole quads (4 vertices per 6 indices).
   */
  ghost predicate WellIndexed(m: Mesh) {
    && |m.vertices| % 4 == 0
    && 2 * |m.indices| == 3 * |m.vertices|
    && forall k :: 0 <= k < |m.indices| ==> 0 <= m.indices[k] < |m.vertices|
  }

  /** The mesh after EmitQuad: four vertices and six indices appended, nothing else changed. */
  function WithQuad(m: Mesh, off: Vec3, q: Quad, t: int): (m': Mesh)
    ensures |m'.vertices| == |m.vertices| + 4 && m'.vertices[..|m.vertices|] == m.vertices
    ensures |m'.indices| == |m.indices| + 6 && m'.indices[..|m.indices|] == m.indices
    ensures forall k :: |m.indices| <= k < |m'.indices| ==> |m.vertices| <= m'.indices[k] < |m'.vertices|
    ensures WellIndexed(m) ==> WellIndexed(m')
  {
    Mesh(m.vertices + QuadVertices(off, q, t), m.indices + QuadIndices(|m.vertices|))
  }

  /** The mesh after emitting the faces fs in order. */
  function AppendFaces(m: Mesh, off: Vec3, fs: seq<Face>): Mesh
    decreases |fs|
  {
    if fs == [] then m
    else
      var last := fs[|fs| - 1];
      WithQuad(AppendFaces(m, off, fs[..|fs| - 1]), off, last.quad, last.typeId)
  }

  /**
   * Emitting fs appends exactly 4 vertices and 6 indices per face, keeps
   * what was there, and keeps the mesh well indexed.
   */
  lemma {:induction false} AppendFacesSizes(m: Mesh, off: Vec3, fs: seq<Face>)
    ensures var m' := AppendFaces(m, off, fs);
      && |m'.vertices| == |m.vertices| + 4 * |fs|
      && |m'.indices| == |m.indices| + 6 * |fs|
      && m'.vertices[..|m.vertices|] == m.vertices
      && m'.indices[..|m.indices|] == m.indices
      && (WellIndexed(m) ==> WellIndexed(m'))
    decreases |fs|
  {
    if fs != [] {
      var init := fs[..|fs| - 1];
      AppendFacesSizes(m, off, init);
      var mi := AppendFaces(m, off, init);
      var m' := AppendFaces(m, off, fs);
      assert m'.vertices[..|mi.vertices|] == mi.vertices;
      assert m'.indices[..|mi.indices|] == mi.indices;
      assert m'.vertices[..|m.vertices|] == mi.vertices[..|m.vertices|];
      assert m'.indices[..|m.indices|] == mi.indices[..|m.indices|];
    }
  }

  /**
   * Output order is emission order: face k's corners are the k-th block of
   * four new vertices.
   */
  lemma {:induction false} AppendFacesVertexSlot(m: Mesh, off: Vec3, fs: seq<Face>, k: nat)
    requires k < |fs|
    ensures var m' := AppendFaces(m, off, fs);
      && |m.vertices| + 4 * k + 4 <= |m'.vertices|
      && m'.vertices[|m.vertices| + 4 * k .. |m.vertices| + 4 * k + 4]
           == QuadVertices(off, fs[k].quad, fs[k].typeId)
    decreases |fs|
  {
    var init, last := fs[..|fs| - 1], fs[|fs| - 1];
    AppendFacesSizes(m, off, init);
    var mi := AppendFaces(m, off, init);
    var vs := AppendFaces(m, off, fs).vertices;
    assert vs == mi.vertices + QuadVertices(off, last.quad, last.typeId);
    var v0 := |m.vertices| + 4 * k;
    if k < |init| {
      AppendFacesVertexSlot(m, off, init, k);
      assert fs[k] == init[k];
      assert vs[v0 .. v0 + 4] == mi.vertices[v0 .. v0 + 4];
    } else {
      assert v0 == |mi.vertices|;
    }
  }

  /** Face k's index pattern is the k-th block of six new indices and names face k's vertices. */
  lemma {:induction false} AppendFacesIndexSlot(m: Mesh, off: Vec3, fs: seq<Face>, k: nat)
    requires k < |fs|
    ensures var m' := AppendFaces(m, off, fs);
      && |m.indices| + 6 * k + 6 <= |m'.indices|
      && m'.indices[|m.indices| + 6 * k .. |m.indices| + 6 * k + 6]
           == QuadIndices(|m.vertices| + 4 * k)
    decreases |fs|
  {
    var init, last := fs[..|fs| - 1], fs[|fs| - 1];
    AppendFacesSizes(m, off, init);
    var mi := AppendFaces(m, off, init);
    var ixs := AppendFaces(m, off, fs).indices;
    assert ixs == mi.indices + QuadIndices(|mi.vertices|);
    var i0 := |m.indices| + 6 * k;
    if k < |init| {
      AppendFacesIndexSlot(m, off, init, k);
      assert ixs[i0 .. i0 + 6] == mi.indices[i0 .. i0 + 6];
    } else {
      assert i0 == |mi.indices|;
    }
  }

  /** Emitting one more face is one more EmitQuad on the mesh built so far. */
  lemma AppendFacesSnoc(m: Mesh, off: Vec3, fs: seq<Face>, f: Face)
    ensures AppendFaces(m, off, fs + [f]) == WithQuad(AppendFaces(m, off, fs), off, f.quad, f.typeId)
  {
    assert (fs + [f])[..|fs|] == fs;
  }

  /** Emitting a + b is emitting a, then b. */
  lemma {:induction false} AppendFacesConcat(m: Mesh, off: Vec3, a: seq<Face>, b: seq<Face>)
    ensures AppendFaces(m, off, a + b) == AppendFaces(AppendFaces(m, off, a), off, b)
    decreases |b|
  {
    if b == [] {
      assert a + b == a;
    } else {
      assert (a + b)[..|a + b| - 1] == a + b[..|b| - 1];
      AppendFacesConcat(m, off, a, b[..|b| - 1]);
    }
  }

  /**
   * The invariants of a mesh built from scratch: the index count is a
   * multiple of 3, there are 6 indices per 4 vertices, and every index
   * names an existing vertex.
   */
  lemma FreshMeshValid(off: Vec3, fs: seq<Face>)
    ensures var m := AppendFaces(Mesh([], []), off, fs);
      && |m.vertices| == 4 * |fs|
      && |m.indices| % 3 == 0
      && |m.indices| * 4 == |m.vertices| * 6
      && forall k :: 0 <= k < |m.indices| ==> 0 <= m.indices[k] < |m.vertices|
  {
    AppendFacesSizes(Mesh([], []), off, fs);
  }
}
