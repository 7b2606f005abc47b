/**
 * The six greedy sweeps of GreedyMesher as functions: which block faces of
 * a slice are exposed, the quad each merged rectangle becomes, and the
 * faces a whole chunk yields, in the order GenerateMesh emits them.
 *
 * Every direction uses the same mask layout: mask row = the quad's V axis,
 * mask column = its U axis. For X faces the mask is [y, z], for Y faces
 * [z, x], for Z faces [y, x].
 */
module Sweep {
  import opened Geometry
  import opened Voxel
  import opened Emit
  import opened GreedyScan
  import opened GreedyScanLemmas

  /** The six sweeps, in the order GenerateMesh runs them. */
  datatype Dir = NX | PX | PY | NY | NZ | PZ {
    predicate IsY() { this == PY || this == NY }
    predicate IsPositive() { this == PX || this == PY || this == PZ }
  }

  function DirU(d: Dir): Vec3 {
    match d
    case NX | PX => Vec3(0, 0, 1)
    case PY | NY | NZ | PZ => Vec3(1, 0, 0)
  }

  function DirV(d: Dir): Vec3 {
    match d
    case NX | PX | NZ | PZ => Vec3(0, 1, 0)
    case PY | NY => Vec3(0, 0, 1)
  }

  /** The face normal: U x V for the sweeps that wind toward it, V x U for the others. */
  function Normal(d: Dir): Vec3 {
    match d
    case NX => Vec3(-1, 0, 0)
    case PX => Vec3(1, 0, 0)
    case PY => Vec3(0, 1, 0)
    case NY => Vec3(0, -1, 0)
    case NZ => Vec3(0, 0, -1)
    case PZ => Vec3(0, 0, 1)
  }

  /** The unit vector of the axis a sweep walks its slices along. */
  function SliceAxis(d: Dir): Vec3 {
    if d.IsPositive() then Normal(d) else Normal(d).Scale(-1)
  }

  /** Number of slices: X and Z sweeps walk ChunkSize slices, Y sweeps ChunkHeight. */
  function Depth(ch: Chunk, d: Dir): nat {
    if d.IsY() then ch.chunkHeight else ch.chunkSize
  }

  /** Mask rows (the V extent): ChunkHeight for X and Z faces, ChunkSize for Y faces. */
  function MaskRows(ch: Chunk, d: Dir): nat {
    if d.IsY() then ch.chunkSize else ch.chunkHeight
  }

  /**
   * The block at slice s, mask row r, mask column c: [x=s, y=r, z=c] for X
   * faces, [x=c, y=s, z=r] for Y faces, [x=c, y=r, z=s] for Z faces. Rows run
   * along V, columns along U and slices along the normal's axis.
   */
  function BlockPos(d: Dir, s: int, r: int, c: int): (p: Vec3)
    ensures p == SliceAxis(d).Scale(s).Add(DirV(d).Scale(r)).Add(DirU(d).Scale(c))
  {
    match d
    case NX | PX => Vec3(s, r, c)
    case PY | NY => Vec3(c, s, r)
    case NZ | PZ => Vec3(c, r, s)
  }

  /**
   * The quad origin for a rectangle seeded at (r, c) of slice s, as each
   * sweep writes it. It is the seed block's corner for negative faces and
   * that corner moved one step along the normal for positive faces.
   */
  function Start(d: Dir, s: int, r: int, c: int): (o: Vec3)
    ensures o == if d.IsPositive() then BlockPos(d, s, r, c).Add(Normal(d)) else BlockPos(d, s, r, c)
  {
    match d
    case NX => Vec3(s, r, c)
    case PX => Vec3(s + 1, r, c)
    case PY => Vec3(c, s + 1, r)
    case NY => Vec3(c, s, r)
    case NZ => Vec3(c, r, s)
    case PZ => Vec3(c, r, s + 1)
  }

  /** One slice of one sweep. */
  datatype Slice = Slice(ch: Chunk, d: Dir, s: int) {
    ghost predicate Valid() {
      ch.WellFormed() && 0 <= s < Depth(ch, d)
    }

    function Rows(): nat {
      MaskRows(ch, d)
    }

    function Cols(): nat {
      ch.chunkSize
    }

    predicate InMask(r: int, c: int) {
      0 <= r < Rows() && 0 <= c < Cols()
    }
  }

  /**
   * The `uncovered` mask: the block is active and its neighbour in the face
   * direction is outside the chunk or inactive; written with each sweep's
   * own boundary test.
   */
  predicate Exposed(sl: Slice, r: int, c: int)
    requires sl.Valid() && sl.InMask(r, c)
  {
    var ch, p := sl.ch, BlockPos(sl.d, sl.s, r, c);
    ch.BlockAt(p).active &&
    match sl.d
    case NX => p.x == 0 || !ch.BlockAt(Vec3(p.x - 1, p.y, p.z)).active
    case PX => p.x == ch.chunkSize - 1 || !ch.BlockAt(Vec3(p.x + 1, p.y, p.z)).active
    case PY => p.y == ch.chunkHeight - 1 || !ch.BlockAt(Vec3(p.x, p.y + 1, p.z)).active
    case NY => p.y == 0 || !ch.BlockAt(Vec3(p.x, p.y - 1, p.z)).active
    case NZ => p.z == 0 || !ch.BlockAt(Vec3(p.x, p.y, p.z - 1)).active
    case PZ => p.z == ch.chunkSize - 1 || !ch.BlockAt(Vec3(p.x, p.y, p.z + 1)).active
  }

  /**
   * The six boundary tests are one rule: a face is exposed iff its block is
   * active and the block one step along the face normal is not (a position
   * outside the chunk holds no active block).
   */
  lemma ExposedIffOpenNeighbour(sl: Slice, r: int, c: int)
    requires sl.Valid() && sl.InMask(r, c)
    ensures Exposed(sl, r, c) <==> var p := BlockPos(sl.d, sl.s, r, c);
      sl.ch.ActiveAt(p) && !sl.ch.ActiveAt(p.Add(Normal(sl.d)))
  {
  }

  function TypeAt(sl: Slice, r: int, c: int): BlockType
    requires sl.Valid() && sl.InMask(r, c)
  {
    sl.ch.BlockAt(BlockPos(sl.d, sl.s, r, c)).blockType
  }

  /** The two masks one slice's sweep works on: `uncovered` and the block type behind each face. */
  function SliceGrid(sl: Slice): (g: Grid)
    requires sl.Valid()
    ensures g.Valid() && g.rows == sl.Rows() && g.cols == sl.Cols()
    ensures forall r, c :: sl.InMask(r, c) ==> g.exposed[r][c] == Exposed(sl, r, c)
    ensures forall r, c :: sl.InMask(r, c) ==> g.types[r][c] == TypeAt(sl, r, c)
  {
    var rows, cols := sl.Rows(), sl.Cols();
    Grid(rows, cols,
      seq(rows, r requires 0 <= r < rows => seq(cols, c requires 0 <= c < cols => Exposed(sl, r, c))),
      seq(rows, r requires 0 <= r < rows => seq(cols, c requires 0 <= c < cols => TypeAt(sl, r, c))))
  }

  /** The rectangles one slice's sweep merges its exposed faces into, in emission order. */
  function SliceRects(sl: Slice): seq<Rect>
    requires sl.Valid()
  {
    GridRects(SliceGrid(sl))
  }

  /** The quad a rectangle of slice s becomes: seeded at its first cell, spanning sizeU along U and sizeV along V. */
  function RectQuad(d: Dir, s: int, q: Rect): Quad {
    Quad(Start(d, s, q.row, q.col), DirU(d), DirV(d), Normal(d), q.sizeU, q.sizeV)
  }

  /** The face EmitQuad receives for a rectangle: its quad and the seed block's type id. */
  function RectFace(d: Dir, s: int, q: Rect): Face {
    Face(RectQuad(d, s, q), TypeId(q.blockType))
  }

  function FacesOf(d: Dir, s: int, rs: seq<Rect>): (fs: seq<Face>)
    ensures |fs| == |rs|
    ensures forall k :: 0 <= k < |rs| ==> fs[k] == RectFace(d, s, rs[k])
  {
    seq(|rs|, k requires 0 <= k < |rs| => RectFace(d, s, rs[k]))
  }

  lemma FacesOfSnoc(d: Dir, s: int, rs: seq<Rect>, q: Rect)
    ensures FacesOf(d, s, rs + [q]) == FacesOf(d, s, rs) + [RectFace(d, s, q)]
  {
    assert FacesOf(d, s, rs + [q])[|rs|] == RectFace(d, s, q);
  }

  /** The faces one slice emits. */
  function SliceFaces(sl: Slice): seq<Face>
    requires sl.Valid()
  {
    FacesOf(sl.d, sl.s, SliceRects(sl))
  }

  /** The faces of each slice of one sweep, slice 0 first. */
  function SweepSlices(ch: Chunk, d: Dir): (parts: seq<seq<Face>>)
    requires ch.WellFormed()
    ensures |parts| == Depth(ch, d)
    ensures forall s :: 0 <= s < |parts| ==> parts[s] == SliceFaces(Slice(ch, d, s))
  {
    seq(Depth(ch, d), s requires 0 <= s < Depth(ch, d) => SliceFaces(Slice(ch, d, s)))
  }

  /** The parts joined in order. */
  function Flatten(parts: seq<seq<Face>>): seq<Face>
    decreases |parts|
  {
    if parts == [] then [] else Flatten(parts[..|parts| - 1]) + parts[|parts| - 1]
  }

  lemma FlattenStep(parts: seq<seq<Face>>, s: int)
    requires 0 <= s < |parts|
    ensures Flatten(parts[..s + 1]) == Flatten(parts[..s]) + parts[s]
  {
    assert parts[..s + 1][..s] == parts[..s];
  }

  /** A whole sweep's faces, slice by slice. */
  function SweepFaces(ch: Chunk, d: Dir): seq<Face>
    requires ch.WellFormed()
  {
    Flatten(SweepSlices(ch, d))
  }

  /** Everything GenerateMesh emits for a chunk: the six sweeps in the order NX, PX, PY, NY, NZ, PZ. */
  function ChunkFaces(ch: Chunk): seq<Face>
    requires ch.WellFormed()
  {
    SweepFaces(ch, NX) + SweepFaces(ch, PX) + SweepFaces(ch, PY)
      + SweepFaces(ch, NY) + SweepFaces(ch, NZ) + SweepFaces(ch, PZ)
  }

  /**
   * Each slice's quads cover its exposed faces exactly once: every
   * rectangle lies inside the mask and holds only exposed faces of its
   * seed's block type, no two rectangles share a face, and every exposed
   * face is in one of them.
   */
  lemma SliceCoverage(sl: Slice)
    requires sl.Valid()
    ensures var rs := SliceRects(sl);
      forall k :: 0 <= k < |rs| ==>
        && 1 <= rs[k].sizeV && 0 <= rs[k].row && rs[k].row + rs[k].sizeV <= sl.Rows()
        && 1 <= rs[k].sizeU && 0 <= rs[k].col && rs[k].col + rs[k].sizeU <= sl.Cols()
        && forall i, j :: InRect(rs[k], i, j) ==> Exposed(sl, i, j) && TypeAt(sl, i, j) == rs[k].blockType
    ensures var rs := SliceRects(sl);
      forall k, l :: 0 <= k < l < |rs| ==> RectCells(rs[k]) !! RectCells(rs[l])
    ensures var rs := SliceRects(sl);
      forall i, j :: sl.InMask(i, j) ==>
        (Exposed(sl, i, j) <==> exists k :: 0 <= k < |rs| && InRect(rs[k], i, j))
  {
    var g, rs := SliceGrid(sl), SliceRects(sl);
    GridRectsPartition(g);
    forall k | 0 <= k < |rs|
      ensures forall i, j :: InRect(rs[k], i, j) ==> Exposed(sl, i, j) && TypeAt(sl, i, j) == rs[k].blockType
    {
      assert RectOk(g, rs[k]);
    }
    forall i, j | sl.InMask(i, j)
      ensures Exposed(sl, i, j) <==> exists k :: 0 <= k < |rs| && InRect(rs[k], i, j)
    {
      CellsOfMembers(rs, i, j);
      assert (i, j) in ExposedCells(g) <==> Exposed(sl, i, j);
    }
  }

  /**
   * A merged quad covers the unit faces of its cells: the face of the
   * block at row i, column j starts at the quad's start moved (j - col)
   * along U and (i - row) along V.
   */
  lemma QuadCoversCells(d: Dir, s: int, q: Rect, i: int, j: int)
    requires InRect(q, i, j)
    ensures Start(d, s, i, j) == RectQuad(d, s, q).start.Add(DirU(d).Scale(j - q.col)).Add(DirV(d).Scale(i - q.row))
  {
  }

  /**
   * Whether a sweep's triangles wind counter-clockwise seen from the side
   * its normal points to: true for NX, NY and PZ, false for PX, PY and NZ.
   */
  predicate WindsTowardNormal(d: Dir) {
    d == NX || d == NY || d == PZ
  }

  /**
   * Both triangles EmitQuad writes for a quad of sweep d, (v0, v1, v2) and
   * (v0, v2, v3), have the face normal, scaled by the quad's area, as
   * their edge cross product when the sweep winds toward its normal, and
   * its opposite otherwise.
   */
  lemma Winding(d: Dir, s: int, q: Rect, off: Vec3, t: int)
    ensures var vs := QuadVertices(off, RectQuad(d, s, q), t);
      var area := if WindsTowardNormal(d) then q.sizeU * q.sizeV else -(q.sizeU * q.sizeV);
      && Cross(vs[1].pos.Sub(vs[0].pos), vs[2].pos.Sub(vs[0].pos)) == Normal(d).Scale(area)
      && Cross(vs[2].pos.Sub(vs[0].pos), vs[3].pos.Sub(vs[0].pos)) == Normal(d).Scale(area)
  {
    var vs := QuadVertices(off, RectQuad(d, s, q), t);
    var u, v := DirU(d).Scale(q.sizeU), DirV(d).Scale(q.sizeV);
    assert vs[1].pos.Sub(vs[0].pos) == u;
    assert vs[2].pos.Sub(vs[0].pos) == u.Add(v);
    assert vs[3].pos.Sub(vs[0].pos) == v;
    EdgeCross(d, q.sizeU, q.sizeV);
  }

  /** The cross products of the two triangles' edge pairs, written with the sweep's U and V edges. */
  lemma EdgeCross(d: Dir, a: int, b: int)
    ensures var u, v := DirU(d).Scale(a), DirV(d).Scale(b);
      var area := if WindsTowardNormal(d) then a * b else -(a * b);
      Cross(u, u.Add(v)) == Normal(d).Scale(area) && Cross(u.Add(v), v) == Normal(d).Scale(area)
  {
    match d
    case NX | PX => EdgeCrossX(d, a, b);
    case PY | NY => EdgeCrossY(d, a, b);
    case NZ | PZ => EdgeCrossZ(d, a, b);
  }

  lemma EdgeCrossX(d: Dir, a: int, b: int)
    requires d == NX || d == PX
    ensures var u, v := DirU(d).Scale(a), DirV(d).Scale(b);
      var area := if WindsTowardNormal(d) then a * b else -(a * b);
      Cross(u, u.Add(v)) == Normal(d).Scale(area) && Cross(u.Add(v), v) == Normal(d).Scale(area)
  {
    assert DirU(d).Scale(a) == Vec3(0, 0, a) && DirV(d).Scale(b) == Vec3(0, b, 0);
    CrossXFace(a, b);
    ScaleNormal(d, if WindsTowardNormal(d) then a * b else -(a * b));
  }

  lemma EdgeCrossY(d: Dir, a: int, b: int)
    requires d == PY || d == NY
    ensures var u, v := DirU(d).Scale(a), DirV(d).Scale(b);
      var area := if WindsTowardNormal(d) then a * b else -(a * b);
      Cross(u, u.Add(v)) == Normal(d).Scale(area) && Cross(u.Add(v), v) == Normal(d).Scale(area)
  {
    assert DirU(d).Scale(a) == Vec3(a, 0, 0) && DirV(d).Scale(b) == Vec3(0, 0, b);
    CrossYFace(a, b);
    ScaleNormal(d, if WindsTowardNormal(d) then a * b else -(a * b));
  }

  lemma EdgeCrossZ(d: Dir, a: int, b: int)
    requires d == NZ || d == PZ
    ensures var u, v := DirU(d).Scale(a), DirV(d).Scale(b);
      var area := if WindsTowardNormal(d) then a * b else -(a * b);
      Cross(u, u.Add(v)) == Normal(d).Scale(area) && Cross(u.Add(v), v) == Normal(d).Scale(area)
  {
    assert DirU(d).Scale(a) == Vec3(a, 0, 0) && DirV(d).Scale(b) == Vec3(0, b, 0);
    CrossZFace(a, b);
    ScaleNormal(d, if WindsTowardNormal(d) then a * b else -(a * b));
  }

  /** A normal scaled by k: -k or k on its axis, 0 elsewhere. */
  lemma ScaleNormal(d: Dir, k: int)
    ensures Normal(d).Scale(k) == match d
      case NX => Vec3(-k, 0, 0)
      case PX => Vec3(k, 0, 0)
      case PY => Vec3(0, k, 0)
      case NY => Vec3(0, -k, 0)
      case NZ => Vec3(0, 0, -k)
      case PZ => Vec3(0, 0, k)
  {
  }

  /** The edge cross products of an X face: U = (0, 0, a), V = (0, b, 0). */
  lemma CrossXFace(a: int, b: int)
    ensures var u, v := Vec3(0, 0, a), Vec3(0, b, 0);
      Cross(u, u.Add(v)) == Vec3(-(a * b), 0, 0) && Cross(u.Add(v), v) == Vec3(-(a * b), 0, 0)
  {
  }

  /** The edge cross products of a Y face: U = (a, 0, 0), V = (0, 0, b). */
  lemma CrossYFace(a: int, b: int)
    ensures var u, v := Vec3(a, 0, 0), Vec3(0, 0, b);
      Cross(u, u.Add(v)) == Vec3(0, -(a * b), 0) && Cross(u.Add(v), v) == Vec3(0, -(a * b), 0)
  {
  }

  /** The edge cross products of a Z face: U = (a, 0, 0), V = (0, b, 0). */
  lemma CrossZFace(a: int, b: int)
    ensures var u, v := Vec3(a, 0, 0), Vec3(0, b, 0);
      Cross(u, u.Add(v)) == Vec3(0, 0, a * b) && Cross(u.Add(v), v) == Vec3(0, 0, a * b)
  {
  }

  /** A slice emits no face exactly when none of its faces is exposed. */
  lemma SliceFacesEmptyIff(sl: Slice)
    requires sl.Valid()
    ensures SliceFaces(sl) == [] <==> forall r, c :: sl.InMask(r, c) ==> !Exposed(sl, r, c)
  {
    var g := SliceGrid(sl);
    ScanEmptyIff(g, {}, 0, 0);
    assert SliceFaces(sl) == [] <==> GridRects(g) == [] by {
      assert |SliceFaces(sl)| == |GridRects(g)|;
    }
    forall r, c | sl.InMask(r, c)
      ensures g.InMask(r, c) && !Before(r, c, 0, 0) && g.exposed[r][c] == Exposed(sl, r, c)
    { }
  }

  /** Joined parts are empty exactly when every part is. */
  lemma {:induction false} FlattenEmptyIff(parts: seq<seq<Face>>)
    ensures Flatten(parts) == [] <==> forall k :: 0 <= k < |parts| ==> parts[k] == []
    decreases |parts|
  {
    if parts != [] {
      var init := parts[..|parts| - 1];
      FlattenEmptyIff(init);
      assert forall k :: 0 <= k < |init| ==> init[k] == parts[k];
    }
  }

  /** An active block whose -X face is hidden has an active block before it, so some -X face in its row is exposed. */
  lemma {:induction false} ExposedNXFace(ch: Chunk, p: Vec3)
    requires ch.WellFormed() && ch.ActiveAt(p)
    ensures exists x :: 0 <= x <= p.x && Exposed(Slice(ch, NX, x), p.y, p.z)
    decreases p.x
  {
    var sl := Slice(ch, NX, p.x);
    assert BlockPos(NX, p.x, p.y, p.z) == p;
    if !Exposed(sl, p.y, p.z) {
      ExposedNXFace(ch, Vec3(p.x - 1, p.y, p.z));
    }
  }

  /**
   * GenerateMesh adds no quad for a chunk exactly when the chunk has no
   * active block: every active block has at least one exposed face, and
   * every exposed face belongs to an active block.
   */
  lemma NoFacesIffNoActiveBlock(ch: Chunk)
    requires ch.WellFormed()
    ensures ChunkFaces(ch) == [] <==> forall p :: !ch.ActiveAt(p)
  {
    if p :| ch.ActiveAt(p) {
      ActiveBlockHasFace(ch, p);
    } else {
      SweepSilent(ch, NX);
      SweepSilent(ch, PX);
      SweepSilent(ch, PY);
      SweepSilent(ch, NY);
      SweepSilent(ch, NZ);
      SweepSilent(ch, PZ);
    }
  }

  /** An active block makes the -X sweep emit a face. */
  lemma ActiveBlockHasFace(ch: Chunk, p: Vec3)
    requires ch.WellFormed() && ch.ActiveAt(p)
    ensures SweepFaces(ch, NX) != []
  {
    ExposedNXFace(ch, p);
    var x :| 0 <= x <= p.x && Exposed(Slice(ch, NX, x), p.y, p.z);
    SliceFacesEmptyIff(Slice(ch, NX, x));
    FlattenEmptyIff(SweepSlices(ch, NX));
  }

  /** With no active block no face is exposed, so a sweep emits nothing. */
  lemma SweepSilent(ch: Chunk, d: Dir)
    requires ch.WellFormed() && forall p :: !ch.ActiveAt(p)
    ensures SweepFaces(ch, d) == []
  {
    forall s | 0 <= s < Depth(ch, d) ensures SliceFaces(Slice(ch, d, s)) == [] {
      var sl := Slice(ch, d, s);
      forall r, c | sl.InMask(r, c) ensures !Exposed(sl, r, c) {
        assert !ch.ActiveAt(BlockPos(d, s, r, c));
      }
      SliceFacesEmptyIff(sl);
    }
    FlattenEmptyIff(SweepSlices(ch, d));
  }
}
