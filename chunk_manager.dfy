/**
 * ChunkManager: the list of active chunks, the dictionary of loaded
 * chunks keyed by a packed integer, and the window of 8 x 8 chunk
 * positions around the camera that the constructor fills and Update
 * keeps loaded and active.
 *
 * Chunks are references in the source; here a chunk is a ChunkRef whose
 * id stands for the object's identity (every `new Chunk` gets a fresh
 * id) and whose pos is the world position of its corner.
 */
module ChunkStreaming {
  import opened Geometry

  const ChunkSize := 32
  const RenderDistance := 8
  /** Offsets run over [-Half, Half) in both directions. */
  const Half := RenderDistance / 2
  const KeyStride := 10000

  const Two31 := 0x8000_0000
  const Two32 := 0x1_0000_0000

  /** A loaded chunk: its identity and the world XZ position of its corner. */
  datatype ChunkRef = ChunkRef(id: nat, pos: Vec2)

  /** C#'s unchecked 32-bit int arithmetic: the representative of v modulo 2^32 in [-2^31, 2^31). */
  function Wrap32(v: int): (w: int)
    ensures -Two31 <= w < Two31
    ensures (v - w) % Two32 == 0
    ensures -Two31 <= v < Two31 ==> w == v
  {
    var m := v % Two32;
    if m >= Two31 then m - Two32 else m
  }

  /** A value and its wrap differ by a whole number of 2^32 turns. */
  lemma WrapTurns(v: int) returns (n: int)
    ensures v == Wrap32(v) + Two32 * n
  {
    var w := Wrap32(v);
    n := (v - w) / Two32;
  }

  /** The dictionary key of a chunk position: `(int)pos.X + (int)pos.Y * 10000` in 32-bit arithmetic. */
  function PackedKey(p: Vec2): (k: int)
    ensures -Two31 <= k < Two31
    ensures (p.x + p.y * KeyStride - k) % Two32 == 0
    ensures -Two31 <= p.y * KeyStride < Two31 && -Two31 <= p.x + p.y * KeyStride < Two31 ==>
      k == p.x + p.y * KeyStride
  {
    Wrap32(p.x + Wrap32(p.y * KeyStride))
  }

  /** Positions with |X| < 5000 and Y small enough not to overflow get distinct keys. */
  lemma PackedKeyInjective(p: Vec2, q: Vec2)
    requires -5000 < p.x < 5000 && -5000 < q.x < 5000
    requires -200000 <= p.y <= 200000 && -200000 <= q.y <= 200000
    ensures PackedKey(p) == PackedKey(q) <==> p == q
  {
    if PackedKey(p) == PackedKey(q) {
      assert p.x + p.y * KeyStride == q.x + q.y * KeyStride;
    }
  }

  /** Outside that range the scheme collides: chunks at (320000, 0) and (0, 32) share a key. */
  lemma PackedKeyCollision()
    ensures var p, q := Vec2(320000, 0), Vec2(0, ChunkSize);
      p != q && PackedKey(p) == PackedKey(q)
  {
  }

  /** q is v divided by the chunk size and rounded toward zero. */
  predicate TowardZero(v: int, q: int) {
    && (0 <= v ==> 0 <= ChunkSize * q <= v < ChunkSize * q + ChunkSize)
    && (v < 0 ==> ChunkSize * q - ChunkSize < v <= ChunkSize * q <= 0)
  }

  /** The `(int)` of a float quotient by the chunk size: division rounded toward zero. */
  function ChunkCoord(v: int): (q: int)
    ensures TowardZero(v, q)
  {
    if v >= 0 then v / ChunkSize else -((-v) / ChunkSize)
  }

  /** Rounding toward zero is not flooring: a camera just below 0 is in chunk 0, not -1. */
  lemma ChunkCoordNotFloor()
    ensures ChunkCoord(-1) == 0 && (-1) / ChunkSize == -1
  {
  }

  /** The chunk coordinate of the camera: `(cameraPos / chunkSize).Truncate()`. */
  function CameraChunk(camera: Vec2): (c: Vec2)
    ensures TowardZero(camera.x, c.x) && TowardZero(camera.y, c.y)
  {
    Vec2(ChunkCoord(camera.x), ChunkCoord(camera.y))
  }

  function Abs(v: int): int {
    if v < 0 then -v else v
  }

  /** The eviction test: the chunk is RenderDistance or more chunks away from cur in X or in Z. */
  function OutOfRange(c: ChunkRef, cur: Vec2): (far: bool)
    ensures !far <==> var k := CameraChunk(c.pos);
      && cur.x - RenderDistance < k.x < cur.x + RenderDistance
      && cur.y - RenderDistance < k.y < cur.y + RenderDistance
  {
    || Abs(ChunkCoord(c.pos.x) - cur.x) >= RenderDistance
    || Abs(ChunkCoord(c.pos.y) - cur.y) >= RenderDistance
  }

  /** The world position of window offset (a, b) around chunk coordinate cur. */
  function WindowPos(cur: Vec2, a: int, b: int): (p: Vec2)
    ensures CameraChunk(p) == Vec2(cur.x + a, cur.y + b)
  {
    Vec2((cur.x + a) * ChunkSize, (cur.y + b) * ChunkSize)
  }

  predicate InOffsets(a: int, b: int) {
    -Half <= a < Half && -Half <= b < Half
  }

  /** A chunk at a window position is in range, so the next eviction pass at the same camera keeps it. */
  lemma WindowNotFar(cur: Vec2, a: int, b: int, id: nat)
    requires InOffsets(a, b)
    ensures !OutOfRange(ChunkRef(id, WindowPos(cur, a, b)), cur)
  {
  }

  /** The keys of the 64 window positions around cur. */
  ghost function WindowKeys(cur: Vec2): set<int> {
    set a, b | -Half <= a < Half && -Half <= b < Half :: PackedKey(WindowPos(cur, a, b))
  }

  /**
   * Within one window the packed keys never collide, wherever the window
   * is: positions differ by less than 8 chunks in each direction, too
   * little for either the stride or the 32-bit wrap to alias them.
   */
  lemma WindowKeysDistinct(cur: Vec2, a: int, b: int, a': int, b': int)
    requires InOffsets(a, b) && InOffsets(a', b')
    ensures PackedKey(WindowPos(cur, a, b)) == PackedKey(WindowPos(cur, a', b')) <==> a == a' && b == b'
  {
    var p, q := WindowPos(cur, a, b), WindowPos(cur, a', b');
    if PackedKey(p) == PackedKey(q) {
      // the unwrapped keys differ by a whole number of turns, but by less than one turn in size
      var k := KeyTurns(p, q);
      var d := (a - a') * ChunkSize + (b - b') * (ChunkSize * KeyStride);
      assert p.x - q.x + (p.y - q.y) * KeyStride == d;
      assert -Two32 < d < Two32;
      WholeTurns(k);
    }
  }

  /** A non-zero number of turns is at least one turn in size. */
  lemma WholeTurns(k: int)
    ensures k == 0 || Two32 * k >= Two32 || Two32 * k <= -Two32
  {
    if k > 0 {
      assert Two32 * k == Two32 + Two32 * (k - 1);
    } else if k < 0 {
      assert Two32 * k == -Two32 + Two32 * (k + 1);
    }
  }

  /** Two positions with equal packed keys have unwrapped keys a whole number of 2^32 turns apart. */
  lemma KeyTurns(p: Vec2, q: Vec2) returns (k: int)
    requires PackedKey(p) == PackedKey(q)
    ensures (p.x + p.y * KeyStride) - (q.x + q.y * KeyStride) == Two32 * k
  {
    var n1 := WrapTurns(p.y * KeyStride);
    var n2 := WrapTurns(q.y * KeyStride);
    var m1 := WrapTurns(p.x + Wrap32(p.y * KeyStride));
    var m2 := WrapTurns(q.x + Wrap32(q.y * KeyStride));
    k := m1 - m2 + n1 - n2;
  }

  /**
   * One pass of the eviction loop: drop a far chunk and step over the chunk
   * that slides into its slot. Because of that step, a pass removes at most
   * every other chunk.
   */
  function EvictPass(s: seq<ChunkRef>, cur: Vec2): (r: seq<ChunkRef>)
    ensures |r| <= |s| <= 2 * |r| + 1
    decreases |s|
  {
    if s == [] then []
    else if !OutOfRange(s[0], cur) then [s[0]] + EvictPass(s[1..], cur)
    else if |s| == 1 then []
    else [s[1]] + EvictPass(s[2..], cur)
  }

  /** The chunks of s within range, in order. */
  function NearOnly(s: seq<ChunkRef>, cur: Vec2): seq<ChunkRef>
    decreases |s|
  {
    if s == [] then []
    else if OutOfRange(s[0], cur) then NearOnly(s[1..], cur)
    else [s[0]] + NearOnly(s[1..], cur)
  }

  /**
   * Eviction removes only far chunks and never reorders: the chunks in
   * range after the pass are those before it, in the same order and
   * with the same multiplicity.
   */
  lemma {:induction false} EvictKeepsNear(s: seq<ChunkRef>, cur: Vec2)
    ensures NearOnly(EvictPass(s, cur), cur) == NearOnly(s, cur)
    decreases |s|
  {
    if s == [] {
    } else if !OutOfRange(s[0], cur) {
      EvictKeepsNear(s[1..], cur);
      NearOnlyCons(s[0], EvictPass(s[1..], cur), cur);
      NearOnlyCons(s[0], s[1..], cur);
      assert s == [s[0]] + s[1..];
    } else if |s| == 1 {
    } else {
      EvictKeepsNear(s[2..], cur);
      NearOnlyCons(s[1], EvictPass(s[2..], cur), cur);
      NearOnlyCons(s[1], s[2..], cur);
      assert s[1..] == [s[1]] + s[2..];
    }
  }

  /** Eviction adds nothing: every chunk after the pass was there before, as often. */
  lemma {:induction false} EvictAddsNothing(s: seq<ChunkRef>, cur: Vec2)
    ensures multiset(EvictPass(s, cur)) <= multiset(s)
    decreases |s|
  {
    if s == [] {
    } else if !OutOfRange(s[0], cur) {
      EvictAddsNothing(s[1..], cur);
      assert s == [s[0]] + s[1..];
    } else if |s| == 1 {
    } else {
      EvictAddsNothing(s[2..], cur);
      assert s == [s[0], s[1]] + s[2..];
    }
  }

  lemma NearOnlyCons(x: ChunkRef, s: seq<ChunkRef>, cur: Vec2)
    ensures NearOnly([x] + s, cur) == if OutOfRange(x, cur) then NearOnly(s, cur) else [x] + NearOnly(s, cur)
  {
    assert ([x] + s)[1..] == s;
  }

  /** No far chunk follows another far chunk. */
  predicate NoFarPairs(s: seq<ChunkRef>, cur: Vec2) {
    forall i :: 0 <= i < |s| - 1 && OutOfRange(s[i], cur) ==> !OutOfRange(s[i + 1], cur)
  }

  /** When no two far chunks are adjacent, one pass removes every far chunk. */
  lemma {:induction false} EvictCompleteWithoutFarPairs(s: seq<ChunkRef>, cur: Vec2)
    requires NoFarPairs(s, cur)
    ensures EvictPass(s, cur) == NearOnly(s, cur)
    decreases |s|
  {
    if s == [] {
    } else if !OutOfRange(s[0], cur) {
      assert NoFarPairs(s[1..], cur) by {
        forall i | 0 <= i < |s[1..]| - 1 && OutOfRange(s[1..][i], cur) ensures !OutOfRange(s[1..][i + 1], cur) {
          assert s[1..][i] == s[i + 1] && s[1..][i + 1] == s[i + 2];
        }
      }
      EvictCompleteWithoutFarPairs(s[1..], cur);
    } else if |s| == 1 {
    } else {
      assert !OutOfRange(s[1], cur);
      assert NoFarPairs(s[2..], cur) by {
        forall i | 0 <= i < |s[2..]| - 1 && OutOfRange(s[2..][i], cur) ensures !OutOfRange(s[2..][i + 1], cur) {
          assert s[2..][i] == s[i + 2] && s[2..][i + 1] == s[i + 3];
        }
      }
      EvictCompleteWithoutFarPairs(s[2..], cur);
      assert s[1..][1..] == s[2..];
    }
  }

  /** Two adjacent far chunks: the second slides into the first one's slot and survives the pass. */
  lemma EvictSkipsAfterRemoval(cur: Vec2)
    ensures var c0 := ChunkRef(0, Vec2((cur.x + RenderDistance) * ChunkSize, cur.y * ChunkSize));
      var c1 := ChunkRef(1, Vec2((cur.x + RenderDistance + 1) * ChunkSize, cur.y * ChunkSize));
      OutOfRange(c0, cur) && OutOfRange(c1, cur) && EvictPass([c0, c1], cur) == [c1]
  {
    var c0 := ChunkRef(0, Vec2((cur.x + RenderDistance) * ChunkSize, cur.y * ChunkSize));
    var c1 := ChunkRef(1, Vec2((cur.x + RenderDistance + 1) * ChunkSize, cur.y * ChunkSize));
    assert ChunkCoord(c0.pos.x) == cur.x + RenderDistance;
    assert ChunkCoord(c1.pos.x) == cur.x + RenderDistance + 1;
    assert [c0, c1][2..] == [];
  }

  /** Offset (a, b) comes before offset (x, y) in the loops' order: x outer, y inner. */
  predicate Done(a: int, b: int, x: int, y: int) {
    a < x || (a == x && b < y)
  }

  /** The window position the loops visit i-th, counting from 0. */
  function WindowAt(cur: Vec2, i: int): Vec2 {
    WindowPos(cur, i / RenderDistance - Half, i % RenderDistance - Half)
  }

  /** p is one of the window positions around cur. */
  ghost predicate InWindow(cur: Vec2, p: Vec2) {
    exists a, b :: InOffsets(a, b) && p == WindowPos(cur, a, b)
  }

  /** Offset (x, y) is the one the nested loops visit at step (x + Half) * RenderDistance + (y + Half). */
  lemma WindowAtIndex(cur: Vec2, x: int, y: int)
    requires InOffsets(x, y)
    ensures WindowAt(cur, (x + Half) * RenderDistance + (y + Half)) == WindowPos(cur, x, y)
  {
    var i := (x + Half) * RenderDistance + (y + Half);
    assert i / RenderDistance == x + Half && i % RenderDistance == y + Half;
  }

  /** The 64 positions the loops visit have 64 distinct keys. */
  lemma WindowAtDistinct(cur: Vec2, i: int, j: int)
    requires 0 <= i < j < RenderDistance * RenderDistance
    ensures PackedKey(WindowAt(cur, i)) != PackedKey(WindowAt(cur, j))
  {
    WindowKeysDistinct(cur, i / RenderDistance - Half, i % RenderDistance - Half,
                       j / RenderDistance - Half, j % RenderDistance - Half);
  }

  /** c is stored in the dictionary under its own key. */
  predicate StoredAt(loaded: map<int, ChunkRef>, c: ChunkRef) {
    PackedKey(c.pos) in loaded && loaded[PackedKey(c.pos)] == c
  }

  /**
   * Every loaded chunk sits under its own packed key and was created
   * before id n; every active chunk is loaded; no chunk is active twice.
   */
  ghost predicate Consistent(active: seq<ChunkRef>, loaded: map<int, ChunkRef>, n: nat) {
    && (forall k :: k in loaded ==> PackedKey(loaded[k].pos) == k && loaded[k].id < n)
    && (forall i :: 0 <= i < |active| ==> StoredAt(loaded, active[i]))
    && (forall i, j :: 0 <= i < j < |active| ==> active[i] != active[j])
  }

  class ChunkManager {
    /** The camera's X and Z, as integers (see ChunkCoord). */
    var cameraPos: Vec2
    var activeChunks: seq<ChunkRef>
    var loadedChunks: map<int, ChunkRef>
    /** The id the next `new Chunk` receives. */
    var nextId: nat

    /**
     * Every loaded chunk sits under its own packed key and was created
     * before now; every active chunk is loaded; no chunk is active twice.
     */
    ghost predicate Valid()
      reads this
    {
      Consistent(activeChunks, loadedChunks, nextId)
    }

    /**
     * Create one chunk per window offset around the camera's chunk, x
     * outer and y inner, appending each to the active list and storing it
     * under its key. The 64 keys are distinct, so all 64 chunks stay
     * loaded.
     */
    constructor(camera: Vec2)
      ensures Valid() && cameraPos == camera
      ensures |activeChunks| == RenderDistance * RenderDistance == |loadedChunks|
      ensures forall i :: 0 <= i < |activeChunks| ==> activeChunks[i] == ChunkRef(i, WindowAt(CameraChunk(camera), i))
    {
      activeChunks, loadedChunks, nextId := [], map[], 0;
      cameraPos := camera;
      new;
      var cur := CameraChunk(cameraPos);
      for x := -Half to Half
        invariant |activeChunks| == (x + Half) * RenderDistance && cameraPos == camera
        invariant Filled(cur, activeChunks, loadedChunks, nextId)
      {
        for y := -Half to Half
          invariant |activeChunks| == (x + Half) * RenderDistance + (y + Half) && cameraPos == camera
          invariant Filled(cur, activeChunks, loadedChunks, nextId)
        {
          var pos := WindowPos(cur, x, y);
          var key := PackedKey(pos);
          WindowAtIndex(cur, x, y);
          FillStep(cur, activeChunks, loadedChunks, nextId);
          var newChunk := ChunkRef(nextId, pos);
          nextId := nextId + 1;
          activeChunks := activeChunks + [newChunk];
          loadedChunks := loadedChunks[key := newChunk];
        }
      }
      FilledConsistent(cur, activeChunks, loadedChunks, nextId);
    }

    /**
     * Move the window to the camera's chunk: one eviction pass over the
     * active list, then make every window position loaded and active.
     * Loaded chunks are never dropped or replaced; the active chunks that
     * survive eviction keep their order, and every chunk appended after
     * them is stored under a window key, so the list holds no chunk twice.
     */
    method Update(camera: Vec2)
      requires Valid()
      modifies this
      ensures Valid() && cameraPos == camera && nextId >= old(nextId)
      ensures var cur := CameraChunk(camera);
        forall a, b :: InOffsets(a, b) ==>
          PackedKey(WindowPos(cur, a, b)) in loadedChunks
          && loadedChunks[PackedKey(WindowPos(cur, a, b))] in activeChunks
      ensures var e := EvictPass(old(activeChunks), CameraChunk(camera));
        |e| <= |activeChunks| && activeChunks[..|e|] == e
      ensures forall i :: |EvictPass(old(activeChunks), CameraChunk(camera))| <= i < |activeChunks| ==>
        PackedKey(activeChunks[i].pos) in WindowKeys(CameraChunk(camera))
      ensures forall k :: k in old(loadedChunks) ==> k in loadedChunks && loadedChunks[k] == old(loadedChunks)[k]
      ensures forall k :: k in loadedChunks && k !in old(loadedChunks) ==>
        k in WindowKeys(CameraChunk(camera)) && InWindow(CameraChunk(camera), loadedChunks[k].pos)
        && loadedChunks[k].id >= old(nextId)
    {
      cameraPos := camera;
      var cur := CameraChunk(cameraPos);
      EvictFar(cur);
      LoadWindow(cur);
    }

    /** The eviction loop: RemoveAt(i) followed by i++, so the chunk that slides into slot i is never examined. */
    method EvictFar(cur: Vec2)
      requires Valid()
      modifies this
      ensures Valid() && activeChunks == EvictPass(old(activeChunks), cur)
      ensures loadedChunks == old(loadedChunks) && nextId == old(nextId) && cameraPos == old(cameraPos)
    {
      ghost var e := EvictPass(activeChunks, cur);
      EvictStart(activeChunks, cur);
      var i := 0;
      while i < |activeChunks|
        invariant EvictInv(activeChunks, i, cur, e) && Valid()
        invariant loadedChunks == old(loadedChunks) && nextId == old(nextId) && cameraPos == old(cameraPos)
        decreases |activeChunks| + 1 - i
      {
        if OutOfRange(activeChunks[i], cur) {
          EvictRemoveStep(activeChunks, i, cur, e);
          RemovePreserves(activeChunks, loadedChunks, nextId, i);
          activeChunks := activeChunks[..i] + activeChunks[i + 1..];
        } else {
          EvictKeepStep(activeChunks, i, cur, e);
        }
        i := i + 1;
      }
      EvictEnd(activeChunks, i, cur, e);
    }

    /**
     * The load loop, x outer and y inner: a window key not yet loaded gets
     * a new chunk, appended and stored; a loaded chunk that is not active
     * is appended again.
     */
    method LoadWindow(cur: Vec2)
      requires Valid()
      modifies this
      ensures Valid() && nextId >= old(nextId) && cameraPos == old(cameraPos)
      ensures LoadState(cur, old(activeChunks), old(loadedChunks), old(nextId),
                        activeChunks, loadedChunks, nextId, Half, -Half)
    {
      for x := -Half to Half
        invariant LoadState(cur, old(activeChunks), old(loadedChunks), old(nextId),
                            activeChunks, loadedChunks, nextId, x, -Half)
        invariant cameraPos == old(cameraPos)
      {
        for y := -Half to Half
          invariant LoadState(cur, old(activeChunks), old(loadedChunks), old(nextId),
                              activeChunks, loadedChunks, nextId, x, y)
          invariant cameraPos == old(cameraPos)
        {
          var pos := WindowPos(cur, x, y);
          var key := PackedKey(pos);
          if key !in loadedChunks {
            var newChunk := ChunkRef(nextId, pos);
            LoadNewStep(cur, old(activeChunks), old(loadedChunks), old(nextId),
                        activeChunks, loadedChunks, nextId, x, y);
            activeChunks, loadedChunks, nextId := activeChunks + [newChunk], loadedChunks[key := newChunk], nextId + 1;
          } else if loadedChunks[key] !in activeChunks {
            LoadReactivateStep(cur, old(activeChunks), old(loadedChunks), old(nextId),
                               activeChunks, loadedChunks, nextId, x, y);
            activeChunks := activeChunks + [loadedChunks[key]];
          } else {
            LoadKeepStep(cur, old(activeChunks), old(loadedChunks), old(nextId),
                         activeChunks, loadedChunks, nextId, x, y);
          }
        }
        LoadNextRow(cur, old(activeChunks), old(loadedChunks), old(nextId),
                    activeChunks, loadedChunks, nextId, x);
      }
    }
  }

  /**
   * The constructor's state after n chunks: chunk i was created i-th at
   * the i-th window position, is active and is loaded under its key, and
   * nothing else is loaded.
   */
  ghost predicate Filled(cur: Vec2, active: seq<ChunkRef>, loaded: map<int, ChunkRef>, n: nat) {
    && n == |active| == |loaded|
    && (forall i :: 0 <= i < |active| ==> active[i] == ChunkRef(i, WindowAt(cur, i)))
    && (forall i :: 0 <= i < |active| ==> StoredAt(loaded, active[i]))
    && (forall k :: k in loaded ==>
          PackedKey(loaded[k].pos) == k && loaded[k].id < n && loaded[k] == active[loaded[k].id])
  }

  /** Creating the next window chunk keeps the fill state: its key was not loaded yet. */
  lemma FillStep(cur: Vec2, active: seq<ChunkRef>, loaded: map<int, ChunkRef>, n: nat)
    requires Filled(cur, active, loaded, n) && n < RenderDistance * RenderDistance
    ensures var c := ChunkRef(n, WindowAt(cur, n));
      PackedKey(c.pos) !in loaded && Filled(cur, active + [c], loaded[PackedKey(c.pos) := c], n + 1)
  {
    var c := ChunkRef(n, WindowAt(cur, n));
    var key := PackedKey(c.pos);
    if key in loaded {
      var d := loaded[key];
      WindowAtDistinct(cur, d.id, n);
      assert false;
    }
    var active', loaded' := active + [c], loaded[key := c];
    assert |loaded'| == |loaded| + 1;
    forall i | 0 <= i < |active'| ensures StoredAt(loaded', active'[i]) {
      if i < n {
        assert StoredAt(loaded, active[i]);
        WindowAtDistinct(cur, i, n);
      }
    }
  }

  lemma FilledConsistent(cur: Vec2, active: seq<ChunkRef>, loaded: map<int, ChunkRef>, n: nat)
    requires Filled(cur, active, loaded, n)
    ensures Consistent(active, loaded, n)
  {
    forall i, j | 0 <= i < j < |active| ensures active[i] != active[j] {
      assert active[i].id == i && active[j].id == j;
    }
  }

  /** Removing a chunk from slot i of the eviction pass's list keeps the pass's result. */
  /**
   * The eviction loop's state at index i: the kept part a[..i] followed by
   * one pass over the rest is the pass over the original list e; i may
   * have stepped one past the end after a removal at the last index.
   */
  ghost predicate EvictInv(a: seq<ChunkRef>, i: int, cur: Vec2, e: seq<ChunkRef>) {
    && 0 <= i <= |a| + 1
    && (i <= |a| ==> a[..i] + EvictPass(a[i..], cur) == e)
    && (i == |a| + 1 ==> a == e)
  }

  lemma EvictStart(a: seq<ChunkRef>, cur: Vec2)
    ensures EvictInv(a, 0, cur, EvictPass(a, cur))
  {
    assert a[..0] + EvictPass(a[0..], cur) == EvictPass(a, cur) by {
      assert a[0..] == a;
    }
  }

  lemma EvictEnd(a: seq<ChunkRef>, i: int, cur: Vec2, e: seq<ChunkRef>)
    requires EvictInv(a, i, cur, e) && i >= |a|
    ensures a == e
  {
    if i == |a| {
      assert a[..i] == a && a[i..] == [];
    }
  }

  /** RemoveAt(i) followed by i++ skips the element that slid into slot i. */
  lemma EvictRemoveStep(a: seq<ChunkRef>, i: int, cur: Vec2, e: seq<ChunkRef>)
    requires EvictInv(a, i, cur, e) && i < |a| && OutOfRange(a[i], cur)
    ensures EvictInv(a[..i] + a[i + 1..], i + 1, cur, e)
  {
    var a' := a[..i] + a[i + 1..];
    if i + 1 < |a| {
      assert a[i..][1] == a[i + 1] && a[i..][2..] == a[i + 2..];
      assert a'[..i + 1] == a[..i] + [a[i + 1]];
      assert a'[i + 1..] == a[i + 2..];
    } else {
      assert a' == a[..i];
    }
  }

  /** A chunk within range stays, and the loop moves past it. */
  lemma EvictKeepStep(a: seq<ChunkRef>, i: int, cur: Vec2, e: seq<ChunkRef>)
    requires EvictInv(a, i, cur, e) && i < |a| && !OutOfRange(a[i], cur)
    ensures EvictInv(a, i + 1, cur, e)
  {
    assert a[i..][1..] == a[i + 1..];
    assert a[..i + 1] == a[..i] + [a[i]];
  }

  /** RemoveAt keeps the bookkeeping consistent. */
  lemma RemovePreserves(a: seq<ChunkRef>, loaded: map<int, ChunkRef>, n: nat, i: int)
    requires Consistent(a, loaded, n) && 0 <= i < |a|
    ensures Consistent(a[..i] + a[i + 1..], loaded, n)
  {
    var a' := a[..i] + a[i + 1..];
    forall j | 0 <= j < |a'| ensures a'[j] == a[if j < i then j else j + 1] { }
  }

  /** The evicted list e is still a prefix of active, and every chunk after it is stored under a window key. */
  ghost predicate KeepsPrefix(cur: Vec2, e: seq<ChunkRef>, active: seq<ChunkRef>) {
    && |e| <= |active| && active[..|e|] == e
    && (forall i :: |e| <= i < |active| ==> PackedKey(active[i].pos) in WindowKeys(cur))
  }

  /** The dictionary only grew from l0: old entries unchanged, every new entry a new chunk at a window position. */
  ghost predicate OnlyGrows(cur: Vec2, l0: map<int, ChunkRef>, n0: nat, loaded: map<int, ChunkRef>) {
    && (forall k :: k in l0 ==> k in loaded && loaded[k] == l0[k])
    && (forall k :: k in loaded && k !in l0 ==>
          k in WindowKeys(cur) && InWindow(cur, loaded[k].pos) && loaded[k].id >= n0)
  }

  /** Every window offset visited before (x, y) is loaded, and its chunk is active. */
  ghost predicate Covered(cur: Vec2, active: seq<ChunkRef>, loaded: map<int, ChunkRef>, x: int, y: int) {
    forall a, b :: InOffsets(a, b) && Done(a, b, x, y) ==>
      PackedKey(WindowPos(cur, a, b)) in loaded && loaded[PackedKey(WindowPos(cur, a, b))] in active
  }

  /** The load loop's state before offset (x, y). */
  ghost predicate LoadState(cur: Vec2, e: seq<ChunkRef>, l0: map<int, ChunkRef>, n0: nat,
                            active: seq<ChunkRef>, loaded: map<int, ChunkRef>, n: nat, x: int, y: int)
  {
    && Consistent(active, loaded, n) && n0 <= n
    && KeepsPrefix(cur, e, active)
    && OnlyGrows(cur, l0, n0, loaded)
    && Covered(cur, active, loaded, x, y)
  }

  /** Appending a chunk stored under a window key keeps the evicted prefix. */
  lemma KeepsPrefixAppend(cur: Vec2, e: seq<ChunkRef>, active: seq<ChunkRef>, c: ChunkRef)
    requires KeepsPrefix(cur, e, active) && PackedKey(c.pos) in WindowKeys(cur)
    ensures KeepsPrefix(cur, e, active + [c])
  {
    assert (active + [c])[..|e|] == active[..|e|];
  }

  /** Storing and appending a chunk with a fresh id under a free key keeps the bookkeeping consistent. */
  lemma ConsistentAddNew(active: seq<ChunkRef>, loaded: map<int, ChunkRef>, n: nat, c: ChunkRef)
    requires Consistent(active, loaded, n) && c.id == n && PackedKey(c.pos) !in loaded
    ensures Consistent(active + [c], loaded[PackedKey(c.pos) := c], n + 1)
  {
    var active', loaded' := active + [c], loaded[PackedKey(c.pos) := c];
    forall i | 0 <= i < |active'| ensures StoredAt(loaded', active'[i]) {
      if i < |active| {
        assert StoredAt(loaded, active[i]);
      }
    }
    forall i, j | 0 <= i < j < |active'| ensures active'[i] != active'[j] {
      if j == |active| {
        assert StoredAt(loaded, active[i]);
      }
    }
  }

  /** Appending a loaded chunk that is not active keeps the bookkeeping consistent. */
  lemma ConsistentReactivate(active: seq<ChunkRef>, loaded: map<int, ChunkRef>, n: nat, k: int)
    requires Consistent(active, loaded, n) && k in loaded && loaded[k] !in active
    ensures Consistent(active + [loaded[k]], loaded, n)
  {
    var active' := active + [loaded[k]];
    forall i, j | 0 <= i < j < |active'| ensures active'[i] != active'[j] {
      if j == |active| {
        assert active'[i] in active;
      }
    }
  }

  /** A new entry for a window position keeps the dictionary's growth within the window. */
  lemma OnlyGrowsInsert(cur: Vec2, l0: map<int, ChunkRef>, n0: nat, loaded: map<int, ChunkRef>, n: nat, x: int, y: int)
    requires OnlyGrows(cur, l0, n0, loaded) && InOffsets(x, y) && n0 <= n
    requires PackedKey(WindowPos(cur, x, y)) !in loaded
    ensures OnlyGrows(cur, l0, n0, loaded[PackedKey(WindowPos(cur, x, y)) := ChunkRef(n, WindowPos(cur, x, y))])
  {
    assert PackedKey(WindowPos(cur, x, y)) in WindowKeys(cur);
    assert InWindow(cur, WindowPos(cur, x, y));
  }

  /** Once offset (x, y) is loaded and active, it counts as visited. */
  lemma CoveredStep(cur: Vec2, active: seq<ChunkRef>, loaded: map<int, ChunkRef>, x: int, y: int,
                    active': seq<ChunkRef>, loaded': map<int, ChunkRef>)
    requires Covered(cur, active, loaded, x, y)
    requires forall k :: k in loaded ==> k in loaded' && loaded'[k] == loaded[k]
    requires forall c :: c in active ==> c in active'
    requires PackedKey(WindowPos(cur, x, y)) in loaded' && loaded'[PackedKey(WindowPos(cur, x, y))] in active'
    ensures Covered(cur, active', loaded', x, y + 1)
  {
  }

  /** A missing window key gets a new chunk, appended and stored. */
  lemma LoadNewStep(cur: Vec2, e: seq<ChunkRef>, l0: map<int, ChunkRef>, n0: nat,
                    active: seq<ChunkRef>, loaded: map<int, ChunkRef>, n: nat, x: int, y: int)
    requires LoadState(cur, e, l0, n0, active, loaded, n, x, y) && InOffsets(x, y)
    requires PackedKey(WindowPos(cur, x, y)) !in loaded
    ensures var c := ChunkRef(n, WindowPos(cur, x, y));
      LoadState(cur, e, l0, n0, active + [c], loaded[PackedKey(c.pos) := c], n + 1, x, y + 1)
  {
    var c := ChunkRef(n, WindowPos(cur, x, y));
    var key := PackedKey(c.pos);
    assert key in WindowKeys(cur);
    ConsistentAddNew(active, loaded, n, c);
    KeepsPrefixAppend(cur, e, active, c);
    OnlyGrowsInsert(cur, l0, n0, loaded, n, x, y);
    CoveredStep(cur, active, loaded, x, y, active + [c], loaded[key := c]);
  }

  /** A loaded window chunk that is not active is appended again. */
  lemma LoadReactivateStep(cur: Vec2, e: seq<ChunkRef>, l0: map<int, ChunkRef>, n0: nat,
                           active: seq<ChunkRef>, loaded: map<int, ChunkRef>, n: nat, x: int, y: int)
    requires LoadState(cur, e, l0, n0, active, loaded, n, x, y) && InOffsets(x, y)
    requires PackedKey(WindowPos(cur, x, y)) in loaded && loaded[PackedKey(WindowPos(cur, x, y))] !in active
    ensures LoadState(cur, e, l0, n0, active + [loaded[PackedKey(WindowPos(cur, x, y))]], loaded, n, x, y + 1)
  {
    var key := PackedKey(WindowPos(cur, x, y));
    assert key in WindowKeys(cur);
    ConsistentReactivate(active, loaded, n, key);
    assert PackedKey(loaded[key].pos) == key;
    KeepsPrefixAppend(cur, e, active, loaded[key]);
    CoveredStep(cur, active, loaded, x, y, active + [loaded[key]], loaded);
  }

  /** A window chunk that is loaded and active needs nothing. */
  lemma LoadKeepStep(cur: Vec2, e: seq<ChunkRef>, l0: map<int, ChunkRef>, n0: nat,
                     active: seq<ChunkRef>, loaded: map<int, ChunkRef>, n: nat, x: int, y: int)
    requires LoadState(cur, e, l0, n0, active, loaded, n, x, y) && InOffsets(x, y)
    requires PackedKey(WindowPos(cur, x, y)) in loaded && loaded[PackedKey(WindowPos(cur, x, y))] in active
    ensures LoadState(cur, e, l0, n0, active, loaded, n, x, y + 1)
  {
    CoveredStep(cur, active, loaded, x, y, active, loaded);
  }

  /** The end of an inner loop is the start of the next row. */
  lemma LoadNextRow(cur: Vec2, e: seq<ChunkRef>, l0: map<int, ChunkRef>, n0: nat,
                    active: seq<ChunkRef>, loaded: map<int, ChunkRef>, n: nat, x: int)
    requires LoadState(cur, e, l0, n0, active, loaded, n, x, Half)
    ensures LoadState(cur, e, l0, n0, active, loaded, n, x + 1, -Half)
  {
    assert Covered(cur, active, loaded, x + 1, -Half) by {
      forall a, b | InOffsets(a, b) && Done(a, b, x + 1, -Half) ensures Done(a, b, x, Half) { }
    }
  }
}
