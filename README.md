# Greedy voxel meshing and chunk streaming, in Dafny

This project models two parts of a small C# voxel engine.

**The greedy mesher** (`GreedyMesher.GenerateMesh`) turns one chunk into a triangle mesh.
- A chunk is a dense `ChunkSize x ChunkHeight x ChunkSize` grid of blocks. Each block has an active flag and a type: grass, water or snow.
- The mesher runs six sweeps, in the order -X, +X, +Y, -Y, -Z, +Z.
- Each sweep walks the slices along its normal axis. For each slice it:
  - fills an `uncovered` mask of exposed faces;
  - scans the mask row by row;
  - grows a rectangle from every uncovered face not yet `inAQuad`, first along V and then along U;
  - marks the rectangle in `inAQuad`;
  - emits one quad with `EmitQuad`, which appends 4 vertices and 6 indices to the mesher's `_mesh`.

**The chunk manager** (`ChunkManager`) keeps two collections:
- a list of active chunks;
- a dictionary of loaded chunks, keyed by the packed integer `X + Y * 10000`.

Both are kept in step with the 8 x 8 window of chunk positions around the camera:
- The constructor fills the window.
- `Update` evicts far chunks from the active list. It then loads or reactivates every window position.

The model has three layers:
- **Imperative model.** The source's loops are Dafny methods over the same state:
  - a `GreedyMesher` class whose `mesh` field `EmitQuad` appends to;
  - `array2<bool>` masks for `uncovered` and `inAQuad`;
  - a `ChunkManager` class whose `seq`/`map` fields `Update` updates in place.
- **Reference functions.** Pure functions state what each loop computes. `Scan` is the row-major scan of one slice. `AppendFaces` is the mesh after a sequence of `EmitQuad` calls. `EvictPass` is one pass of the eviction loop.
- **Lemmas** prove the properties the source relies on, stated about those functions.

Modules:
- `Geometry` (geometry.dfy): integer `Vec3`, `Vec2` and the cross product.
- `Voxel` (voxel.dfy): `Block`, `Chunk`, `Quad`, `Vertex` and `Mesh`.
- `Emit` (emit.dfy): what `EmitQuad` appends, and what a sequence of appends builds.
- `GreedyScan` (greedy_scan.dfy): the growth tests and the scan of one slice mask.
- `GreedyScanLemmas` (greedy_scan_lemmas.dfy): a slice's rectangles partition its exposed faces.
- `Sweep` (sweep.dfy): the six directions, their mask layouts, exposure, and the faces of a whole chunk.
- `Mesher` (greedy_mesher.dfy): the `GreedyMesher` class and its loops.
- `ChunkStreaming` (chunk_manager.dfy): the packed key, the window, eviction, and the `ChunkManager` class.

Modelling choices:
- **One sweep routine.** The six `greedyNX` .. `greedyPZ` routines are written once, parametrised by a direction. Every direction keeps the source's mask layout: rows run along V and columns along U. X faces use `[y, z]`, Y faces `[z, x]` and Z faces `[y, x]`. Each direction keeps its own boundary test, quad origin, U/V axes and normal.
- **Integer coordinates.** Every coordinate the core computes is a whole number, so floats are modelled as unbounded integers (see "Left out" for the limits of that).
- **The packed key.** It is computed with C#'s 32-bit wrap-around, `Wrap32`.
- **Chunks in the manager** are opaque references, `ChunkRef(id, pos)`. Each `new Chunk` receives a fresh id.
- **Behaviours of the source the model keeps.**
  - The chunk coordinate is the camera position divided by 32 and rounded toward zero, as `Truncate` does (`ChunkCoord`, `ChunkCoordNotFloor`).
  - A chunk is evicted when its distance is `>= 8` chunks in X or in Z (`OutOfRange`).
  - Eviction removes a chunk from the active list only. It stays in the dictionary and can be reactivated later.
  - One eviction pass skips the element that slides into a removed slot (`EvictPass`, `EvictSkipsAfterRemoval`).

## Model

| member | source | states |
|---|---|---|
| `Voxel.TypeId` | Block.cs:12-17 | The material id written into vertices is 0, 1 or 2: GRASS, WATER, SNOW. |
| `Emit.QuadVertices` | GreedyMesher.cs:605-620 | The 4 corners are start, start+U·sizeU, start+U·sizeU+V·sizeV and start+V·sizeV, each shifted by (Pos.X, 0, Pos.Y). Their uvs are (0,0), (sizeU,0), (sizeU,sizeV) and (0,sizeV), and every corner carries the quad's normal and the given type. |
| `Emit.WithQuad` | GreedyMesher.cs:622-634 | One EmitQuad appends exactly 4 vertices and 6 indices and keeps the old prefix. The new indices name only the 4 new vertices, and a well-indexed mesh stays well indexed. |
| `Emit.AppendFaces` | GreedyMesher.cs:115 | Definition, no contract of its own: the mesh after one EmitQuad call per face, in order. The AppendFaces lemmas below state what it builds. |
| `Emit.AppendFacesSizes` | GreedyMesher.cs:622-634 | Emitting n quads appends 4n vertices and 6n indices. It keeps what was there and preserves well-indexedness. |
| `Emit.AppendFacesVertexSlot` | GreedyMesher.cs:622-626 | Output order is emission order: quad k's corners are the k-th block of 4 new vertices. |
| `Emit.AppendFacesIndexSlot` | GreedyMesher.cs:628-634 | Quad k's indices are the k-th block of 6 new indices, exactly base+0,1,2,0,2,3, where base is the vertex count before that quad. |
| `Emit.AppendFacesConcat` | GreedyMesher.cs:14-22 | Emitting a then b equals emitting a + b. The mesh is never reset, so a later call appends after an earlier one. |
| `Emit.FreshMeshValid` | GreedyMesher.cs:622-634 | On a fresh mesh, the index count is a multiple of 3, indices·4 == vertices·6, and every index is below the vertex count. |
| `GreedyScan.Scan` | GreedyMesher.cs:50-117 | Definition, no contract of its own: the row-major scan of one slice mask, skipping faces that are covered or already in a quad and emitting `Seed`'s rectangle at every other face. ScanRectsOk, ScanDisjoint and ScanCovers state what it emits. |
| `GreedyScan.GrowV` | GreedyMesher.cs:72-81 | V-growth adds rows while the next face is in the slice, exposed, not in a quad and of the seed type. It stops at the first face that is not, with no backtracking, and stays inside the mask. |
| `GreedyScan.GrowU` | GreedyMesher.cs:85-102 | U-growth adds columns while the whole V span of the next column passes the same test. It stops at the first column that does not and stays inside the mask. |
| `GreedyScan.Seed` | GreedyMesher.cs:60-113 | The rectangle grown from a free seed starts at the seed and has the seed's type. Its sizes satisfy 1 <= sizeV, row+sizeV <= rows, 1 <= sizeU and col+sizeU <= cols. Every one of its cells is free, and neither growth could have gone further. |
| `GreedyScan.GrownRectFree` | GreedyMesher.cs:85-102 | A rectangle whose seed column and every added column passed the growth tests contains only free cells. |
| `GreedyScanLemmas.ScanRectsOk` | GreedyMesher.cs:50-117 | Every rectangle a slice's scan emits is non-empty and inside the mask, and it holds only exposed faces of its seed's type. |
| `GreedyScanLemmas.ScanDisjoint` | GreedyMesher.cs:55-58 | The scan's rectangles avoid every face already in a quad, and no two of them share a face. |
| `GreedyScanLemmas.ScanCovers` | GreedyMesher.cs:50-117 | When the scan ends, the faces in a quad are exactly the exposed faces: the final `inAQuad` equals `uncovered`. |
| `GreedyScanLemmas.GridRectsPartition` | GreedyMesher.cs:104-110 | One slice's rectangles are well placed and pairwise disjoint, and their union is the set of exposed faces, so every exposed face is in exactly one quad. |
| `GreedyScanLemmas.ScanEmptyIff` | GreedyMesher.cs:50-58 | The scan emits nothing exactly when every exposed face it still reaches is already in a quad. |
| `Sweep.DirU` | GreedyMesher.cs:27 | Definition, no contract of its own: the U axis of each sweep, (0,0,1) for X faces and (1,0,0) for Y and Z faces (also lines 124, 220, 317, 413, 509). |
| `Sweep.DirV` | GreedyMesher.cs:28 | Definition, no contract of its own: the V axis of each sweep, (0,1,0) for X and Z faces and (0,0,1) for Y faces (also lines 125, 221, 318, 414, 510). |
| `Sweep.Normal` | GreedyMesher.cs:29 | Definition, no contract of its own: the normal of each sweep, -X, +X, +Y, -Y, -Z, +Z (also lines 126, 222, 319, 415, 511). Winding states how it relates to U and V. |
| `Sweep.Exposed` | GreedyMesher.cs:43 | Definition, no contract of its own: each sweep's own boundary test, as written at line 43 and at lines 140, 236, 333, 429 and 525. ExposedIffOpenNeighbour states the one rule behind them. |
| `Sweep.BlockPos` | GreedyMesher.cs:33-43 | The block behind mask cell (row, column) of slice s is s along the slice axis plus row along V plus column along U. This gives [x=s, y=row, z=column] for X faces, [x=column, y=s, z=row] for Y faces and [x=column, y=row, z=s] for Z faces. |
| `Sweep.Start` | GreedyMesher.cs:61 | The quad origin is the seed block's corner for -X, -Y and -Z. For +X, +Y and +Z it is that corner moved one step along the normal (also lines 158, 254, 351, 447, 543). |
| `Sweep.ExposedIffOpenNeighbour` | GreedyMesher.cs:43 | All six boundary tests (also lines 140, 236, 333, 429, 525) are one rule: a face is exposed iff its block is active and the block one step along the normal is outside the chunk or inactive. |
| `Sweep.SliceGrid` | GreedyMesher.cs:35-48 | The mask one slice scans has the source's dimensions. Its cells are exactly the exposed faces and the block types behind them. |
| `Sweep.SliceCoverage` | GreedyMesher.cs:50-117 | For one slice of any sweep: every quad lies inside the mask and holds only exposed faces of its seed's type, no two quads share a face, and a face is exposed iff some quad contains it. |
| `Sweep.QuadCoversCells` | GreedyMesher.cs:112-113 | A merged quad covers the unit faces of its cells: the face at (i, j) starts at the quad's start plus (j-col)·U plus (i-row)·V. |
| `Sweep.Winding` | GreedyMesher.cs:628-634 | Both triangles of a quad, (v0,v1,v2) and (v0,v2,v3), have edge cross product ±sizeU·sizeV·normal. The sign is + for -X, -Y and +Z and - for +X, +Y and -Z. |
| `Sweep.SliceFacesEmptyIff` | GreedyMesher.cs:50-58 | A slice emits no quad exactly when none of its faces is exposed. |
| `Sweep.ExposedNXFace` | GreedyMesher.cs:43 | Every active block has an exposed -X face somewhere at or before it in its row. |
| `Sweep.ActiveBlockHasFace` | GreedyMesher.cs:25-118 | A chunk with an active block makes the -X sweep emit at least one quad. |
| `Sweep.SweepSilent` | GreedyMesher.cs:39-48 | A chunk with no active block has no exposed face, so every sweep emits nothing. |
| `Sweep.SweepFaces` | GreedyMesher.cs:33-118 | Definition, no contract of its own: one sweep's faces, slice 0 first. SweepDir is proved to append exactly these. |
| `Sweep.ChunkFaces` | GreedyMesher.cs:14-22 | Definition, no contract of its own: the six sweeps' faces in the order NX, PX, PY, NY, NZ, PZ. GenerateMesh is proved to append exactly these. |
| `Sweep.NoFacesIffNoActiveBlock` | GreedyMesher.cs:14-23 | GenerateMesh emits no quad for a chunk exactly when the chunk has no active block. |
| `Mesher.FillUncovered` | GreedyMesher.cs:35-48 | The fresh `uncovered` mask has dimensions [rows, ChunkSize], and a cell is set exactly when its face is exposed. |
| `Mesher.GrowAlongV` | GreedyMesher.cs:72-81 | The expandV loop computes the V-growth: the returned height equals `GrowV` from height 1. |
| `Mesher.CellTest` | GreedyMesher.cs:74 | The loops' test on the two masks and the block type is the free-cell test of the scan. |
| `Mesher.ColumnOpen` | GreedyMesher.cs:87-96 | The inner for loop of expandU returns true exactly when every face of the next column over the V span is free. |
| `Mesher.GrowAlongU` | GreedyMesher.cs:85-102 | The expandU loop computes the U-growth: the returned width equals `GrowU` from width 1. |
| `Mesher.MarkQuad` | GreedyMesher.cs:104-110 | After marking, `inAQuad` is the old mask plus exactly the rectangle's cells, and every write is in range. |
| `Mesher.GreedyMesher.constructor` | GreedyMesher.cs:13 | A new mesher starts with an empty mesh. |
| `Mesher.GreedyMesher.GenerateMesh` | GreedyMesher.cs:14-23 | The mesh becomes the old mesh with the faces of the six sweeps appended, in the order NX, PX, PY, NY, NZ, PZ. The returned mesh is that mesh. |
| `Mesher.GreedyMesher.SweepDir` | GreedyMesher.cs:33-118 | A sweep appends the faces of its slices in slice order. |
| `Mesher.GreedyMesher.SweepSlice` | GreedyMesher.cs:35-117 | One slice appends exactly the quads of its row-major scan, in scan order. |
| `Mesher.GreedyMesher.QuadAt` | GreedyMesher.cs:60-115 | From a free seed: the rectangle grown is `Seed`'s rectangle, `inAQuad` gains exactly its cells, and the mesh gains exactly its quad with the seed block's type. |
| `Mesher.GreedyMesher.EmitQuad` | GreedyMesher.cs:603-635 | The imperative appends produce `WithQuad`: 4 vertices, then indices base+0,1,2,0,2,3. |
| `ChunkStreaming.Wrap32` | ChunkManager.cs:58 | C#'s unchecked int result lies in [-2^31, 2^31). It is congruent to the exact value modulo 2^32 and equals it when that value is in range. |
| `ChunkStreaming.PackedKey` | ChunkManager.cs:58 | The key `(int)X + (int)Y * 10000` lies in int's range and is congruent to X + Y·10000 modulo 2^32. It equals that value when neither the product nor the sum overflows (same key at lines 85, 90, 94, 97). |
| `ChunkStreaming.PackedKeyInjective` | ChunkManager.cs:58 | Positions with \|X\| < 5000 and \|Y\| <= 200000 get equal keys iff they are equal. |
| `ChunkStreaming.PackedKeyCollision` | ChunkManager.cs:85 | Outside that range the key collides: chunk positions (320000, 0) and (0, 32) share a key. |
| `ChunkStreaming.ChunkCoord` | ChunkManager.cs:48 | The camera's chunk coordinate is the quotient by 32 rounded toward zero. |
| `ChunkStreaming.ChunkCoordNotFloor` | ChunkManager.cs:66 | Truncation differs from flooring: a camera at -1 is in chunk 0, not chunk -1. |
| `ChunkStreaming.CameraChunk` | ChunkManager.cs:48 | Each coordinate of the camera's chunk is the camera coordinate divided by 32 and rounded toward zero (also line 66). |
| `ChunkStreaming.OutOfRange` | ChunkManager.cs:70-71 | A chunk is kept exactly when its own chunk coordinate, truncated the same way, lies strictly within 8 chunks of the camera's chunk in both X and Z. |
| `ChunkStreaming.WindowPos` | ChunkManager.cs:55 | The position built for offset (a, b) lies in chunk (cur.x + a, cur.y + b) (also line 83). |
| `ChunkStreaming.WindowNotFar` | ChunkManager.cs:68-83 | A chunk at any window position passes the eviction test, so an eviction pass at the same camera keeps it. |
| `ChunkStreaming.WindowKeysDistinct` | ChunkManager.cs:55-58 | Within one window the 64 positions have distinct keys, wherever the window is, 32-bit wrap-around included. |
| `ChunkStreaming.WindowAtIndex` | ChunkManager.cs:50-52 | The nested x/y loops visit offset (x, y) at step (x+4)·8 + (y+4). |
| `ChunkStreaming.WindowAtDistinct` | ChunkManager.cs:50-58 | The positions visited at two different steps have different keys. |
| `ChunkStreaming.EvictPass` | ChunkManager.cs:68-75 | One pass removes at most every other chunk: the result is no longer than the input, and the input is at most twice the result plus one. This follows from the skip after each RemoveAt. |
| `ChunkStreaming.EvictKeepsNear` | ChunkManager.cs:68-75 | The eviction pass never removes a chunk in range and never reorders. The chunks in range after it are those before it, in order. |
| `ChunkStreaming.EvictAddsNothing` | ChunkManager.cs:68-75 | The eviction pass adds nothing: its result is a sub-multiset of its input. |
| `ChunkStreaming.EvictCompleteWithoutFarPairs` | ChunkManager.cs:68-75 | When no two far chunks are adjacent, one pass removes exactly the far chunks. |
| `ChunkStreaming.EvictSkipsAfterRemoval` | ChunkManager.cs:73 | RemoveAt(i) followed by i++ skips the next element: of two distinct adjacent far chunks, the pass removes the first and keeps the second. |
| `ChunkStreaming.FillStep` | ChunkManager.cs:55-58 | During the constructor's fill, each new window position's key is not yet loaded, so no earlier chunk is overwritten. |
| `ChunkStreaming.FilledConsistent` | ChunkManager.cs:50-60 | After the fill, the bookkeeping is consistent: every entry sits under its own key, every active chunk is loaded, and none is active twice. |
| `ChunkStreaming.EvictRemoveStep` | ChunkManager.cs:73 | Removing a far chunk at i and moving to i+1 keeps the eviction loop on its one-pass result. |
| `ChunkStreaming.EvictKeepStep` | ChunkManager.cs:70-71 | Stepping over a chunk in range keeps the eviction loop on its one-pass result. |
| `ChunkStreaming.RemovePreserves` | ChunkManager.cs:73 | RemoveAt keeps the bookkeeping consistent. |
| `ChunkStreaming.ConsistentAddNew` | ChunkManager.cs:88-90 | Adding a new chunk with a fresh id under a free key keeps the bookkeeping consistent. |
| `ChunkStreaming.ConsistentReactivate` | ChunkManager.cs:94-97 | Re-adding a loaded chunk that is not active keeps the bookkeeping consistent and adds no duplicate. |
| `ChunkStreaming.OnlyGrowsInsert` | ChunkManager.cs:85-90 | Inserting under an absent key keeps old entries unchanged, and the new entry is a new chunk at a window position. |
| `ChunkStreaming.LoadNewStep` | ChunkManager.cs:85-91 | The branch for a key not yet loaded keeps the load loop's invariant and loads and activates that window position. |
| `ChunkStreaming.LoadReactivateStep` | ChunkManager.cs:94-98 | The branch for a loaded, inactive chunk keeps the invariant and activates that window position. |
| `ChunkStreaming.LoadKeepStep` | ChunkManager.cs:94 | A window chunk that is loaded and active needs nothing. |
| `ChunkStreaming.LoadNextRow` | ChunkManager.cs:77-79 | The end of an inner y loop is the start of the next x row. |
| `ChunkStreaming.ChunkManager.constructor` | ChunkManager.cs:33-61 | It creates exactly 64 chunks, one per window offset, in x-outer/y-inner order with fresh ids. Chunk i is active at index i and loaded under its own key, so 64 entries are loaded. |
| `ChunkStreaming.ChunkManager.Update` | ChunkManager.cs:63-102 | After Update: every window position's key is loaded and its chunk is active; the eviction pass's result is a prefix of the active list; every appended chunk is stored under a window key; loaded entries are never removed or overwritten; new entries are fresh chunks at window positions; and the bookkeeping stays consistent, so no chunk is active twice. |
| `ChunkStreaming.ChunkManager.EvictFar` | ChunkManager.cs:68-75 | The eviction loop leaves exactly `EvictPass` of the old list, skip included. It touches neither the dictionary nor any other field. |
| `ChunkStreaming.ChunkManager.LoadWindow` | ChunkManager.cs:77-101 | The load loop covers every window offset. It only appends to the active list and only inserts under absent keys. |

## Left out

- Floating point: the camera, vertex positions and uvs are floats in the source and integers here.
  - The camera X/Z that `Update` and the constructor take stands for the float camera already truncated toward zero. This gives the same chunk, because truncating trunc(f)/32 toward zero equals truncating f/32 toward zero.
  - Vertex positions, uvs and chunk positions are whole numbers. A float holds whole numbers exactly only up to 2^24 in magnitude. The model does not capture rounding beyond that, nor the `(int)` cast of floats outside int's range.
- Chunk.cs: terrain generation through FastNoiseLite, a foreign library that is not modelled, plus GPU buffer setup and drawing. The chunk is a record with exactly the members the mesher reads: ChunkSize, ChunkHeight, Blocks and Pos. The shown Chunk.cs does not expose them.
- `ChunkRef`: the chunk manager never looks inside a chunk, so a chunk there is its identity and position only.
- `ChunkManager.RenderActiveChunks` and `Chunk.Render`: GL draw calls.
- The noise setup in the constructor (random seed, noise parameters).
- The `Console.WriteLine` calls in `Update`.
- Game.cs, Program.cs, Shader.cs, Camera.cs, Transform.cs, Cube.cs and FileHelper.cs: windowing, GL state, input-driven float math, a constant table and file paths.
- `Mesher.GreedyMesher.GenerateMesh`: the source returns `_mesh`, a struct that holds references to the same two lists. The caller's copy therefore keeps growing when the mesher is used again. The model returns the mesh as a value, a snapshot at return time, and does not capture that aliasing.
- The six sweep routines are one method, `SweepDir`, parametrised by the direction. `Update`'s two loops are the two methods `EvictFar` and `LoadWindow`, called in the source's order.
- `Mesher.GreedyMesher.QuadAt`: the rectangle it returns is ghost. The source keeps its sizes only in the quad it emits.
- The mesh's `Vertices`/`Indices` lists are sequences in the `mesh` field, reassigned by each append.
