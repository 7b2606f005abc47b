/**
 * The value types the mesher reads and writes: blocks, the chunk record,
 * quads, vertices and meshes.
 */
module Voxel {
  import opened Geometry

  /** The block material enum; its integer values are the ones the source casts to. */
  datatype BlockType = Grass | Water | Snow

  /** The `(int)` cast of a block type: GRASS = 0, WATER = 1, SNOW = 2. */
  function TypeId(t: BlockType): (id: int)
    ensures 0 <= id < 3
  {
    match t
    case Grass => 0
    case Water => 1
    case Snow => 2
  }

  /** A block: an active flag and a material (new blocks are inactive grass). */
  datatype Block = Block(blockType: BlockType, active: bool)

  /**
   * The four members of a chunk the mesher reads: the X/Z extent, the
   * Y extent, the dense block grid indexed [x][y][z], and the world
   * position of the chunk's corner in the XZ plane.
   */
  datatype Chunk = Chunk(chunkSize: nat, chunkHeight: nat, blocks: seq<seq<seq<Block>>>, pos: Vec2) {

    /** The grid has the dimensions [chunkSize, chunkHeight, chunkSize]. */
    ghost predicate WellFormed() {
      && |blocks| == chunkSize
      && (forall x :: 0 <= x < chunkSize ==> |blocks[x]| == chunkHeight)
      && (forall x, y :: 0 <= x < chunkSize && 0 <= y < chunkHeight ==> |blocks[x][y]| == chunkSize)
    }

    predicate InBounds(p: Vec3) {
      0 <= p.x < chunkSize && 0 <= p.y < chunkHeight && 0 <= p.z < chunkSize
    }

    function BlockAt(p: Vec3): Block
      requires WellFormed() && InBounds(p)
    {
      blocks[p.x][p.y][p.z]
    }

    /** Whether there is an active block at p; a position outside the chunk holds none. */
    predicate ActiveAt(p: Vec3)
      requires WellFormed()
    {
      InBounds(p) && BlockAt(p).active
    }
  }

  /** A rectangle of merged block faces before it is expanded into vertices. */
  datatype Quad = Quad(start: Vec3, dirU: Vec3, dirV: Vec3, normal: Vec3, sizeU: int, sizeV: int)

  datatype Vertex = Vertex(pos: Vec3, normal: Vec3, uv: Vec2, typeId: int)

  /** The vertex list and the index list of a triangle mesh. */
  datatype Mesh = Mesh(vertices: seq<Vertex>, indices: seq<int>)
}
