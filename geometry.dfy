/**
 * Integer vectors standing for the engine's Vector3 and Vector2.
 * Every coordinate the mesher and the chunk manager compute is
 * integer-valued (block indices, multiples of the chunk size), so the
 * model uses unbounded integers instead of floats.
 */
module Geometry {

  datatype Vec3 = Vec3(x: int, y: int, z: int) {

    function Add(o: Vec3): Vec3 {
      Vec3(x + o.x, y + o.y, z + o.z)
    }

    function Sub(o: Vec3): Vec3 {
      Vec3(x - o.x, y - o.y, z - o.z)
    }

    function Scale(k: int): Vec3 {
      Vec3(x * k, y * k, z * k)
    }
  }

  datatype Vec2 = Vec2(x: int, y: int)

  /** Right-handed cross product. */
  function Cross(a: Vec3, b: Vec3): Vec3 {
    Vec3(a.y * b.z - a.z * b.y, a.z * b.x - a.x * b.z, a.x * b.y - a.y * b.x)
  }
}
