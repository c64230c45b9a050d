/** Integer grid vectors (the engine's Vector3Int and Vector2Int) and the
    box-membership test the solvers use for `Size.Contains(pos)`. */
module Vectors {

  datatype Vec3 = Vec3(x: int, y: int, z: int) {
    function Plus(o: Vec3): Vec3 { Vec3(x + o.x, y + o.y, z + o.z) }
    function Negate(): Vec3 { Vec3(-x, -y, -z) }
  }

  /** Two vectors are opposite when each component is; the solver finds
      this step hard inside larger proofs over literal tables. */
  lemma OppositeByComponents(a: Vec3, b: Vec3)
    requires a.x == -b.x && a.y == -b.y && a.z == -b.z
    ensures a == b.Negate()
  {
  }

  datatype Vec2 = Vec2(x: int, y: int) {
    function Plus(o: Vec2): Vec2 { Vec2(x + o.x, y + o.y) }
    function Negate(): Vec2 { Vec2(-x, -y) }
  }

  /** `size.Contains(p)`: every component of `p` lies in `[0, size)`. */
  predicate Contains3(size: Vec3, p: Vec3) {
    0 <= p.x < size.x && 0 <= p.y < size.y && 0 <= p.z < size.z
  }

  predicate Contains2(size: Vec2, p: Vec2) {
    0 <= p.x < size.x && 0 <= p.y < size.y
  }
}
