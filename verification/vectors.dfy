/** Three-component vectors over the reals, standing in for the `Vec3`
    and `dot3` of the ray tracer's math package. Floating-point rounding is
    not modelled: every operation is exact. */
module Vectors {

  datatype Vec3 = Vec3(x: real, y: real, z: real)

  function Add(u: Vec3, v: Vec3): Vec3 {
    Vec3(u.x + v.x, u.y + v.y, u.z + v.z)
  }

  function Sub(u: Vec3, v: Vec3): Vec3 {
    Vec3(u.x - v.x, u.y - v.y, u.z - v.z)
  }

  /** Scalar times vector, as in `t * ray.direction`. */
  function Scale(k: real, v: Vec3): Vec3 {
    Vec3(k * v.x, k * v.y, k * v.z)
  }

  function Dot3(u: Vec3, v: Vec3): real {
    u.x * v.x + u.y * v.y + u.z * v.z
  }

  /** Componentwise `<=`, the order an axis-aligned box needs between its corners. */
  predicate LessEq(u: Vec3, v: Vec3) {
    u.x <= v.x && u.y <= v.y && u.z <= v.z
  }
}
