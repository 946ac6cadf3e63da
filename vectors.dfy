/**
 * Three- and two-component vectors over the reals. The C++ code uses `float`
 * (`glm::vec3`, `Vec3`); only min/max, sums, halving, thirds and comparisons of
 * coordinates are modelled, so real arithmetic stands in for it (no rounding).
 */
module Vectors {
  datatype Vec3 = Vec3(x: real, y: real, z: real)
  datatype Vec2 = Vec2(x: real, y: real)

  function Min(a: real, b: real): real { if a <= b then a else b }
  function Max(a: real, b: real): real { if a >= b then a else b }

  /** Componentwise minimum, as `glm::min` on two vectors. */
  function MinV(a: Vec3, b: Vec3): Vec3 { Vec3(Min(a.x, b.x), Min(a.y, b.y), Min(a.z, b.z)) }

  /** Componentwise maximum, as `glm::max` on two vectors. */
  function MaxV(a: Vec3, b: Vec3): Vec3 { Vec3(Max(a.x, b.x), Max(a.y, b.y), Max(a.z, b.z)) }

  /** a <= b in every component. */
  predicate LessEq(a: Vec3, b: Vec3) { a.x <= b.x && a.y <= b.y && a.z <= b.z }
}
