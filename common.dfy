/**
 * The value types of common.h shared by the CPU prototype (main.cpp, mesh.cpp).
 * Colours and positions are real vectors; a `Material*` is modelled by the
 * material value it points at, and an absent or indeterminate one by None.
 */
module Common {
  import opened Vectors
  import opened Wrappers

  datatype Ray = Ray(position: Vec3, direction: Vec3)

  datatype Material = Material(color: Vec3, emissionColor: Vec3, emissionStrength: real, metalness: real)

  datatype Sphere = Sphere(center: Vec3, radius: real, material: Material)

  datatype Plane = Plane(position: Vec3, normal: Vec3, material: Material)

  datatype Triangle = Triangle(v0: Vec3, v1: Vec3, v2: Vec3)

  datatype Vertex = Vertex(position: Vec3, normal: Vec3, uv: Vec2)

  datatype RayHit = RayHit(position: Vec3, normal: Vec3, distance: real, material: Option<Material>)

  /** The "nothing hit yet" distance `1e30f`, as the exact value of that float. */
  const Far: real := 1000000015047466219876688855040.0
}
