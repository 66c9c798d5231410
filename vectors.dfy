/** Points and vectors over the reals, standing in for nalgebra's Point2/Vector2/Point3/Vector3
    of f32. Only the arithmetic the modelled code uses is defined. */
module Vectors {

  datatype Vec2 = Vec2(x: real, y: real)

  function Add2(a: Vec2, b: Vec2): Vec2 { Vec2(a.x + b.x, a.y + b.y) }
  function Sub2(a: Vec2, b: Vec2): Vec2 { Vec2(a.x - b.x, a.y - b.y) }
  function Scale2(k: real, a: Vec2): Vec2 { Vec2(k * a.x, k * a.y) }
  function Dot2(a: Vec2, b: Vec2): real { a.x * b.x + a.y * b.y }
  function NormSq2(a: Vec2): real { Dot2(a, a) }

  lemma NormSq2NonNeg(a: Vec2)
    ensures NormSq2(a) >= 0.0
  {
    assert a.x * a.x >= 0.0 && a.y * a.y >= 0.0;
  }

  datatype Vec3 = Vec3(x: real, y: real, z: real)

  const Zero3 := Vec3(0.0, 0.0, 0.0)

  function Add3(a: Vec3, b: Vec3): Vec3 { Vec3(a.x + b.x, a.y + b.y, a.z + b.z) }
  function Sub3(a: Vec3, b: Vec3): Vec3 { Vec3(a.x - b.x, a.y - b.y, a.z - b.z) }
  function Scale3(k: real, a: Vec3): Vec3 { Vec3(k * a.x, k * a.y, k * a.z) }

  /** `v0 + f * (v1 - v0)`, the linear interpolation nalgebra code writes out by hand. */
  function Lerp3(v0: Vec3, v1: Vec3, f: real): Vec3 { Add3(v0, Scale3(f, Sub3(v1, v0))) }

  /** Unit quaternions are kept as their four coefficients; the model never interprets them. */
  datatype Quat = Quat(w: real, i: real, j: real, k: real)
}
