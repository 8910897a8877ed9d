/** Three-component real vectors, the only vector arithmetic the analysed
    code needs. Euclidean norms involve a square root and are therefore
    passed to the operations that need them as a parameter `norm`. */
module Geometry {

  datatype Vec3 = Vec3(x: real, y: real, z: real)

  const Zero: Vec3 := Vec3(0.0, 0.0, 0.0)

  function Add(a: Vec3, b: Vec3): Vec3 { Vec3(a.x + b.x, a.y + b.y, a.z + b.z) }

  function Sub(a: Vec3, b: Vec3): Vec3 { Vec3(a.x - b.x, a.y - b.y, a.z - b.z) }

  function Scale(a: Vec3, k: real): Vec3 { Vec3(a.x * k, a.y * k, a.z * k) }

  /** Squared Euclidean length. */
  function Norm2(a: Vec3): real { a.x * a.x + a.y * a.y + a.z * a.z }

  /** Mirror image in the plane z = 0. */
  function ReflectZ(a: Vec3): Vec3 { Vec3(a.x, a.y, -a.z) }

  /** The difference of two points is unchanged when both are moved by the
      same displacement. */
  lemma SubShift(a: Vec3, b: Vec3, d: Vec3)
    ensures Sub(Sub(a, d), Sub(b, d)) == Sub(a, b)
  {
  }

  lemma ReflectZInvolution(a: Vec3)
    ensures ReflectZ(ReflectZ(a)) == a
  {
  }
}
