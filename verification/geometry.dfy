/** Points of the scan plane and of the world, with exact reals standing in
    for the engine's single-precision floats. */
module Geometry {

  datatype Vec3 = Vec3(x: real, y: real, z: real)

  /** The zero vector, the default value of a freshly constructed record's position. */
  const Zero: Vec3 := Vec3(0.0, 0.0, 0.0)

  /** Squared length of a vector (Vector3.sqrMagnitude). */
  function SqrMagnitude(v: Vec3): real
  {
    v.x * v.x + v.y * v.y + v.z * v.z
  }

  /** Squaring is strictly increasing on the non-negative reals. */
  lemma SquareLess(a: real, b: real)
    requires 0.0 <= a < b
    ensures a * a < b * b
  {
    var e := b - a;
    assert b * b == a * a + 2.0 * a * e + e * e;
    assert a * e >= 0.0;
    assert e * e > 0.0;
  }
}
