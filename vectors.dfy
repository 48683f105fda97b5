// Three-component vectors and 3x3 matrices over the reals, standing in for
// javax.vecmath's Vector3d, Point3d and Matrix3d.

module Vectors {

  datatype Vec3 = Vec3(x: real, y: real, z: real)

  const Zero := Vec3(0.0, 0.0, 0.0)

  function Add(a: Vec3, b: Vec3): Vec3
  {
    Vec3(a.x + b.x, a.y + b.y, a.z + b.z)
  }

  function Sub(a: Vec3, b: Vec3): Vec3
  {
    Vec3(a.x - b.x, a.y - b.y, a.z - b.z)
  }

  function Scale(s: real, a: Vec3): Vec3
  {
    Vec3(s * a.x, s * a.y, s * a.z)
  }

  function Dot(a: Vec3, b: Vec3): real
  {
    a.x * b.x + a.y * b.y + a.z * b.z
  }

  /** A coordinate axis. */
  datatype Axis = X | Y | Z

  function Coord(p: Vec3, a: Axis): real
  {
    match a
    case X => p.x
    case Y => p.y
    case Z => p.z
  }

  /** Squared length; also `distanceSquared` to the origin. */
  function NormSq(a: Vec3): real
  {
    Dot(a, a)
  }

  /** The right-handed cross product a x b. */
  function Cross(a: Vec3, b: Vec3): Vec3
  {
    Vec3(a.y * b.z - a.z * b.y, a.z * b.x - a.x * b.z, a.x * b.y - a.y * b.x)
  }

  lemma NormSqNonNegative(a: Vec3)
    ensures NormSq(a) >= 0.0
  {
    assert a.x * a.x >= 0.0 && a.y * a.y >= 0.0 && a.z * a.z >= 0.0;
  }

  /** The cross product is orthogonal to both of its arguments. */
  lemma CrossOrthogonal(a: Vec3, b: Vec3)
    ensures Dot(Cross(a, b), a) == 0.0
    ensures Dot(Cross(a, b), b) == 0.0
  {
    var c := Cross(a, b);
    calc {
      Dot(c, a);
      (a.y * b.z - a.z * b.y) * a.x + (a.z * b.x - a.x * b.z) * a.y + (a.x * b.y - a.y * b.x) * a.z;
      a.x * a.y * b.z - a.x * a.z * b.y + a.y * a.z * b.x - a.x * a.y * b.z + a.x * a.z * b.y - a.y * a.z * b.x;
      0.0;
    }
    calc {
      Dot(c, b);
      (a.y * b.z - a.z * b.y) * b.x + (a.z * b.x - a.x * b.z) * b.y + (a.x * b.y - a.y * b.x) * b.z;
      a.y * b.x * b.z - a.z * b.x * b.y + a.z * b.x * b.y - a.x * b.y * b.z + a.x * b.y * b.z - a.y * b.x * b.z;
      0.0;
    }
  }

  /** Scalar triple product: a . (b x c) == b . (c x a). */
  lemma TripleProductRotate(a: Vec3, b: Vec3, c: Vec3)
    ensures Dot(a, Cross(b, c)) == Dot(b, Cross(c, a))
  {
    var t1, t2, t3 := a.x * b.y * c.z, a.x * b.z * c.y, a.y * b.z * c.x;
    var t4, t5, t6 := a.y * b.x * c.z, a.z * b.x * c.y, a.z * b.y * c.x;
    assert Dot(a, Cross(b, c)) == t1 - t2 + t3 - t4 + t5 - t6;
    assert b.x * (c.y * a.z - c.z * a.y) == t5 - t4;
    assert b.y * (c.z * a.x - c.x * a.z) == t1 - t6;
    assert b.z * (c.x * a.y - c.y * a.x) == t3 - t2;
  }

  /** Row-major 3x3 matrix; field mRC is row R, column C. */
  datatype Mat3 = Mat3(
    m00: real, m01: real, m02: real,
    m10: real, m11: real, m12: real,
    m20: real, m21: real, m22: real)

  const ZeroMat := Mat3(0.0, 0.0, 0.0, 0.0, 0.0, 0.0, 0.0, 0.0, 0.0)

  function MulVec(m: Mat3, u: Vec3): Vec3
  {
    Vec3(m.m00 * u.x + m.m01 * u.y + m.m02 * u.z,
         m.m10 * u.x + m.m11 * u.y + m.m12 * u.z,
         m.m20 * u.x + m.m21 * u.y + m.m22 * u.z)
  }

  predicate IsSkewSymmetric(m: Mat3)
  {
    m.m00 == 0.0 && m.m11 == 0.0 && m.m22 == 0.0 &&
    m.m01 == -m.m10 && m.m02 == -m.m20 && m.m12 == -m.m21
  }

  /** The cross-product ("hat") matrix of t: the skew-symmetric matrix that
      maps every u to t x u. */
  function Skew(t: Vec3): (m: Mat3)
    ensures IsSkewSymmetric(m)
    ensures forall u :: MulVec(m, u) == Cross(t, u)
  {
    Mat3(0.0, -t.z, t.y,
         t.z, 0.0, -t.x,
         -t.y, t.x, 0.0)
  }

  /** A skew-symmetric matrix is the hat matrix of exactly one vector. */
  lemma SkewInverse(m: Mat3)
    requires IsSkewSymmetric(m)
    ensures Skew(Vec3(m.m21, m.m02, m.m10)) == m
  {
  }

  /** `normalize`: t divided by its length len. The result is a unit vector
      pointing the same way as t. */
  function Normalised(t: Vec3, len: real): (u: Vec3)
    requires len > 0.0 && len * len == NormSq(t)
    ensures NormSq(u) == 1.0
    ensures Scale(len, u) == t
  {
    UnitAfterDivision(t, len);
    Scale(1.0 / len, t)
  }

  lemma UnitAfterDivision(t: Vec3, len: real)
    requires len > 0.0 && len * len == NormSq(t)
    ensures NormSq(Scale(1.0 / len, t)) == 1.0
    ensures Scale(len, Scale(1.0 / len, t)) == t
  {
    var c := 1.0 / len;
    assert c * len == 1.0;
    var u := Scale(c, t);
    assert u.x * u.x == (c * c) * (t.x * t.x);
    assert u.y * u.y == (c * c) * (t.y * t.y);
    assert u.z * u.z == (c * c) * (t.z * t.z);
    assert NormSq(u) == (c * c) * NormSq(t);
    assert (c * c) * (len * len) == (c * len) * (c * len);
    assert len * u.x == (len * c) * t.x;
    assert len * u.y == (len * c) * t.y;
    assert len * u.z == (len * c) * t.z;
  }

  /** A mutable vector object, for the vectors the source shares between
      bodies by reference. */
  class VecRef {
    var val: Vec3

    constructor (v: Vec3)
      ensures val == v
    {
      val := v;
    }
  }
}
