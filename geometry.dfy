/** The small part of Unity's vector arithmetic that the grid uses, over
    `real` as an idealisation of single-precision floats. */
module Geometry {

  datatype Vec2 = Vec2(x: real, y: real)

  datatype Vec3 = Vec3(x: real, y: real, z: real)

  const Zero2: Vec2 := Vec2(0.0, 0.0)
  const Zero3: Vec3 := Vec3(0.0, 0.0, 0.0)

  function Add(a: Vec3, b: Vec3): Vec3
  {
    Vec3(a.x + b.x, a.y + b.y, a.z + b.z)
  }

  function Sub(a: Vec3, b: Vec3): Vec3
  {
    Vec3(a.x - b.x, a.y - b.y, a.z - b.z)
  }

  /** `v.magnitude > 0`: the Euclidean length is positive exactly when some
      component is nonzero. */
  predicate HasMagnitude(v: Vec2)
  {
    v.x != 0.0 || v.y != 0.0
  }

  function Abs(x: real): (r: real)
    ensures r >= 0.0 && (r == x || r == -x)
  {
    if x < 0.0 then -x else x
  }

  /** `Math.Round(double)`: round to the nearest integer, and to the even
      neighbour when `x` lies exactly halfway between two integers. */
  function RoundHalfEven(x: real): (n: int)
    ensures Abs(x - n as real) <= 0.5
    ensures Abs(x - n as real) == 0.5 ==> n % 2 == 0
  {
    var f := x.Floor;
    var frac := x - f as real;
    if frac < 0.5 then f
    else if frac > 0.5 then f + 1
    else if f % 2 == 0 then f
    else f + 1
  }

  /** Rounding leaves integral values unchanged. */
  lemma RoundOfInteger(n: int)
    ensures RoundHalfEven(n as real) == n
  {
    var r := RoundHalfEven(n as real);
    assert Abs(n as real - r as real) <= 0.5;
  }

  /** No integer is nearer to `x` than its rounded value. */
  lemma RoundIsNearest(x: real, m: int)
    ensures Abs(x - RoundHalfEven(x) as real) <= Abs(x - m as real)
  {
    var n := RoundHalfEven(x);
    if m > n {
      assert m as real >= n as real + 1.0;
      assert x - m as real <= -0.5;
    } else if m < n {
      assert m as real <= n as real - 1.0;
      assert x - m as real >= 0.5;
    }
  }
}
