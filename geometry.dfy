/** Positions and the squared distances the engine uses for costs, heuristics and range tests.
    Single-precision floats are modelled as mathematical reals. */
module Geometry {

  datatype Vec3 = Vec3(x: real, y: real, z: real)

  /** Component-wise difference `a - b`. */
  function Sub(a: Vec3, b: Vec3): Vec3 {
    Vec3(a.x - b.x, a.y - b.y, a.z - b.z)
  }

  /** `Vector3.sqrMagnitude`. */
  function SqrMagnitude(v: Vec3): (r: real)
    ensures r >= 0.0
  {
    v.x * v.x + v.y * v.y + v.z * v.z
  }

  /** `(a - b).sqrMagnitude`, the measure behind cost, heuristic and nearest-node queries. */
  function SqrDistance(a: Vec3, b: Vec3): (r: real)
    ensures r >= 0.0
  {
    SqrMagnitude(Sub(a, b))
  }

  /** The squared distance does not depend on the direction it is measured in. */
  lemma SqrDistanceSymmetric(a: Vec3, b: Vec3)
    ensures SqrDistance(a, b) == SqrDistance(b, a)
  {
    var d, e := Sub(a, b), Sub(b, a);
    assert d.x * d.x == e.x * e.x && d.y * d.y == e.y * e.y && d.z * d.z == e.z * e.z;
  }

  /** A point is at squared distance zero from itself. */
  lemma SqrDistanceSelf(p: Vec3)
    ensures SqrDistance(p, p) == 0.0
  {
  }

  /** Two points on a line parallel to the x axis, more than one unit apart, are more than one squared
      unit apart. */
  lemma ApartAlongX(a: Vec3, b: Vec3)
    requires a.y == b.y && a.z == b.z && b.x - a.x > 1.0
    ensures SqrDistance(a, b) > 1.0
  {
    var v := Sub(a, b);
    assert SqrDistance(a, b) == v.x * v.x;
    SquareMonotonic(1.0, b.x - a.x);
    assert v.x * v.x == (b.x - a.x) * (b.x - a.x);
  }

  /** Comparing squared lengths against a squared radius is comparing the lengths themselves:
      for a non-negative length `d` and a positive radius `r`, `d * d < r * r` exactly when `d < r`. */
  lemma SquareMonotonic(d: real, r: real)
    requires d >= 0.0 && r > 0.0
    ensures d * d < r * r <==> d < r
  {
    var gap := r * r - d * d;
    assert gap == (r - d) * (r + d);
    if d < r {
      PositiveProduct(r - d, r + d);
    } else {
      NonPositiveProduct(r - d, r + d);
    }
  }

  lemma PositiveProduct(a: real, b: real)
    requires a > 0.0 && b > 0.0
    ensures a * b > 0.0
  {
  }

  lemma NonPositiveProduct(a: real, b: real)
    requires a <= 0.0 && b > 0.0
    ensures a * b <= 0.0
  {
    assert a * b == -((-a) * b);
  }
}
