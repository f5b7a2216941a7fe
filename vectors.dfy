// Vector algebra over the reals. The renderer's own vec3.h is not part of this
// model; the operations below are the conventional ones it provides (sum,
// difference, scaling, component-wise product, dot and cross products,
// reflection and refraction about a normal).

module Options {
  datatype Option<+T> = None | Some(value: T)
}

module Vectors {

  datatype Vec3 = Vec3(x: real, y: real, z: real) {

    function Plus(b: Vec3): Vec3 { Vec3(x + b.x, y + b.y, z + b.z) }

    function Minus(b: Vec3): Vec3 { Vec3(x - b.x, y - b.y, z - b.z) }

    function Neg(): Vec3 { Vec3(-x, -y, -z) }

    /** t * v */
    function Scale(t: real): Vec3 { Vec3(t * x, t * y, t * z) }

    /** v / t */
    function Div(t: real): Vec3
      requires t != 0.0
    {
      Vec3(x / t, y / t, z / t)
    }

    /** Component-wise product, as used for colours. */
    function Times(b: Vec3): Vec3 { Vec3(x * b.x, y * b.y, z * b.z) }

    function Dot(b: Vec3): real { x * b.x + y * b.y + z * b.z }

    function Cross(b: Vec3): Vec3 {
      Vec3(y * b.z - z * b.y, z * b.x - x * b.z, x * b.y - y * b.x)
    }

    function LengthSquared(): real { x * x + y * y + z * z }
  }

  type Point3 = Vec3
  type Color = Vec3

  const Zero: Vec3 := Vec3(0.0, 0.0, 0.0)
  const White: Color := Vec3(1.0, 1.0, 1.0)

  /** The square root of the C library, given to the model as a function
      that returns the non-negative root of every non-negative argument. */
  ghost predicate IsSqrt(sqrt: real -> real) {
    forall a: real :: 0.0 <= a ==> 0.0 <= sqrt(a) && sqrt(a) * sqrt(a) == a
  }

  /** Every component at least 0, as colours and powers are. */
  predicate NonNegative(c: Vec3) {
    0.0 <= c.x && 0.0 <= c.y && 0.0 <= c.z
  }

  /** a * a, kept as a named term so that squares stay atoms for the solver. */
  function Sq(a: real): real { a * a }

  lemma SqNonNegative(a: real)
    ensures 0.0 <= Sq(a)
    ensures a != 0.0 ==> 0.0 < Sq(a)
  {
    if a != 0.0 {
      calc {
        Sq(a);
        a * a;
      > 0.0;
      }
    }
  }

  lemma MulNonNegative(a: real, b: real)
    requires 0.0 <= a && 0.0 <= b
    ensures 0.0 <= a * b
  {
  }

  lemma PositiveProduct(a: real, b: real)
    requires 0.0 < a && 0.0 < b
    ensures 0.0 < a * b
  {
  }

  /** Multiplying by a positive number keeps the sign: x * c == a with
      c > 0 has x and a of the same sign. */
  lemma ProductSign(x: real, c: real, a: real)
    requires c > 0.0 && x * c == a
    ensures 0.0 < x <==> 0.0 < a
    ensures 0.0 <= x <==> 0.0 <= a
  {
    if x > 0.0 {
      PositiveProduct(x, c);
    } else {
      MulNonNegative(-x, c);
      assert (-x) * c == -a;
      if x < 0.0 {
        PositiveProduct(-x, c);
      }
    }
  }

  lemma SqMonotone(a: real, b: real)
    requires 0.0 <= a < b
    ensures Sq(a) < Sq(b)
  {
    var p, q := a * (b - a), b * (b - a);
    assert 0.0 <= p;
    assert 0.0 < q;
    assert p == a * b - Sq(a);
    assert q == Sq(b) - a * b;
  }

  /** Non-negative square roots are unique. */
  lemma SqInjective(a: real, b: real)
    requires 0.0 <= a && 0.0 <= b && Sq(a) == Sq(b)
    ensures a == b
  {
    if a < b {
      SqMonotone(a, b);
    } else if b < a {
      SqMonotone(b, a);
    }
  }

  lemma SqrtOfSq(sqrt: real -> real, a: real)
    requires IsSqrt(sqrt)
    requires 0.0 <= a
    ensures sqrt(Sq(a)) == a
  {
    SqNonNegative(a);
    var s := sqrt(Sq(a));
    assert 0.0 <= s && s * s == Sq(a);
    assert Sq(s) == Sq(a);
    SqInjective(s, a);
  }

  lemma SqrtOfOne(sqrt: real -> real)
    requires IsSqrt(sqrt)
    ensures sqrt(1.0) == 1.0
  {
    assert Sq(1.0) == 1.0;
    SqrtOfSq(sqrt, 1.0);
  }

  lemma LengthSquaredNonNegative(v: Vec3)
    ensures v.LengthSquared() >= 0.0
    ensures v.LengthSquared() == 0.0 <==> v == Zero
  {
    SqNonNegative(v.x);
    SqNonNegative(v.y);
    SqNonNegative(v.z);
    assert v.LengthSquared() == Sq(v.x) + Sq(v.y) + Sq(v.z);
  }

  lemma NegLengthSquared(v: Vec3)
    ensures v.Neg().LengthSquared() == v.LengthSquared()
  {
  }

  /** 1 / |v|, the factor by which unit_vector scales v. */
  function InverseLength(v: Vec3, sqrt: real -> real): (k: real)
    requires IsSqrt(sqrt)
    requires v != Zero
    ensures 0.0 < k
    ensures Sq(k) * v.LengthSquared() == 1.0
  {
    LengthSquaredNonNegative(v);
    var l := sqrt(v.LengthSquared());
    assert l * l == v.LengthSquared() > 0.0;
    assert l != 0.0;
    var k := 1.0 / l;
    assert k * l == 1.0;
    assert Sq(k) * (l * l) == (k * l) * (k * l);
    k
  }

  /** unit_vector(v) = v / |v|, where v / t is (1/t) v. */
  function UnitVector(v: Vec3, sqrt: real -> real): (u: Vec3)
    requires IsSqrt(sqrt)
    requires v != Zero
    ensures u.LengthSquared() == 1.0
    ensures u == v.Scale(InverseLength(v, sqrt))
  {
    var k := InverseLength(v, sqrt);
    var u := v.Scale(k);
    assert u.LengthSquared() == Sq(k) * v.LengthSquared();
    u
  }

  lemma ScaleDot(v: Vec3, w: Vec3, k: real)
    ensures v.Scale(k).Dot(w) == k * v.Dot(w)
  {
  }

  /** Normalising a vector does not change the sign of its dot products. */
  lemma UnitVectorDotSign(v: Vec3, w: Vec3, sqrt: real -> real)
    requires IsSqrt(sqrt)
    requires v != Zero
    ensures UnitVector(v, sqrt).Dot(w) < 0.0 <==> v.Dot(w) < 0.0
    ensures UnitVector(v, sqrt).Dot(w) > 0.0 <==> v.Dot(w) > 0.0
  {
    var k := InverseLength(v, sqrt);
    ScaleDot(v, w, k);
    var d := v.Dot(w);
    if d < 0.0 {
      assert k * d < 0.0;
    } else if d > 0.0 {
      assert k * d > 0.0;
    } else {
      assert k * d == 0.0;
    }
  }

  /** A vector of unit length is its own unit vector. */
  lemma UnitVectorOfUnit(v: Vec3, sqrt: real -> real)
    requires IsSqrt(sqrt)
    requires v.LengthSquared() == 1.0
    ensures v != Zero
    ensures UnitVector(v, sqrt) == v
  {
    LengthSquaredNonNegative(v);
    SqrtOfOne(sqrt);
    assert sqrt(v.LengthSquared()) == 1.0;
  }

  /** reflect(v, n) = v - 2 (v . n) n */
  function Reflect(v: Vec3, n: Vec3): Vec3 {
    v.Minus(n.Scale(2.0 * v.Dot(n)))
  }

  function Abs(a: real): real { if a < 0.0 then -a else a }

  function Min(a: real, b: real): real { if a < b then a else b }

  function Max(a: real, b: real): real { if a < b then b else a }

  /** refract(uv, n, eta): the perpendicular part eta (uv + cos n) plus the
      parallel part -sqrt(|1 - |perp|^2|) n, with cos = min(-uv . n, 1). */
  function Refract(uv: Vec3, n: Vec3, eta: real, sqrt: real -> real): Vec3
    requires IsSqrt(sqrt)
  {
    var cosTheta := Min(uv.Neg().Dot(n), 1.0);
    var perp := uv.Plus(n.Scale(cosTheta)).Scale(eta);
    var parallel := n.Scale(-sqrt(Abs(1.0 - perp.LengthSquared())));
    perp.Plus(parallel)
  }

  /** near_zero(): every component below 1e-8 in magnitude. */
  predicate NearZero(v: Vec3) {
    Abs(v.x) < 0.00000001 && Abs(v.y) < 0.00000001 && Abs(v.z) < 0.00000001
  }

  lemma MirrorDirection(v: Vec3, n: Vec3)
    requires n.LengthSquared() == 1.0
    ensures Reflect(v, n).Dot(n) == -v.Dot(n)
  {
    var d := v.Dot(n);
    calc {
      Reflect(v, n).Dot(n);
      v.Dot(n) - 2.0 * d * n.LengthSquared();
      -d;
    }
  }

  lemma ReflectPreservesLength(v: Vec3, n: Vec3)
    requires n.LengthSquared() == 1.0
    ensures Reflect(v, n).LengthSquared() == v.LengthSquared()
  {
    var d := v.Dot(n);
    var r := Reflect(v, n);
    assert r.LengthSquared() == v.LengthSquared() - 4.0 * d * v.Dot(n) + 4.0 * d * d * n.LengthSquared();
  }

  /** At normal incidence (uv = -n with |n| = 1) refraction leaves the
      direction unchanged, whatever the ratio of indices. */
  lemma RefractNormalIncidence(n: Vec3, eta: real, sqrt: real -> real)
    requires IsSqrt(sqrt)
    requires n.LengthSquared() == 1.0
    ensures Refract(n.Neg(), n, eta, sqrt) == n.Neg()
  {
    var uv := n.Neg();
    assert uv.Neg().Dot(n) == 1.0;
    var perp := uv.Plus(n.Scale(1.0)).Scale(eta);
    assert perp == Zero;
    SqrtOfOne(sqrt);
  }
}

module Boxes {
  import opened Vectors

  /** An axis-aligned box given by its two corners (aabb.h is not part of
      this model; a box is six reals). */
  datatype Aabb = Aabb(minimum: Point3, maximum: Point3)

  predicate ContainsPoint(b: Aabb, p: Point3) {
    b.minimum.x <= p.x <= b.maximum.x &&
    b.minimum.y <= p.y <= b.maximum.y &&
    b.minimum.z <= p.z <= b.maximum.z
  }

  predicate ContainsBox(outer: Aabb, inner: Aabb) {
    outer.minimum.x <= inner.minimum.x && inner.maximum.x <= outer.maximum.x &&
    outer.minimum.y <= inner.minimum.y && inner.maximum.y <= outer.maximum.y &&
    outer.minimum.z <= inner.minimum.z && inner.maximum.z <= outer.maximum.z
  }

  /** surrounding_box: the component-wise hull of two boxes. */
  function SurroundingBox(a: Aabb, b: Aabb): (u: Aabb)
    ensures ContainsBox(u, a) && ContainsBox(u, b)
    ensures forall c: Aabb :: ContainsBox(c, a) && ContainsBox(c, b) ==> ContainsBox(c, u)
  {
    Aabb(Vec3(Min(a.minimum.x, b.minimum.x), Min(a.minimum.y, b.minimum.y), Min(a.minimum.z, b.minimum.z)),
         Vec3(Max(a.maximum.x, b.maximum.x), Max(a.maximum.y, b.maximum.y), Max(a.maximum.z, b.maximum.z)))
  }

  lemma ContainsBoxTransitive(a: Aabb, b: Aabb, c: Aabb)
    requires ContainsBox(a, b) && ContainsBox(b, c)
    ensures ContainsBox(a, c)
  {
  }
}
