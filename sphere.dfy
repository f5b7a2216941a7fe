// Ray-sphere intersection (sphere.h). Substituting the ray into
// |p - center|^2 = radius^2 gives a t^2 + 2 half_b t + c = 0, whose
// discriminant half_b^2 - a c decides whether the ray meets the sphere.

module Quadratics {
  import opened Vectors

  /** a t^2 + 2 hb t + c */
  function Quadratic(a: real, hb: real, c: real, t: real): real {
    a * Sq(t) + 2.0 * hb * t + c
  }

  lemma ZeroProduct(p: real, q: real)
    requires p * q == 0.0
    ensures p == 0.0 || q == 0.0
  {
    if p != 0.0 {
      assert q == (p * q) / p;
    }
  }

  /** With s^2 = hb^2 - a c the quadratic factors through its two roots. */
  lemma Factor(a: real, hb: real, c: real, s: real, t: real)
    requires a > 0.0
    requires Sq(s) == Sq(hb) - a * c
    ensures Quadratic(a, hb, c, t) == a * ((t - (-hb - s) / a) * (t - (-hb + s) / a))
  {
    var t1, t2 := (-hb - s) / a, (-hb + s) / a;
    assert a * t1 == -hb - s;
    assert a * t2 == -hb + s;
    var x := a * t + hb;
    var lhs := a * ((t - t1) * (t - t2));
    assert a * lhs == (a * t - a * t1) * (a * t - a * t2);
    assert (a * t - a * t1) * (a * t - a * t2) == (x + s) * (x - s);
    assert (x + s) * (x - s) == Sq(x) - Sq(s);
    assert Sq(x) == a * a * Sq(t) + 2.0 * a * hb * t + Sq(hb);
    assert a * lhs == a * Quadratic(a, hb, c, t);
  }

  /** The only zeros are the two roots (-hb -+ s) / a, the first no greater. */
  lemma Roots(a: real, hb: real, c: real, s: real, t: real)
    requires a > 0.0 && 0.0 <= s
    requires Sq(s) == Sq(hb) - a * c
    ensures (-hb - s) / a <= (-hb + s) / a
    ensures Quadratic(a, hb, c, t) == 0.0 <==> t == (-hb - s) / a || t == (-hb + s) / a
  {
    var t1, t2 := (-hb - s) / a, (-hb + s) / a;
    assert t1 <= t2 by {
      assert t2 - t1 == (2.0 * s) / a;
    }
    Factor(a, hb, c, s, t);
    var p := (t - t1) * (t - t2);
    if t == t1 || t == t2 {
      assert p == 0.0;
    }
    if Quadratic(a, hb, c, t) == 0.0 {
      ZeroProduct(a, p);
      ZeroProduct(t - t1, t - t2);
    }
  }

  /** A negative discriminant leaves the quadratic without zeros. */
  lemma NoRoots(a: real, hb: real, c: real, t: real)
    requires a > 0.0
    requires Sq(hb) - a * c < 0.0
    ensures Quadratic(a, hb, c, t) != 0.0
  {
    var x := a * t + hb;
    assert a * Quadratic(a, hb, c, t) == Sq(x) - (Sq(hb) - a * c) by {
      assert Sq(x) == a * a * Sq(t) + 2.0 * a * hb * t + Sq(hb);
    }
    SqNonNegative(x);
  }
}

module Spheres {
  import opened Options
  import opened Vectors
  import opened Boxes
  import opened Utils
  import opened Rays
  import opened Materials
  import opened HitRecords
  import opened Quadratics

  datatype Sphere = Sphere(center: Point3, radius: real, mat: Option<Material>)

  /** p lies on the sphere's surface. */
  predicate OnSurface(s: Sphere, p: Point3) {
    p.Minus(s.center).LengthSquared() == Sq(s.radius)
  }

  /** The ray meets the surface at parameter t. */
  predicate MeetsAt(s: Sphere, r: Ray, t: real) {
    OnSurface(s, r.At(t))
  }

  /** The three coefficients of sphere.h: a = |dir|^2,
      half_b = (orig - center) . dir, c = |orig - center|^2 - radius^2. */
  function CoefA(r: Ray): real { r.dir.LengthSquared() }

  function CoefHalfB(s: Sphere, r: Ray): real { r.orig.Minus(s.center).Dot(r.dir) }

  function CoefC(s: Sphere, r: Ray): real { r.orig.Minus(s.center).LengthSquared() - Sq(s.radius) }

  function Discriminant(s: Sphere, r: Ray): real {
    Sq(CoefHalfB(s, r)) - CoefA(r) * CoefC(s, r)
  }

  /** Substituting the ray into the sphere equation gives the quadratic. */
  lemma SurfaceEquation(s: Sphere, r: Ray, t: real)
    ensures r.At(t).Minus(s.center).LengthSquared() - Sq(s.radius)
            == Quadratic(CoefA(r), CoefHalfB(s, r), CoefC(s, r), t)
    ensures MeetsAt(s, r, t) <==> Quadratic(CoefA(r), CoefHalfB(s, r), CoefC(s, r), t) == 0.0
  {
    var oc, d := r.orig.Minus(s.center), r.dir;
    var w := r.At(t).Minus(s.center);
    assert w == oc.Plus(d.Scale(t));
    assert w.LengthSquared() == oc.LengthSquared() + 2.0 * t * oc.Dot(d) + Sq(t) * d.LengthSquared();
  }

  /** The outward normal (p - center) / radius. */
  function OutwardNormal(s: Sphere, p: Point3): (n: Vec3)
    requires s.radius != 0.0
    ensures OnSurface(s, p) ==> n.LengthSquared() == 1.0
  {
    var k := 1.0 / s.radius;
    var n := p.Minus(s.center).Scale(k);
    assert n.LengthSquared() == Sq(k) * p.Minus(s.center).LengthSquared();
    assert Sq(k) * Sq(s.radius) == (k * s.radius) * (k * s.radius);
    n
  }

  /** The record sphere.h fills in for a hit at parameter t; `sphereUV`
      stands for get_sphere_uv, which turns the unit outward normal into
      (u, v) with acos and atan2. */
  function RecordAt(s: Sphere, r: Ray, t: real, sphereUV: Vec3 -> (real, real)): (rec: HitRecord)
    requires s.radius != 0.0
    ensures rec.t == t && rec.p == r.At(t) && rec.mat == s.mat
    ensures MeetsAt(s, r, t) ==> rec.normal.LengthSquared() == 1.0
    ensures r.dir.Dot(rec.normal) <= 0.0
  {
    var p := r.At(t);
    var outward := OutwardNormal(s, p);
    var (u, v) := sphereUV(outward);
    HitRecord(p, outward, s.mat, t, u, v, false).SetFaceNormal(r, outward)
  }

  /** Sphere::hit: the nearer root if it lies in [tMin, tMax], else the
      farther one if it does, else no hit. */
  function Hit(s: Sphere, r: Ray, tMin: real, tMax: Bound, sphereUV: Vec3 -> (real, real),
               sqrt: real -> real): (res: Option<HitRecord>)
    requires IsSqrt(sqrt)
    requires r.dir != Zero && s.radius != 0.0
    ensures Discriminant(s, r) < 0.0 ==> res.None?
    ensures res.Some? ==> tMin <= res.value.t && tMax.Admits(res.value.t)
    ensures res.Some? ==> MeetsAt(s, r, res.value.t)
    ensures res.Some? ==> res.value == RecordAt(s, r, res.value.t, sphereUV)
    ensures res.Some? ==> forall t :: tMin <= t && tMax.Admits(t) && MeetsAt(s, r, t) ==> res.value.t <= t
    ensures res.None? <==> forall t :: tMin <= t && tMax.Admits(t) ==> !MeetsAt(s, r, t)
  {
    var a, hb, c := CoefA(r), CoefHalfB(s, r), CoefC(s, r);
    LengthSquaredNonNegative(r.dir);
    var delta := Sq(hb) - a * c;
    if delta < 0.0 then
      assert forall t :: !MeetsAt(s, r, t) by {
        forall t ensures !MeetsAt(s, r, t) {
          SurfaceEquation(s, r, t);
          NoRoots(a, hb, c, t);
        }
      }
      None
    else
      var sqrtd := sqrt(delta);
      var near, far := (-hb - sqrtd) / a, (-hb + sqrtd) / a;
      assert forall t :: MeetsAt(s, r, t) <==> t == near || t == far by {
        forall t ensures MeetsAt(s, r, t) <==> t == near || t == far {
          SurfaceEquation(s, r, t);
          Roots(a, hb, c, sqrtd, t);
        }
      }
      Roots(a, hb, c, sqrtd, near);
      if tMin <= near && tMax.Admits(near) then
        Some(RecordAt(s, r, near, sphereUV))
      else if tMin <= far && tMax.Admits(far) then
        Some(RecordAt(s, r, far, sphereUV))
      else
        None
  }

  /** Bounding the parameter from above only removes hits beyond the bound:
      the hit under tMax is the unbounded hit if that one is admitted, and
      none otherwise. */
  lemma HitUnderBound(s: Sphere, r: Ray, tMin: real, tMax: Bound, sphereUV: Vec3 -> (real, real),
                      sqrt: real -> real)
    requires IsSqrt(sqrt)
    requires r.dir != Zero && s.radius != 0.0
    ensures var probe := Hit(s, r, tMin, Infinity, sphereUV, sqrt);
            Hit(s, r, tMin, tMax, sphereUV, sqrt)
            == if probe.Some? && tMax.Admits(probe.value.t) then probe else None
  {
    var probe := Hit(s, r, tMin, Infinity, sphereUV, sqrt);
    var bounded := Hit(s, r, tMin, tMax, sphereUV, sqrt);
    if probe.Some? && tMax.Admits(probe.value.t) {
      assert bounded.Some?;
      assert bounded.value.t <= probe.value.t;
      assert probe.value.t <= bounded.value.t;
    }
  }

  /** A ray travelling down the z axis towards a sphere from height h above
      its centre meets it first at t = h - radius, in the sphere's top point,
      whose normal is +z. With the unit sphere at the origin and h = 5 this is
      the hit at t = 4 in (0, 0, 1) with normal (0, 0, 1). */
  lemma AxialHit(s: Sphere, h: real, sphereUV: Vec3 -> (real, real), sqrt: real -> real)
    requires IsSqrt(sqrt)
    requires 0.0 < s.radius && 0.001 <= h - s.radius
    ensures var r := Ray(s.center.Plus(Vec3(0.0, 0.0, h)), Vec3(0.0, 0.0, -1.0));
            var res := Hit(s, r, 0.001, Infinity, sphereUV, sqrt);
            res.Some? && res.value.t == h - s.radius
            && res.value.p == s.center.Plus(Vec3(0.0, 0.0, s.radius))
            && res.value.normal == Vec3(0.0, 0.0, 1.0) && res.value.frontFace
  {
    var r := Ray(s.center.Plus(Vec3(0.0, 0.0, h)), Vec3(0.0, 0.0, -1.0));
    var t0 := h - s.radius;
    var top := s.center.Plus(Vec3(0.0, 0.0, s.radius));
    assert r.At(t0) == top;
    assert top.Minus(s.center) == Vec3(0.0, 0.0, s.radius);
    assert Vec3(0.0, 0.0, s.radius).LengthSquared() == Sq(s.radius);
    assert MeetsAt(s, r, t0);
    HitNoLaterThan(s, r, 0.001, Infinity, sphereUV, sqrt, t0);
    var res := Hit(s, r, 0.001, Infinity, sphereUV, sqrt);
    AxialRoot(s, h, res.value.t);
    var k := 1.0 / s.radius;
    assert OutwardNormal(s, top) == Vec3(0.0, 0.0, s.radius).Scale(k);
    assert k * s.radius == 1.0;
  }

  lemma AxialRoot(s: Sphere, h: real, u: real)
    requires 0.0 < s.radius
    requires MeetsAt(s, Ray(s.center.Plus(Vec3(0.0, 0.0, h)), Vec3(0.0, 0.0, -1.0)), u)
    requires u <= h - s.radius
    ensures u == h - s.radius
  {
    var r := Ray(s.center.Plus(Vec3(0.0, 0.0, h)), Vec3(0.0, 0.0, -1.0));
    var w := h - u;
    var d := r.At(u).Minus(s.center);
    assert d.x == 0.0 && d.y == 0.0 && d.z == w;
    assert d.LengthSquared() == Sq(w);
    SqInjective(w, s.radius);
  }

  /** A surface point in range guarantees a hit no farther than it. */
  lemma HitNoLaterThan(s: Sphere, r: Ray, tMin: real, tMax: Bound, sphereUV: Vec3 -> (real, real),
                       sqrt: real -> real, t0: real)
    requires IsSqrt(sqrt)
    requires r.dir != Zero && s.radius != 0.0
    requires tMin <= t0 && tMax.Admits(t0) && MeetsAt(s, r, t0)
    ensures var res := Hit(s, r, tMin, tMax, sphereUV, sqrt);
            res.Some? && res.value.t <= t0 && MeetsAt(s, r, res.value.t)
            && res.value == RecordAt(s, r, res.value.t, sphereUV)
  {
  }

  /** Sphere::bounding_box: always present, center -/+ (r, r, r). */
  function BoundingBox(s: Sphere): (b: Aabb)
    ensures s.radius >= 0.0 ==> forall p :: OnSurface(s, p) ==> ContainsPoint(b, p)
  {
    var rv := Vec3(s.radius, s.radius, s.radius);
    var b := Aabb(s.center.Minus(rv), s.center.Plus(rv));
    assert s.radius >= 0.0 ==> forall p :: OnSurface(s, p) ==> ContainsPoint(b, p) by {
      if s.radius >= 0.0 {
        forall p | OnSurface(s, p) ensures ContainsPoint(b, p) {
          SurfaceWithinRadius(s, p);
        }
      }
    }
    b
  }

  lemma SurfaceWithinRadius(s: Sphere, p: Point3)
    requires s.radius >= 0.0 && OnSurface(s, p)
    ensures s.center.x - s.radius <= p.x <= s.center.x + s.radius
    ensures s.center.y - s.radius <= p.y <= s.center.y + s.radius
    ensures s.center.z - s.radius <= p.z <= s.center.z + s.radius
  {
    var w := p.Minus(s.center);
    SqNonNegative(w.x);
    SqNonNegative(w.y);
    SqNonNegative(w.z);
    assert Sq(w.x) + Sq(w.y) + Sq(w.z) == Sq(s.radius);
    AbsBelowRadius(w.x, s.radius);
    AbsBelowRadius(w.y, s.radius);
    AbsBelowRadius(w.z, s.radius);
  }

  lemma AbsBelowRadius(x: real, radius: real)
    requires radius >= 0.0 && Sq(x) <= Sq(radius)
    ensures -radius <= x <= radius
  {
    if x > radius {
      SqMonotone(radius, x);
    } else if x < -radius {
      assert Sq(x) == Sq(-x);
      SqMonotone(radius, -x);
    }
  }
}
