// Ray-triangle intersection by the Moller-Trumbore method (triangle.h):
// solve orig + t dir = v0 + u (v1 - v0) + v (v2 - v0) by Cramer's rule.

module Triangles {
  import opened Options
  import opened Vectors
  import opened Boxes
  import opened Utils
  import opened Rays
  import opened Materials
  import opened HitRecords

  datatype Triangle = Triangle(v0: Point3, v1: Point3, v2: Point3, mat: Option<Material>) {
    function Edge1(): Vec3 { v1.Minus(v0) }
    function Edge2(): Vec3 { v2.Minus(v0) }
  }

  /** The culling threshold on |det|. */
  const Epsilon: real := 0.00000001

  /** det = (v1 - v0) . (dir x (v2 - v0)) */
  function Det(tri: Triangle, r: Ray): real {
    tri.Edge1().Dot(r.dir.Cross(tri.Edge2()))
  }

  /** Cramer's rule for orig + t dir = v0 + u e1 + v e2, with
      T = orig - v0: u = T . (dir x e2) / det, v = dir . (T x e1) / det and
      t = e2 . (T x e1) / det, each written as a product with 1 / det. */
  function BaryU(tri: Triangle, r: Ray): real
    requires Det(tri, r) != 0.0
  {
    NumU(tri, r) * (1.0 / Det(tri, r))
  }

  function BaryV(tri: Triangle, r: Ray): real
    requires Det(tri, r) != 0.0
  {
    NumV(tri, r) * (1.0 / Det(tri, r))
  }

  function Distance(tri: Triangle, r: Ray): real
    requires Det(tri, r) != 0.0
  {
    NumT(tri, r) * (1.0 / Det(tri, r))
  }

  /** The numerators of u, v and t. */
  function NumU(tri: Triangle, r: Ray): real {
    r.orig.Minus(tri.v0).Dot(r.dir.Cross(tri.Edge2()))
  }

  function NumV(tri: Triangle, r: Ray): real {
    r.dir.Dot(r.orig.Minus(tri.v0).Cross(tri.Edge1()))
  }

  function NumT(tri: Triangle, r: Ray): real {
    tri.Edge2().Dot(r.orig.Minus(tri.v0).Cross(tri.Edge1()))
  }

  /** The ray's point at t is the point of the triangle with barycentric
      coordinates (u, v). */
  predicate InsideAt(tri: Triangle, r: Ray, t: real, u: real, v: real) {
    0.0 <= u && 0.0 <= v && u + v <= 1.0 &&
    r.At(t) == tri.v0.Plus(tri.Edge1().Scale(u)).Plus(tri.Edge2().Scale(v))
  }

  /** The x component of det * T + tNum * dir == uNum * e1 + vNum * e2,
      with T = orig - v0. */
  lemma CramerX(tv: Vec3, d: Vec3, e1: Vec3, e2: Vec3)
    ensures e1.Dot(d.Cross(e2)) * tv.x + e2.Dot(tv.Cross(e1)) * d.x ==
            tv.Dot(d.Cross(e2)) * e1.x + d.Dot(tv.Cross(e1)) * e2.x
  {
  }

  /** The axes renamed y, z, x. */
  function Rotate(v: Vec3): (w: Vec3)
    ensures w.x == v.y && w.y == v.z && w.z == v.x
  {
    Vec3(v.y, v.z, v.x)
  }

  /** Renaming the axes commutes with the cross product and keeps the dot
      product. */
  lemma RotateProducts(a: Vec3, b: Vec3)
    ensures Rotate(a).Cross(Rotate(b)) == Rotate(a.Cross(b))
    ensures Rotate(a).Dot(Rotate(b)) == a.Dot(b)
  {
  }

  /** CramerX with the axes renamed: the y component. */
  lemma CramerRotated(tv: Vec3, d: Vec3, e1: Vec3, e2: Vec3)
    ensures e1.Dot(d.Cross(e2)) * tv.y + e2.Dot(tv.Cross(e1)) * d.y ==
            tv.Dot(d.Cross(e2)) * e1.y + d.Dot(tv.Cross(e1)) * e2.y
  {
    var rt, rd, r1, r2 := Rotate(tv), Rotate(d), Rotate(e1), Rotate(e2);
    CramerX(rt, rd, r1, r2);
    RotateProducts(rd, r2);
    RotateProducts(rt, r1);
    RotateProducts(d, e2);
    RotateProducts(tv, e1);
    RotateProducts(e1, d.Cross(e2));
    RotateProducts(tv, d.Cross(e2));
    RotateProducts(d, tv.Cross(e1));
    RotateProducts(e2, tv.Cross(e1));
  }

  /** det T + tNum dir == uNum e1 + vNum e2, component by component. */
  predicate CramerIdentity(tv: Vec3, d: Vec3, e1: Vec3, e2: Vec3, det: real, un: real, vn: real, tn: real) {
    det * tv.x + tn * d.x == un * e1.x + vn * e2.x &&
    det * tv.y + tn * d.y == un * e1.y + vn * e2.y &&
    det * tv.z + tn * d.z == un * e1.z + vn * e2.z
  }

  /** Cramer's rule, multiplied through by det. */
  lemma Cramer(tv: Vec3, d: Vec3, e1: Vec3, e2: Vec3, det: real, un: real, vn: real, tn: real)
    requires det == e1.Dot(d.Cross(e2)) && un == tv.Dot(d.Cross(e2))
    requires vn == d.Dot(tv.Cross(e1)) && tn == e2.Dot(tv.Cross(e1))
    ensures CramerIdentity(tv, d, e1, e2, det, un, vn, tn)
  {
    CramerX(tv, d, e1, e2);
    CramerRotated(tv, d, e1, e2);
    CramerRotated(Rotate(tv), Rotate(d), Rotate(e1), Rotate(e2));
    RotateProducts(d, e2);
    RotateProducts(tv, e1);
    RotateProducts(e1, d.Cross(e2));
    RotateProducts(tv, d.Cross(e2));
    RotateProducts(d, tv.Cross(e1));
    RotateProducts(e2, tv.Cross(e1));
  }

  /** The scalar triple products Moller-Trumbore relies on. */
  lemma TripleProducts(tv: Vec3, d: Vec3, e1: Vec3, e2: Vec3)
    ensures d.Dot(d.Cross(e2)) == 0.0 && e2.Dot(d.Cross(e2)) == 0.0
    ensures e1.Dot(e1.Cross(d)) == 0.0 && d.Dot(e1.Cross(d)) == 0.0
    ensures e1.Dot(e1.Cross(e2)) == 0.0 && e2.Dot(e1.Cross(e2)) == 0.0
    ensures e2.Dot(e1.Cross(d)) == e1.Dot(d.Cross(e2))
    ensures d.Dot(e1.Cross(e2)) == -e1.Dot(d.Cross(e2))
    ensures tv.Dot(e1.Cross(d)) == d.Dot(tv.Cross(e1))
    ensures tv.Dot(e1.Cross(e2)) == e2.Dot(tv.Cross(e1))
  {
    CrossOrthogonal(d, e2);
    CrossOrthogonal(e1, d);
    CrossOrthogonal(e1, e2);
    TripleCyclic(e2, e1, d);
    TripleCyclic(d, e1, e2);
    TripleAntisymmetric(e1, e2, d);
    TripleCyclic(tv, e1, d);
    TripleCyclic(e1, d, tv);
    TripleCyclic(e2, tv, e1);
  }

  /** a x b is orthogonal to a and to b. */
  lemma CrossOrthogonal(a: Vec3, b: Vec3)
    ensures a.Dot(a.Cross(b)) == 0.0 && b.Dot(a.Cross(b)) == 0.0
  {
  }

  /** a . (b x c) == b . (c x a) */
  lemma TripleCyclic(a: Vec3, b: Vec3, c: Vec3)
    ensures a.Dot(b.Cross(c)) == b.Dot(c.Cross(a))
  {
  }

  /** a . (b x c) == -a . (c x b) */
  lemma TripleAntisymmetric(a: Vec3, b: Vec3, c: Vec3)
    ensures a.Dot(b.Cross(c)) == -a.Dot(c.Cross(b))
  {
  }

  lemma DotLinear(a: Vec3, b: Vec3, c: Vec3, ka: real, kb: real, w: Vec3)
    ensures a.Scale(ka).Plus(b.Scale(kb)).Plus(c).Dot(w) == ka * a.Dot(w) + kb * b.Dot(w) + c.Dot(w)
  {
  }

  /** With det != 0 a point of the triangle's plane on the ray has exactly
      the coordinates Cramer's rule gives. */
  lemma CramerUnique(tri: Triangle, r: Ray, t: real, u: real, v: real)
    requires Det(tri, r) != 0.0
    requires r.At(t) == tri.v0.Plus(tri.Edge1().Scale(u)).Plus(tri.Edge2().Scale(v))
    ensures u == BaryU(tri, r) && v == BaryV(tri, r) && t == Distance(tri, r)
  {
    Rearrange(r, tri.v0, r.orig.Minus(tri.v0), tri.Edge1(), tri.Edge2(), t, u, v);
    ProjectU(r.orig.Minus(tri.v0), r.dir, tri.Edge1(), tri.Edge2(), t, u, v);
    ProjectV(r.orig.Minus(tri.v0), r.dir, tri.Edge1(), tri.Edge2(), t, u, v);
    ProjectT(r.orig.Minus(tri.v0), r.dir, tri.Edge1(), tri.Edge2(), t, u, v);
    SolveScaled(NumU(tri, r), u, Det(tri, r));
    SolveScaled(NumV(tri, r), v, Det(tri, r));
    SolveScaled(NumT(tri, r), t, Det(tri, r));
  }

  /** orig + t dir == v0 + u e1 + v e2 is T + t dir == u e1 + v e2. */
  lemma Rearrange(r: Ray, v0: Point3, tv: Vec3, e1: Vec3, e2: Vec3, t: real, u: real, v: real)
    requires tv == r.orig.Minus(v0)
    requires r.At(t) == v0.Plus(e1.Scale(u)).Plus(e2.Scale(v))
    ensures tv.Plus(r.dir.Scale(t)) == e1.Scale(u).Plus(e2.Scale(v))
  {
    var p, q := r.At(t), v0.Plus(e1.Scale(u)).Plus(e2.Scale(v));
    assert p.x == q.x && p.y == q.y && p.z == q.z;
  }

  /** Dotting T + t dir == u e1 + v e2 with dir x e2 isolates u. */
  lemma ProjectU(tv: Vec3, d: Vec3, e1: Vec3, e2: Vec3, t: real, u: real, v: real)
    requires tv.Plus(d.Scale(t)) == e1.Scale(u).Plus(e2.Scale(v))
    ensures tv.Dot(d.Cross(e2)) == u * e1.Dot(d.Cross(e2))
  {
    var w := d.Cross(e2);
    CrossOrthogonal(d, e2);
    DotLinear(e1, e2, Zero, u, v, w);
    DotLinear(d, Zero, tv, t, 0.0, w);
    assert tv.Plus(d.Scale(t)) == d.Scale(t).Plus(Zero.Scale(0.0)).Plus(tv);
    assert e1.Scale(u).Plus(e2.Scale(v)) == e1.Scale(u).Plus(e2.Scale(v)).Plus(Zero);
  }

  /** Dotting with e1 x dir isolates v. */
  lemma ProjectV(tv: Vec3, d: Vec3, e1: Vec3, e2: Vec3, t: real, u: real, v: real)
    requires tv.Plus(d.Scale(t)) == e1.Scale(u).Plus(e2.Scale(v))
    ensures d.Dot(tv.Cross(e1)) == v * e1.Dot(d.Cross(e2))
  {
    var w := e1.Cross(d);
    CrossOrthogonal(e1, d);
    DotLinear(e1, e2, Zero, u, v, w);
    DotLinear(d, Zero, tv, t, 0.0, w);
    assert tv.Plus(d.Scale(t)) == d.Scale(t).Plus(Zero.Scale(0.0)).Plus(tv);
    assert e1.Scale(u).Plus(e2.Scale(v)) == e1.Scale(u).Plus(e2.Scale(v)).Plus(Zero);
    TripleCyclic(e2, e1, d);
    TripleCyclic(tv, e1, d);
    TripleCyclic(e1, d, tv);
  }

  /** Dotting with e1 x e2 isolates t. */
  lemma ProjectT(tv: Vec3, d: Vec3, e1: Vec3, e2: Vec3, t: real, u: real, v: real)
    requires tv.Plus(d.Scale(t)) == e1.Scale(u).Plus(e2.Scale(v))
    ensures e2.Dot(tv.Cross(e1)) == t * e1.Dot(d.Cross(e2))
  {
    var w := e1.Cross(e2);
    CrossOrthogonal(e1, e2);
    DotLinear(e1, e2, Zero, u, v, w);
    DotLinear(d, Zero, tv, t, 0.0, w);
    assert tv.Plus(d.Scale(t)) == d.Scale(t).Plus(Zero.Scale(0.0)).Plus(tv);
    assert e1.Scale(u).Plus(e2.Scale(v)) == e1.Scale(u).Plus(e2.Scale(v)).Plus(Zero);
    TripleCyclic(d, e1, e2);
    TripleAntisymmetric(e1, e2, d);
    TripleCyclic(e2, tv, e1);
  }

  /** Triangle::hit. */
  function Hit(tri: Triangle, r: Ray, tMin: real, tMax: Bound, sqrt: real -> real): (res: Option<HitRecord>)
    requires IsSqrt(sqrt)
    ensures Abs(Det(tri, r)) < Epsilon ==> res.None?
    ensures res.Some? ==> tMin <= res.value.t && tMax.Admits(res.value.t)
    ensures res.Some? ==> res.value.p == r.At(res.value.t)
    ensures res.Some? ==> InsideAt(tri, r, res.value.t, res.value.u, res.value.v)
    ensures res.Some? ==> res.value.u <= 1.0
    ensures res.Some? ==> tri.Edge1().Cross(tri.Edge2()) != Zero
    ensures res.Some? ==>
              var n := UnitVector(tri.Edge1().Cross(tri.Edge2()), sqrt);
              (res.value.normal == n || res.value.normal == n.Neg()) &&
              (res.value.frontFace <==> r.dir.Dot(n) < 0.0)
    ensures res.Some? ==> r.dir.Dot(res.value.normal) <= 0.0 && res.value.normal.LengthSquared() == 1.0
    ensures res.Some? ==> res.value.mat == tri.mat
    ensures Abs(Det(tri, r)) >= Epsilon ==>
              (res.None? <==> forall t, u, v :: tMin <= t && tMax.Admits(t) ==> !InsideAt(tri, r, t, u, v))
  {
    var det := Det(tri, r);
    if Abs(det) < Epsilon then
      None
    else
      var u := BaryU(tri, r);
      if u < 0.0 || u > 1.0 then
        NoSolution(tri, r, tMin, tMax);
        None
      else
        var v := BaryV(tri, r);
        if v < 0.0 || u + v > 1.0 then
          NoSolution(tri, r, tMin, tMax);
          None
        else
          var t := Distance(tri, r);
          if t < tMin || !tMax.Admits(t) then
            NoSolution(tri, r, tMin, tMax);
            None
          else
            Solution(tri, r);
            EdgesSpan(tri, r);
            assert InsideAt(tri, r, t, u, v);
            var n := UnitVector(tri.Edge1().Cross(tri.Edge2()), sqrt);
            NegLengthSquared(n);
            Some(HitRecord(r.At(t), n, tri.mat, t, u, v, false).SetFaceNormal(r, n))
  }

  /** Cramer's solution: when det != 0 the computed (t, u, v) put the ray's
      point on the triangle's plane. */
  lemma Solution(tri: Triangle, r: Ray)
    requires Det(tri, r) != 0.0
    ensures r.At(Distance(tri, r))
            == tri.v0.Plus(tri.Edge1().Scale(BaryU(tri, r))).Plus(tri.Edge2().Scale(BaryV(tri, r)))
  {
    Cramer(r.orig.Minus(tri.v0), r.dir, tri.Edge1(), tri.Edge2(), Det(tri, r), NumU(tri, r), NumV(tri, r),
           NumT(tri, r));
    SolutionCore(r, tri.v0, r.orig.Minus(tri.v0), tri.Edge1(), tri.Edge2(), Det(tri, r), 1.0 / Det(tri, r),
                 NumU(tri, r), NumV(tri, r), NumT(tri, r));
  }

  /** Cramer's identity, multiplied by k = 1 / det, puts the ray's point at
      t = tNum k on the plane at (uNum k, vNum k). */
  lemma SolutionCore(r: Ray, v0: Point3, tv: Vec3, e1: Vec3, e2: Vec3, det: real, k: real,
                     un: real, vn: real, tn: real)
    requires tv == r.orig.Minus(v0) && det != 0.0 && k == 1.0 / det
    requires CramerIdentity(tv, r.dir, e1, e2, det, un, vn, tn)
    ensures r.At(tn * k) == v0.Plus(e1.Scale(un * k)).Plus(e2.Scale(vn * k))
  {
    assert k * det == 1.0;
    DivideThrough(det, k, tv.x, tn, r.dir.x, un, e1.x, vn, e2.x);
    DivideThrough(det, k, tv.y, tn, r.dir.y, un, e1.y, vn, e2.y);
    DivideThrough(det, k, tv.z, tn, r.dir.z, un, e1.z, vn, e2.z);
    Assemble(r, v0, tv, e1, e2, tn * k, un * k, vn * k);
  }

  /** det = -dir . (e1 x e2), so det != 0 forces e1 x e2 != 0: the triangle
      is not degenerate and its normal is defined. */
  lemma EdgesSpan(tri: Triangle, r: Ray)
    requires Det(tri, r) != 0.0
    ensures tri.Edge1().Cross(tri.Edge2()) != Zero
  {
    var d, e1, e2 := r.dir, tri.Edge1(), tri.Edge2();
    TripleAntisymmetric(e1, d, e2);
    TripleCyclic(d, e2, e1);
  }

  /** One component of Cramer's identity divided by det. */
  lemma DivideThrough(det: real, k: real, tx: real, tn: real, dx: real,
                      un: real, ax: real, vn: real, bx: real)
    requires k * det == 1.0
    requires det * tx + tn * dx == un * ax + vn * bx
    ensures tx + (tn * k) * dx == (un * k) * ax + (vn * k) * bx
  {
    assert k * (det * tx + tn * dx) == k * (un * ax + vn * bx);
    assert k * (det * tx) == (k * det) * tx;
  }

  /** Gathers the three components of orig - v0 + t dir == u e1 + v e2. */
  lemma Assemble(r: Ray, v0: Point3, tv: Vec3, e1: Vec3, e2: Vec3, t: real, u: real, v: real)
    requires tv == r.orig.Minus(v0)
    requires tv.x + t * r.dir.x == u * e1.x + v * e2.x
    requires tv.y + t * r.dir.y == u * e1.y + v * e2.y
    requires tv.z + t * r.dir.z == u * e1.z + v * e2.z
    ensures r.At(t) == v0.Plus(e1.Scale(u)).Plus(e2.Scale(v))
  {
    var p, q := r.At(t), v0.Plus(e1.Scale(u)).Plus(e2.Scale(v));
    assert p.x == q.x && p.y == q.y && p.z == q.z;
  }

  /** From n == x * det with det != 0: x == n * (1 / det). */
  lemma SolveScaled(n: real, x: real, det: real)
    requires det != 0.0
    requires n == x * det
    ensures x == n * (1.0 / det)
  {
    var k := 1.0 / det;
    assert k * det == 1.0;
    assert n * k == x * (det * k);
  }

  /** If the computed coordinates fail a test, no point of the triangle is
      on the ray within the bounds. */
  lemma NoSolution(tri: Triangle, r: Ray, tMin: real, tMax: Bound)
    requires Abs(Det(tri, r)) >= Epsilon
    requires var u, v, t := BaryU(tri, r), BaryV(tri, r), Distance(tri, r);
             u < 0.0 || u > 1.0 || v < 0.0 || u + v > 1.0 || t < tMin || !tMax.Admits(t)
    ensures forall t, u, v :: tMin <= t && tMax.Admits(t) ==> !InsideAt(tri, r, t, u, v)
  {
    forall t, u, v | tMin <= t && tMax.Admits(t) && InsideAt(tri, r, t, u, v)
      ensures false
    {
      CramerUnique(tri, r, t, u, v);
    }
  }

  /** Bounding the parameter from above only removes a hit beyond the bound. */
  lemma HitUnderBound(tri: Triangle, r: Ray, tMin: real, tMax: Bound, sqrt: real -> real)
    requires IsSqrt(sqrt)
    ensures var probe := Hit(tri, r, tMin, Infinity, sqrt);
            Hit(tri, r, tMin, tMax, sqrt)
            == if probe.Some? && tMax.Admits(probe.value.t) then probe else None
  {
  }

  /** b contains p with room m on every side. */
  predicate ContainsWithMargin(b: Aabb, p: Point3, m: real) {
    b.minimum.x + m <= p.x <= b.maximum.x - m &&
    b.minimum.y + m <= p.y <= b.maximum.y - m &&
    b.minimum.z + m <= p.z <= b.maximum.z - m
  }

  const BoxMargin: real := 0.0001

  /** Triangle::bounding_box: always present; the vertices' hull padded by
      1e-4 on each side. */
  function BoundingBox(tri: Triangle): (b: Aabb)
    ensures ContainsWithMargin(b, tri.v0, BoxMargin)
    ensures ContainsWithMargin(b, tri.v1, BoxMargin)
    ensures ContainsWithMargin(b, tri.v2, BoxMargin)
    ensures b.minimum.x + BoxMargin == Min(tri.v0.x, Min(tri.v1.x, tri.v2.x))
    ensures b.maximum.x - BoxMargin == Max(tri.v0.x, Max(tri.v1.x, tri.v2.x))
    ensures b.minimum.y + BoxMargin == Min(tri.v0.y, Min(tri.v1.y, tri.v2.y))
    ensures b.maximum.y - BoxMargin == Max(tri.v0.y, Max(tri.v1.y, tri.v2.y))
    ensures b.minimum.z + BoxMargin == Min(tri.v0.z, Min(tri.v1.z, tri.v2.z))
    ensures b.maximum.z - BoxMargin == Max(tri.v0.z, Max(tri.v1.z, tri.v2.z))
  {
    var lo := Vec3(Min(tri.v0.x, Min(tri.v1.x, tri.v2.x)),
                   Min(tri.v0.y, Min(tri.v1.y, tri.v2.y)),
                   Min(tri.v0.z, Min(tri.v1.z, tri.v2.z)));
    var hi := Vec3(Max(tri.v0.x, Max(tri.v1.x, tri.v2.x)),
                   Max(tri.v0.y, Max(tri.v1.y, tri.v2.y)),
                   Max(tri.v0.z, Max(tri.v1.z, tri.v2.z)));
    Aabb(Vec3(lo.x - BoxMargin, lo.y - BoxMargin, lo.z - BoxMargin),
         Vec3(hi.x + BoxMargin, hi.y + BoxMargin, hi.z + BoxMargin))
  }
}
