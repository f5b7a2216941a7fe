// An infinite plane n . p + d = 0 (plane.h).

module Planes {
  import opened Options
  import opened Vectors
  import opened Utils
  import opened Rays
  import opened Materials
  import opened HitRecords

  datatype Plane = Plane(point: Point3, normal: Vec3, d: real, mat: Option<Material>)

  /** p lies on the plane. */
  predicate OnPlane(pl: Plane, p: Point3) {
    pl.normal.Dot(p) + pl.d == 0.0
  }

  /** Plane(point, normal, m): the normal is normalised and d chosen so
      that the given point lies on the plane. */
  function MakePlane(point: Point3, normal: Vec3, m: Option<Material>, sqrt: real -> real): (pl: Plane)
    requires IsSqrt(sqrt)
    requires normal != Zero
    ensures pl.normal.LengthSquared() == 1.0
    ensures pl.normal == normal.Scale(InverseLength(normal, sqrt))
    ensures pl.point == point && pl.mat == m
    ensures OnPlane(pl, point)
  {
    var n := UnitVector(normal, sqrt);
    Plane(point, n, -n.Dot(point), m)
  }

  /** Parallel rays (|n . dir| <= 1e-6) are never reported. */
  const ParallelEpsilon: real := 0.000001

  /** n . at(t) = n . orig + t (n . dir) */
  lemma DotAt(n: Vec3, r: Ray, t: real)
    ensures n.Dot(r.At(t)) == n.Dot(r.orig) + t * n.Dot(r.dir)
  {
  }

  /** Plane::hit. The bounds are strict on both sides. `rec` is the record
      before the call: t, p, normal, front face and material are written,
      the surface coordinates stay as they were. */
  function Hit(pl: Plane, r: Ray, tMin: real, tMax: Bound, rec: HitRecord): (res: Option<HitRecord>)
    ensures Abs(pl.normal.Dot(r.dir)) <= ParallelEpsilon ==> res.None?
    ensures res.Some? ==> tMin < res.value.t && tMax.StrictlyAdmits(res.value.t)
    ensures res.Some? ==> res.value.p == r.At(res.value.t) && OnPlane(pl, res.value.p)
    ensures res.Some? ==> res.value.u == rec.u && res.value.v == rec.v && res.value.mat == pl.mat
    ensures res.Some? ==> (res.value.normal == pl.normal || res.value.normal == pl.normal.Neg())
    ensures res.Some? ==> r.dir.Dot(res.value.normal) <= 0.0
    ensures Abs(pl.normal.Dot(r.dir)) > ParallelEpsilon ==>
              (res.None? <==> forall t :: tMin < t && tMax.StrictlyAdmits(t) ==> !OnPlane(pl, r.At(t)))
  {
    var denom := pl.normal.Dot(r.dir);
    if Abs(denom) > ParallelEpsilon then
      var t := -(pl.normal.Dot(r.orig) + pl.d) / denom;
      DotAt(pl.normal, r, t);
      assert t * denom == -(pl.normal.Dot(r.orig) + pl.d);
      if tMax.StrictlyAdmits(t) && t > tMin then
        Some(rec.(t := t, p := r.At(t), mat := pl.mat).SetFaceNormal(r, pl.normal))
      else
        OnlyCrossing(pl, r, t);
        None
    else
      None
  }

  /** A ray not parallel to the plane crosses it at exactly one parameter. */
  lemma OnlyCrossing(pl: Plane, r: Ray, t: real)
    requires pl.normal.Dot(r.dir) != 0.0
    requires t == -(pl.normal.Dot(r.orig) + pl.d) / pl.normal.Dot(r.dir)
    ensures forall s :: OnPlane(pl, r.At(s)) ==> s == t
  {
    var denom := pl.normal.Dot(r.dir);
    forall s | OnPlane(pl, r.At(s))
      ensures s == t
    {
      DotAt(pl.normal, r, s);
      assert s * denom == -(pl.normal.Dot(r.orig) + pl.d);
    }
  }
}
