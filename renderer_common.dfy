// Helpers shared by the photon-mapping renderers (renderer_common.h).

module RendererCommon {
  import opened Options
  import opened Vectors
  import opened Utils
  import opened Rays
  import opened Materials
  import opened Scattering
  import opened HitRecords
  import opened Objects
  import opened Scenes

  /** world.hit(r, 0.001, infinity, rec): the closest hit record, or None. */
  type World = Ray -> Option<HitRecord>

  /** Every record the scene reports carries a material, and glass has a
      positive index. */
  ghost predicate SceneOracle(world: World) {
    forall r: Ray :: world(r).Some? ==>
      world(r).value.mat.Some? &&
      (world(r).value.mat.value.Dielectric? ==> 0.0 < world(r).value.mat.value.ir)
  }

  /** A ray without a direction hits nothing: the sphere and triangle tests
      divide by its squared length or by a determinant that vanishes. */
  ghost predicate DirectedHits(world: World) {
    forall r: Ray :: world(r).Some? ==> r.dir != Zero
  }

  /** nl: the normal turned against the incoming direction. */
  function Oriented(n: Vec3, dir: Vec3): (nl: Vec3)
    ensures nl == n || nl == n.Neg()
    ensures nl.Dot(dir) <= 0.0
  {
    if n.Dot(dir) < 0.0 then n else n.Neg()
  }

  /** A default-constructed Ray: what `Ray scattered;` holds before scatter. */
  const NoRay: Ray := Ray(Zero, Zero)

  /** The surface classes the photon integrators distinguish. */
  datatype Refl = Diff | Spec | Refr

  /** max_in_xyz: the largest component. */
  function MaxInXyz(v: Vec3): (m: real)
    ensures m >= v.x && m >= v.y && m >= v.z
    ensures m == v.x || m == v.y || m == v.z
  {
    Max(v.x, Max(v.y, v.z))
  }

  /** get_feature: the class of a material and the colour the integrators
      weight by. The albedo the C++ code reads through value(0, 0, p) is the
      material's plain colour. */
  function GetFeature(mat: Option<Material>, p: Point3): (f: (Refl, Color))
    ensures mat.None? ==> f == (Diff, Zero)
    ensures f.0 == Spec <==> mat.Some? && mat.value.Metal?
    ensures f.0 == Refr <==> mat.Some? && mat.value.Dielectric?
  {
    if mat.None? then (Diff, Zero)
    else
      match mat.value
      case Lambertian(albedo) => (Diff, albedo)
      case Metal(albedo, _) => (Spec, albedo)
      case Dielectric(_) => (Refr, White)
      case DiffuseLight(emit) => (Diff, emit)
  }

  /** The classification agrees with the materials themselves: a light's
      colour is what it emits, and a scattering material's colour is the
      attenuation its scatter reports. */
  lemma FeatureAgreesWithMaterial(m: Material, p: Point3, rIn: Ray, rec: HitRecord, attenuation: Color,
                                  scattered: Ray, s: Samples, sqrt: real -> real)
    requires IsSqrt(sqrt) && rIn.dir != Zero
    requires m.Dielectric? ==> 0.0 < m.ir
    ensures var (kind, color) := GetFeature(Some(m), p);
            var sc := Scatter(m, rIn, rec, attenuation, scattered, s, sqrt);
            (m.DiffuseLight? ==> kind == Diff && color == Emitted(m, rec.u, rec.v, rec.p) && !sc.ok) &&
            (!m.DiffuseLight? ==> color == sc.attenuation) &&
            (kind == Diff <==> m.Lambertian? || m.DiffuseLight?)
  {
  }

  /** nearest_hit: the index of the object hit closest along the ray with
      t >= 0.001, and its distance; (-1, 0) when nothing is hit. Each object
      is asked with the upper bound shrunk to the best distance so far. */
  method NearestHit(r: Ray, world: HittableObjList, sphereUV: Vec3 -> (real, real), sqrt: real -> real)
    returns (idx: int, dist: real)
    requires IsSqrt(sqrt) && r.dir != Zero && WellFormedScene(world.objects)
    ensures idx == -1 <==>
              forall i :: 0 <= i < |world.objects| ==> Own(world.objects, i, r, 0.001, Infinity, sphereUV, sqrt).None?
    ensures idx == -1 ==> dist == 0.0
    ensures idx != -1 ==>
              0 <= idx < |world.objects| &&
              var h := Own(world.objects, idx, r, 0.001, Infinity, sphereUV, sqrt);
              h.Some? && dist == h.value.t && 0.001 <= dist &&
              (forall i :: 0 <= i < |world.objects| && Own(world.objects, i, r, 0.001, Infinity, sphereUV, sqrt).Some? ==>
                 dist <= Own(world.objects, i, r, 0.001, Infinity, sphereUV, sqrt).value.t) &&
              (forall i :: idx < i < |world.objects| && Own(world.objects, i, r, 0.001, Infinity, sphereUV, sqrt).Some? ==>
                 dist < Own(world.objects, i, r, 0.001, Infinity, sphereUV, sqrt).value.t)
  {
    var objs := world.objects;
    ghost var probes := Probes(objs, r, 0.001, sphereUV, sqrt);
    var closest := Infinity;
    var hitIdx := -1;
    var i := 0;
    while i < |objs|
      invariant 0 <= i <= |objs|
      invariant var s := Scan(probes, i, Infinity);
                (hitIdx == -1 <==> s.None?) &&
                (s.None? ==> closest == Infinity) &&
                (s.Some? ==> hitIdx == s.value.0 && closest == Finite(s.value.1.t))
    {
      var h := ObjectHit(objs[i], r, 0.001, closest, sphereUV, sqrt);
      ObjectHitUnderBound(objs[i], r, 0.001, closest, sphereUV, sqrt);
      assert h == Admitted(probes[i], closest);
      if h.Some? {
        closest := Finite(h.value.t);
        hitIdx := i;
      }
      i := i + 1;
    }
    ClosestOwnHit(objs, r, 0.001, Infinity, sphereUV, sqrt);
    if hitIdx != -1 {
      return hitIdx, closest.value;
    }
    return -1, 0.0;
  }
}
