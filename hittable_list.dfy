// The scene: a list of hittable objects (hittable_obj.h, hittable_list.hpp).
// The C++ code dispatches through the virtual HittableObj::hit; here the
// objects the renderer builds form a closed datatype.

module Objects {
  import opened Options
  import opened Vectors
  import opened Boxes
  import opened Utils
  import opened Rays
  import opened HitRecords
  import Spheres
  import Triangles

  datatype Object =
    | SphereObject(sphere: Spheres.Sphere)
    | TriangleObject(triangle: Triangles.Triangle)

  /** A sphere's normal is (p - center) / radius, so its radius must not be 0. */
  predicate WellFormed(o: Object) {
    o.SphereObject? ==> o.sphere.radius != 0.0
  }

  /** HittableObj::hit for each kind of object. */
  function ObjectHit(o: Object, r: Ray, tMin: real, tMax: Bound,
                     sphereUV: Vec3 -> (real, real), sqrt: real -> real): (res: Option<HitRecord>)
    requires IsSqrt(sqrt) && r.dir != Zero && WellFormed(o)
    ensures res.Some? ==> tMin <= res.value.t && tMax.Admits(res.value.t)
    ensures res.Some? ==> res.value.p == r.At(res.value.t)
    ensures res.Some? ==> r.dir.Dot(res.value.normal) <= 0.0
  {
    match o
    case SphereObject(s) => Spheres.Hit(s, r, tMin, tMax, sphereUV, sqrt)
    case TriangleObject(tri) => Triangles.Hit(tri, r, tMin, tMax, sqrt)
  }

  /** Tightening the upper bound keeps a hit iff it lies under the new bound. */
  lemma ObjectHitUnderBound(o: Object, r: Ray, tMin: real, tMax: Bound,
                            sphereUV: Vec3 -> (real, real), sqrt: real -> real)
    requires IsSqrt(sqrt) && r.dir != Zero && WellFormed(o)
    ensures var probe := ObjectHit(o, r, tMin, Infinity, sphereUV, sqrt);
            ObjectHit(o, r, tMin, tMax, sphereUV, sqrt)
            == if probe.Some? && tMax.Admits(probe.value.t) then probe else None
  {
    match o
    case SphereObject(s) => Spheres.HitUnderBound(s, r, tMin, tMax, sphereUV, sqrt);
    case TriangleObject(tri) => Triangles.HitUnderBound(tri, r, tMin, tMax, sqrt);
  }

  /** HittableObj::bounding_box: both kinds always have a box. */
  function ObjectBox(o: Object): (b: Aabb)
    ensures o.TriangleObject? ==>
              ContainsPoint(b, o.triangle.v0) && ContainsPoint(b, o.triangle.v1) && ContainsPoint(b, o.triangle.v2)
    ensures o.SphereObject? && o.sphere.radius >= 0.0 ==>
              forall p :: Spheres.OnSurface(o.sphere, p) ==> ContainsPoint(b, p)
  {
    match o
    case SphereObject(s) => Spheres.BoundingBox(s)
    case TriangleObject(tri) => Triangles.BoundingBox(tri)
  }
}

module Scenes {
  import opened Options
  import opened Vectors
  import opened Boxes
  import opened Utils
  import opened Rays
  import opened HitRecords
  import opened Objects

  predicate WellFormedScene(objs: seq<Object>) {
    forall i :: 0 <= i < |objs| ==> WellFormed(objs[i])
  }

  /** Hit of object i within [tMin, tMax], asked on its own. */
  function Own(objs: seq<Object>, i: nat, r: Ray, tMin: real, tMax: Bound,
               sphereUV: Vec3 -> (real, real), sqrt: real -> real): Option<HitRecord>
    requires IsSqrt(sqrt) && r.dir != Zero && WellFormedScene(objs)
    requires i < |objs|
  {
    ObjectHit(objs[i], r, tMin, tMax, sphereUV, sqrt)
  }

  /** A hit found without an upper bound, kept iff the bound admits it. */
  function Admitted(probe: Option<HitRecord>, bound: Bound): Option<HitRecord> {
    if probe.Some? && bound.Admits(probe.value.t) then probe else None
  }

  /** The scan over objs[..n] that both HittableObjList::hit and
      nearest_hit perform, stated over the objects' unbounded hits (their
      probes): each object is asked for a hit no further than the closest
      distance found so far (tMax to start with), which by
      ObjectHitUnderBound is its probe if admitted; a hit replaces the
      current one. The result is the index of the object that supplied the
      current hit and its record. */
  function Scan(probes: seq<Option<HitRecord>>, n: nat, tMax: Bound): Option<(nat, HitRecord)>
    requires n <= |probes|
  {
    if n == 0 then None
    else
      var prev := Scan(probes, n - 1, tMax);
      var bound := if prev.Some? then Finite(prev.value.1.t) else tMax;
      match Admitted(probes[n - 1], bound)
      case Some(h) => Some((n - 1, h))
      case None => prev
  }

  lemma {:induction false} ScanFindsClosest(probes: seq<Option<HitRecord>>, n: nat, tMax: Bound)
    requires n <= |probes|
    ensures var res := Scan(probes, n, tMax);
            res.None? <==> forall i :: 0 <= i < n ==> Admitted(probes[i], tMax).None?
    ensures var res := Scan(probes, n, tMax);
            res.Some? ==>
              var (k, h) := res.value;
              k < n && Admitted(probes[k], tMax) == Some(h) &&
              (forall i :: 0 <= i < n && Admitted(probes[i], tMax).Some? ==> h.t <= probes[i].value.t) &&
              (forall i :: k < i < n && Admitted(probes[i], tMax).Some? ==> h.t < probes[i].value.t)
  {
    if n > 0 {
      ScanFindsClosest(probes, n - 1, tMax);
      var prev := Scan(probes, n - 1, tMax);
      if prev.Some? {
        var k := prev.value.0;
        assert Admitted(probes[k], tMax).Some?;
      }
    }
  }

  /** Every object's unbounded hit. */
  function Probes(objs: seq<Object>, r: Ray, tMin: real,
                  sphereUV: Vec3 -> (real, real), sqrt: real -> real): (ps: seq<Option<HitRecord>>)
    requires IsSqrt(sqrt) && r.dir != Zero && WellFormedScene(objs)
    ensures |ps| == |objs|
    ensures forall i :: 0 <= i < |objs| ==> ps[i] == ObjectHit(objs[i], r, tMin, Infinity, sphereUV, sqrt)
  {
    seq(|objs|, i requires 0 <= i < |objs| => ObjectHit(objs[i], r, tMin, Infinity, sphereUV, sqrt))
  }

  /** Object i's own answer is its probe, admitted by tMax or not. */
  lemma OwnIsAdmittedProbe(objs: seq<Object>, r: Ray, tMin: real, tMax: Bound,
                           sphereUV: Vec3 -> (real, real), sqrt: real -> real)
    requires IsSqrt(sqrt) && r.dir != Zero && WellFormedScene(objs)
    ensures forall i :: 0 <= i < |objs| ==>
              Own(objs, i, r, tMin, tMax, sphereUV, sqrt) == Admitted(Probes(objs, r, tMin, sphereUV, sqrt)[i], tMax)
  {
    forall i | 0 <= i < |objs|
      ensures Own(objs, i, r, tMin, tMax, sphereUV, sqrt) == Admitted(Probes(objs, r, tMin, sphereUV, sqrt)[i], tMax)
    {
      ObjectHitUnderBound(objs[i], r, tMin, tMax, sphereUV, sqrt);
    }
  }

  /** The scan finds nothing iff no object on its own is hit within the
      bounds; otherwise it returns one object's own hit, whose distance is
      the least of all, and no later object is hit at that distance or
      closer: the last object at the minimal distance wins. */
  lemma ClosestOwnHit(objs: seq<Object>, r: Ray, tMin: real, tMax: Bound,
                      sphereUV: Vec3 -> (real, real), sqrt: real -> real)
    requires IsSqrt(sqrt) && r.dir != Zero && WellFormedScene(objs)
    ensures var res := Scan(Probes(objs, r, tMin, sphereUV, sqrt), |objs|, tMax);
            res.None? <==> forall i :: 0 <= i < |objs| ==> Own(objs, i, r, tMin, tMax, sphereUV, sqrt).None?
    ensures var res := Scan(Probes(objs, r, tMin, sphereUV, sqrt), |objs|, tMax);
            res.Some? ==>
              var (k, h) := res.value;
              k < |objs| && Own(objs, k, r, tMin, tMax, sphereUV, sqrt) == Some(h) &&
              (forall i :: 0 <= i < |objs| && Own(objs, i, r, tMin, tMax, sphereUV, sqrt).Some? ==>
                 h.t <= Own(objs, i, r, tMin, tMax, sphereUV, sqrt).value.t) &&
              (forall i :: k < i < |objs| && Own(objs, i, r, tMin, tMax, sphereUV, sqrt).Some? ==>
                 h.t < Own(objs, i, r, tMin, tMax, sphereUV, sqrt).value.t)
  {
    ClosestOwnNone(objs, r, tMin, tMax, sphereUV, sqrt);
    ClosestOwnSome(objs, r, tMin, tMax, sphereUV, sqrt);
  }

  lemma ClosestOwnNone(objs: seq<Object>, r: Ray, tMin: real, tMax: Bound,
                      sphereUV: Vec3 -> (real, real), sqrt: real -> real)
    requires IsSqrt(sqrt) && r.dir != Zero && WellFormedScene(objs)
    ensures var res := Scan(Probes(objs, r, tMin, sphereUV, sqrt), |objs|, tMax);
            res.None? <==> forall i :: 0 <= i < |objs| ==> Own(objs, i, r, tMin, tMax, sphereUV, sqrt).None?
  {
    ScanFindsClosest(Probes(objs, r, tMin, sphereUV, sqrt), |objs|, tMax);
    OwnIsAdmittedProbe(objs, r, tMin, tMax, sphereUV, sqrt);
  }

  lemma ClosestOwnSome(objs: seq<Object>, r: Ray, tMin: real, tMax: Bound,
                      sphereUV: Vec3 -> (real, real), sqrt: real -> real)
    requires IsSqrt(sqrt) && r.dir != Zero && WellFormedScene(objs)
    ensures var res := Scan(Probes(objs, r, tMin, sphereUV, sqrt), |objs|, tMax);
            res.Some? ==>
              var (k, h) := res.value;
              k < |objs| && Own(objs, k, r, tMin, tMax, sphereUV, sqrt) == Some(h) &&
              (forall i :: 0 <= i < |objs| && Own(objs, i, r, tMin, tMax, sphereUV, sqrt).Some? ==>
                 h.t <= Own(objs, i, r, tMin, tMax, sphereUV, sqrt).value.t) &&
              (forall i :: k < i < |objs| && Own(objs, i, r, tMin, tMax, sphereUV, sqrt).Some? ==>
                 h.t < Own(objs, i, r, tMin, tMax, sphereUV, sqrt).value.t)
  {
    ScanFindsClosest(Probes(objs, r, tMin, sphereUV, sqrt), |objs|, tMax);
    OwnIsAdmittedProbe(objs, r, tMin, tMax, sphereUV, sqrt);
  }

  /** The union of the boxes of objs[..n], n >= 1, as bounding_box folds it. */
  function UnionBox(objs: seq<Object>, n: nat): Aabb
    requires 1 <= n <= |objs|
  {
    if n == 1 then ObjectBox(objs[0])
    else SurroundingBox(UnionBox(objs, n - 1), ObjectBox(objs[n - 1]))
  }

  /** The fold contains every object's box and lies inside every box that
      contains them all. */
  lemma {:induction false} UnionBoxIsLeast(objs: seq<Object>, n: nat)
    requires 1 <= n <= |objs|
    ensures forall i :: 0 <= i < n ==> ContainsBox(UnionBox(objs, n), ObjectBox(objs[i]))
    ensures forall c: Aabb :: (forall i :: 0 <= i < n ==> ContainsBox(c, ObjectBox(objs[i]))) ==>
              ContainsBox(c, UnionBox(objs, n))
  {
    if n > 1 {
      UnionBoxIsLeast(objs, n - 1);
      var u := UnionBox(objs, n);
      forall i | 0 <= i < n - 1
        ensures ContainsBox(u, ObjectBox(objs[i]))
      {
        ContainsBoxTransitive(u, UnionBox(objs, n - 1), ObjectBox(objs[i]));
      }
    }
  }

  /** HittableObjList: the objects are shared pointers in a vector. */
  /** What the hit loop holds after visiting objects 0 .. i-1: whether the
      scan so far found a hit, the record it returns (rec if none) and the
      bound for the next object (that hit's distance, or tMax). */
  predicate ScanState(probes: seq<Option<HitRecord>>, i: nat, tMax: Bound, rec: HitRecord,
                      hit: bool, out: HitRecord, closest: Bound)
    requires i <= |probes|
  {
    hit == Scan(probes, i, tMax).Some? &&
    (hit ==> out == Scan(probes, i, tMax).value.1 && closest == Finite(out.t)) &&
    (!hit ==> out == rec && closest == tMax)
  }

  /** One more object: a probe the current bound admits replaces the hit. */
  lemma ScanAdvance(probes: seq<Option<HitRecord>>, i: nat, tMax: Bound, rec: HitRecord,
                    hit: bool, out: HitRecord, closest: Bound)
    requires i < |probes| && ScanState(probes, i, tMax, rec, hit, out, closest)
    ensures var a := Admitted(probes[i], closest);
            ScanState(probes, i + 1, tMax, rec, hit || a.Some?, if a.Some? then a.value else out,
                      if a.Some? then Finite(a.value.t) else closest)
  {
  }

  /** The loop's final state answers the query: no hit when no object is
      hit on its own, otherwise the closest own hit. */
  lemma HitOutcome(objs: seq<Object>, r: Ray, tMin: real, tMax: Bound, rec: HitRecord,
                   sphereUV: Vec3 -> (real, real), sqrt: real -> real,
                   hit: bool, out: HitRecord, closest: Bound)
    requires IsSqrt(sqrt) && r.dir != Zero && WellFormedScene(objs)
    requires ScanState(Probes(objs, r, tMin, sphereUV, sqrt), |objs|, tMax, rec, hit, out, closest)
    ensures !hit <==> forall i :: 0 <= i < |objs| ==> Own(objs, i, r, tMin, tMax, sphereUV, sqrt).None?
    ensures !hit ==> out == rec
    ensures hit == Scan(Probes(objs, r, tMin, sphereUV, sqrt), |objs|, tMax).Some?
    ensures hit ==> out == Scan(Probes(objs, r, tMin, sphereUV, sqrt), |objs|, tMax).value.1
    ensures hit ==> exists k :: 0 <= k < |objs| && Own(objs, k, r, tMin, tMax, sphereUV, sqrt) == Some(out)
    ensures hit ==> tMin <= out.t && tMax.Admits(out.t)
    ensures hit ==> forall i :: 0 <= i < |objs| && Own(objs, i, r, tMin, tMax, sphereUV, sqrt).Some? ==>
                      out.t <= Own(objs, i, r, tMin, tMax, sphereUV, sqrt).value.t
  {
    ClosestOwnNone(objs, r, tMin, tMax, sphereUV, sqrt);
    ClosestOwnSome(objs, r, tMin, tMax, sphereUV, sqrt);
    if hit {
      var k := Scan(Probes(objs, r, tMin, sphereUV, sqrt), |objs|, tMax).value.0;
      assert Own(objs, k, r, tMin, tMax, sphereUV, sqrt) == Some(out);
    }
  }

  class HittableObjList {
    var objects: seq<Object>

    constructor Empty()
      ensures objects == []
    {
      objects := [];
    }

    /** HittableObjList(obj): a list holding that one object. */
    constructor Single(obj: Object)
      ensures objects == [obj]
    {
      objects := [obj];
    }

    method Clear()
      modifies this
      ensures objects == []
    {
      objects := [];
    }

    method Add(obj: Object)
      modifies this
      ensures objects == old(objects) + [obj]
    {
      objects := objects + [obj];
    }

    /** HittableObjList::hit: `rec` is the record before the call and is
        returned unchanged when nothing is hit. */
    method Hit(r: Ray, tMin: real, tMax: Bound, rec: HitRecord,
               sphereUV: Vec3 -> (real, real), sqrt: real -> real) returns (hit: bool, out: HitRecord)
      requires IsSqrt(sqrt) && r.dir != Zero && WellFormedScene(objects)
      ensures !hit <==> forall i :: 0 <= i < |objects| ==> Own(objects, i, r, tMin, tMax, sphereUV, sqrt).None?
      ensures !hit ==> out == rec
      ensures hit == Scan(Probes(objects, r, tMin, sphereUV, sqrt), |objects|, tMax).Some?
      ensures hit ==> out == Scan(Probes(objects, r, tMin, sphereUV, sqrt), |objects|, tMax).value.1
      ensures hit ==> exists k :: 0 <= k < |objects| && Own(objects, k, r, tMin, tMax, sphereUV, sqrt) == Some(out)
      ensures hit ==> tMin <= out.t && tMax.Admits(out.t)
      ensures hit ==> forall i :: 0 <= i < |objects| && Own(objects, i, r, tMin, tMax, sphereUV, sqrt).Some? ==>
                        out.t <= Own(objects, i, r, tMin, tMax, sphereUV, sqrt).value.t
    {
      ghost var probes := Probes(objects, r, tMin, sphereUV, sqrt);
      hit := false;
      out := rec;
      var closest := tMax;
      for i := 0 to |objects|
        invariant ScanState(probes, i, tMax, rec, hit, out, closest)
      {
        var h := ObjectHit(objects[i], r, tMin, closest, sphereUV, sqrt);
        ObjectHitUnderBound(objects[i], r, tMin, closest, sphereUV, sqrt);
        ScanAdvance(probes, i, tMax, rec, hit, out, closest);
        if h.Some? {
          hit := true;
          closest := Finite(h.value.t);
          out := h.value;
        }
      }
      HitOutcome(objects, r, tMin, tMax, rec, sphereUV, sqrt, hit, out, closest);
    }

    /** HittableObjList::bounding_box: none for an empty list, otherwise the
        least box around every object's box. */
    method BoundingBox(outputBox: Aabb) returns (ok: bool, box: Aabb)
      ensures ok <==> |objects| > 0
      ensures !ok ==> box == outputBox
      ensures ok ==> forall i :: 0 <= i < |objects| ==> ContainsBox(box, ObjectBox(objects[i]))
      ensures ok ==> forall c: Aabb :: (forall i :: 0 <= i < |objects| ==> ContainsBox(c, ObjectBox(objects[i]))) ==>
                       ContainsBox(c, box)
    {
      box := outputBox;
      if |objects| == 0 {
        return false, box;
      }
      var first := true;
      var i := 0;
      while i < |objects|
        invariant 0 <= i <= |objects|
        invariant first <==> i == 0
        invariant i > 0 ==> box == UnionBox(objects, i)
      {
        var temp := ObjectBox(objects[i]);
        box := if first then temp else SurroundingBox(box, temp);
        first := false;
        i := i + 1;
      }
      UnionBoxIsLeast(objects, |objects|);
      ok := true;
    }
  }
}
