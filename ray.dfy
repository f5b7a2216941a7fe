// Rays (ray.h): an origin and a direction; at(t) walks along the line.

module Rays {
  import opened Vectors

  datatype Ray = Ray(orig: Point3, dir: Vec3) {

    function Origin(): Point3 { orig }

    function Direction(): Vec3 { dir }

    /** at(t) = orig + t * dir: the point whose offset from the origin is t * dir. */
    function At(t: real): (p: Point3)
      ensures p.Minus(orig) == dir.Scale(t)
    {
      orig.Plus(dir.Scale(t))
    }
  }

  lemma AccessorsReturnArguments(o: Point3, d: Vec3)
    ensures Ray(o, d).Origin() == o && Ray(o, d).Direction() == d
  {
  }

  lemma AtZero(r: Ray)
    ensures r.At(0.0) == r.orig
  {
  }

  /** at(s + t) = at(s) + t * dir */
  lemma AtShift(r: Ray, s: real, t: real)
    ensures r.At(s + t) == r.At(s).Plus(r.dir.Scale(t))
  {
    assert (s + t) * r.dir.x == s * r.dir.x + t * r.dir.x;
    assert (s + t) * r.dir.y == s * r.dir.y + t * r.dir.y;
    assert (s + t) * r.dir.z == s * r.dir.z + t * r.dir.z;
  }
}
