// The record a primitive fills in when a ray hits it (hittable_obj.h).
// The C++ code passes it by reference and assigns its fields; here the
// update is a function that returns the new record.

module HitRecords {
  import opened Options
  import opened Vectors
  import opened Rays
  import opened Materials

  /** Surface coordinates: the barycentric (u, v) of a triangle, or the
      (u, v) that get_sphere_uv derives by trigonometry from a point of the
      unit sphere. */
  datatype HitRecord = HitRecord(
    p: Point3,
    normal: Vec3,
    mat: Option<Material>,   // a null shared_ptr is None
    t: real,
    u: real,
    v: real,
    frontFace: bool)
  {
    /** set_face_normal(r, outward): the ray hits the front face iff it
        travels against the outward normal; the stored normal always faces
        the incoming ray. Only frontFace and normal change. */
    function SetFaceNormal(r: Ray, outward: Vec3): (rec: HitRecord)
      ensures rec.frontFace <==> r.dir.Dot(outward) < 0.0
      ensures rec.normal == outward || rec.normal == outward.Neg()
      ensures rec.normal == outward <== rec.frontFace
      ensures rec.normal == outward.Neg() <== !rec.frontFace
      ensures r.dir.Dot(rec.normal) <= 0.0
      ensures rec.normal.LengthSquared() == outward.LengthSquared()
      ensures rec.(frontFace := frontFace, normal := normal) == this
    {
      var front := r.dir.Dot(outward) < 0.0;
      this.(frontFace := front, normal := if front then outward else outward.Neg())
    }
  }

  /** A default-constructed record: the value the renderer's
      `HitRecord temp_rec;` starts from. */
  const EmptyRecord := HitRecord(Zero, Zero, None, 0.0, 0.0, 0.0, false)

  /** Calling set_face_normal twice with the same arguments gives the same
      record as calling it once. */
  lemma SetFaceNormalIdempotent(rec: HitRecord, r: Ray, outward: Vec3)
    ensures rec.SetFaceNormal(r, outward).SetFaceNormal(r, outward) == rec.SetFaceNormal(r, outward)
  {
  }

  /** The stored normal does not depend on the normal, front-face flag or
      any other field the record held before. */
  lemma SetFaceNormalForgetsPrevious(a: HitRecord, b: HitRecord, r: Ray, outward: Vec3)
    ensures a.SetFaceNormal(r, outward).normal == b.SetFaceNormal(r, outward).normal
    ensures a.SetFaceNormal(r, outward).frontFace == b.SetFaceNormal(r, outward).frontFace
  {
  }
}
