// Materials (material.hpp): what a surface emits, and how it turns an
// incoming ray into a scattered one. The random vectors and the uniform
// sample that scatter draws are inputs.

module Materials {
  import opened Vectors

  /** The four material classes. DiffuseLight's emit is a shared colour,
      Lambertian's albedo a plain colour. */
  datatype Material =
    | DiffuseLight(emit: Color)
    | Lambertian(albedo: Color)
    | Metal(albedo: Color, fuzz: real)
    | Dielectric(ir: real)

  /** Metal(a, f) stores fuzz = f < 1 ? f : 1. */
  function MakeMetal(a: Color, f: real): (m: Material)
    ensures m.Metal? && m.albedo == a
    ensures m.fuzz <= 1.0 && m.fuzz <= f
    ensures m.fuzz == f || m.fuzz == 1.0
    ensures f < 1.0 ==> m.fuzz == f
  {
    Metal(a, if f < 1.0 then f else 1.0)
  }

  /** emitted(u, v, p): black for every material except a light. */
  function Emitted(m: Material, u: real, v: real, p: Point3): (c: Color)
    ensures !m.DiffuseLight? ==> c == Zero
    ensures m.DiffuseLight? ==> c == m.emit
  {
    if m.DiffuseLight? then m.emit else Zero
  }

  lemma EmittedIgnoresSurfacePoint(m: Material, u: real, v: real, p: Point3, u': real, v': real, p': Point3)
    ensures Emitted(m, u, v, p) == Emitted(m, u', v', p')
  {
  }

  /** x^n by repeated multiplication (pow with an integer exponent). */
  function Pow(x: real, n: nat): real {
    if n == 0 then 1.0 else x * Pow(x, n - 1)
  }

  lemma {:induction false} PowUnitInterval(x: real, n: nat)
    requires 0.0 <= x <= 1.0
    ensures 0.0 <= Pow(x, n) <= 1.0
  {
    if n > 0 {
      PowUnitInterval(x, n - 1);
      var q := Pow(x, n - 1);
      assert x * q <= 1.0 * q by {
        assert q - x * q == (1.0 - x) * q;
        assert (1.0 - x) * q >= 0.0;
      }
      assert x * q >= 0.0;
    }
  }

  lemma PowZeroBase(n: nat)
    requires n > 0
    ensures Pow(0.0, n) == 0.0
  {
  }

  lemma {:induction false} PowOneBase(n: nat)
    ensures Pow(1.0, n) == 1.0
  {
    if n > 0 {
      PowOneBase(n - 1);
    }
  }

  /** ((1 - idx) / (1 + idx))^2 */
  function SchlickR0(refIdx: real): real
    requires refIdx != -1.0
  {
    Sq((1.0 - refIdx) / (1.0 + refIdx))
  }

  /** Schlick's approximation: r0 + (1 - r0) (1 - cos)^5. */
  function Reflectance(cosine: real, refIdx: real): real
    requires refIdx != -1.0
  {
    var r0 := SchlickR0(refIdx);
    r0 + (1.0 - r0) * Pow(1.0 - cosine, 5)
  }

  /** For a positive index the normal-incidence reflectance lies in [0, 1). */
  lemma SchlickR0Range(refIdx: real)
    requires 0.0 < refIdx
    ensures 0.0 <= SchlickR0(refIdx) < 1.0
  {
    var q := (1.0 - refIdx) / (1.0 + refIdx);
    assert -1.0 < q < 1.0 by {
      assert q * (1.0 + refIdx) == 1.0 - refIdx;
    }
    SqNonNegative(q);
    if q >= 0.0 {
      SqMonotone(q, 1.0);
    } else {
      assert Sq(q) == Sq(-q);
      SqMonotone(-q, 1.0);
    }
  }

  /** reflectance(1, idx) = r0, reflectance(0, idx) = 1, and in between the
      value stays in [r0, 1]. */
  lemma ReflectanceRange(cosine: real, refIdx: real)
    requires 0.0 < refIdx
    requires 0.0 <= cosine <= 1.0
    ensures SchlickR0(refIdx) <= Reflectance(cosine, refIdx) <= 1.0
    ensures cosine == 1.0 ==> Reflectance(cosine, refIdx) == SchlickR0(refIdx)
    ensures cosine == 0.0 ==> Reflectance(cosine, refIdx) == 1.0
  {
    var r0 := SchlickR0(refIdx);
    SchlickR0Range(refIdx);
    var w := Pow(1.0 - cosine, 5);
    PowUnitInterval(1.0 - cosine, 5);
    assert 0.0 <= (1.0 - r0) * w <= 1.0 - r0 by {
      assert (1.0 - r0) - (1.0 - r0) * w == (1.0 - r0) * (1.0 - w);
      MulNonNegative(1.0 - r0, 1.0 - w);
      MulNonNegative(1.0 - r0, w);
    }
    if cosine == 1.0 {
      PowZeroBase(5);
    }
    if cosine == 0.0 {
      PowOneBase(5);
    }
  }
}

module Scattering {
  import opened Vectors
  import opened Rays
  import opened Materials
  import opened HitRecords

  /** The random draws one call of scatter may use:
      random_unit_vector(), random_in_unit_sphere() and random_double(). */
  datatype Samples = Samples(unitVector: Vec3, inUnitSphere: Vec3, uniform: real)

  /** scatter's return value and its two out-parameters. */
  datatype Scattered = Scattered(ok: bool, attenuation: Color, ray: Ray)

  /** The refraction ratio of a dielectric: 1/ir entering, ir leaving. */
  function RefractionRatio(ir: real, frontFace: bool): (ratio: real)
    requires ir != 0.0
    ensures 0.0 < ir ==> 0.0 < ratio
    ensures frontFace ==> ratio * ir == 1.0
    ensures !frontFace ==> ratio == ir
  {
    if frontFace then 1.0 / ir else ir
  }

  /** ratio * sin(theta) > 1 with sin(theta) = sqrt(1 - cos^2). When
      1 - cos^2 is negative the C library's sqrt yields NaN and the
      comparison is false. */
  predicate CannotRefract(ratio: real, cosTheta: real, sqrt: real -> real)
    requires IsSqrt(sqrt)
  {
    var s2 := 1.0 - cosTheta * cosTheta;
    0.0 <= s2 && ratio * sqrt(s2) > 1.0
  }

  /** Material::scatter. `attenuation` and `scattered` are the values the
      out-parameters held before the call; DiffuseLight leaves them alone. */
  function Scatter(m: Material, rIn: Ray, rec: HitRecord, attenuation: Color, scattered: Ray,
                   s: Samples, sqrt: real -> real): (res: Scattered)
    requires IsSqrt(sqrt)
    requires rIn.dir != Zero
    requires m.Dielectric? ==> 0.0 < m.ir
    ensures m.DiffuseLight? ==> !res.ok && res.attenuation == attenuation && res.ray == scattered
    ensures !m.DiffuseLight? ==> res.ray.orig == rec.p
    ensures m.Lambertian? ==> res.ok && res.attenuation == m.albedo
    ensures m.Lambertian? && !NearZero(rec.normal) ==> !NearZero(res.ray.dir)
    ensures m.Lambertian? && NearZero(rec.normal.Plus(s.unitVector)) ==> res.ray.dir == rec.normal
    ensures m.Metal? ==> res.attenuation == m.albedo
    ensures m.Metal? ==> (res.ok <==> res.ray.dir.Dot(rec.normal) > 0.0)
    ensures m.Dielectric? ==> res.ok && res.attenuation == White
    ensures m.Dielectric? ==>
      var unit := UnitVector(rIn.dir, sqrt);
      var ratio := RefractionRatio(m.ir, rec.frontFace);
      var cosTheta := Min(unit.Neg().Dot(rec.normal), 1.0);
      CannotRefract(ratio, cosTheta, sqrt) ==> res.ray.dir == Reflect(unit, rec.normal)
  {
    match m
    case DiffuseLight(_) =>
      Scattered(false, attenuation, scattered)
    case Lambertian(albedo) =>
      var direction := rec.normal.Plus(s.unitVector);
      var direction := if NearZero(direction) then rec.normal else direction;
      Scattered(true, albedo, Ray(rec.p, direction))
    case Metal(albedo, fuzz) =>
      var reflected := Reflect(UnitVector(rIn.dir, sqrt), rec.normal);
      var out := Ray(rec.p, reflected.Plus(s.inUnitSphere.Scale(fuzz)));
      Scattered(out.dir.Dot(rec.normal) > 0.0, albedo, out)
    case Dielectric(ir) =>
      var ratio := RefractionRatio(ir, rec.frontFace);
      var unit := UnitVector(rIn.dir, sqrt);
      var cosTheta := Min(unit.Neg().Dot(rec.normal), 1.0);
      var direction :=
        if CannotRefract(ratio, cosTheta, sqrt) || Reflectance(cosTheta, ratio) > s.uniform
        then Reflect(unit, rec.normal)
        else Refract(unit, rec.normal, ratio, sqrt);
      Scattered(true, White, Ray(rec.p, direction))
  }

  /** A polished metal (fuzz 0) with a unit normal keeps the reflected ray
      iff the incoming ray travels against the normal. */
  lemma MirrorScattersIffIncoming(albedo: Color, rIn: Ray, rec: HitRecord, attenuation: Color,
                                  scattered: Ray, s: Samples, sqrt: real -> real)
    requires IsSqrt(sqrt)
    requires rIn.dir != Zero
    requires rec.normal.LengthSquared() == 1.0
    ensures Scatter(Metal(albedo, 0.0), rIn, rec, attenuation, scattered, s, sqrt).ok
            <==> rIn.dir.Dot(rec.normal) < 0.0
  {
    var unit := UnitVector(rIn.dir, sqrt);
    MirrorDirection(unit, rec.normal);
    UnitVectorDotSign(rIn.dir, rec.normal, sqrt);
    var res := Scatter(Metal(albedo, 0.0), rIn, rec, attenuation, scattered, s, sqrt);
    assert res.ray.dir == Reflect(unit, rec.normal);
  }

  /** A ray that meets a dielectric head-on, against a unit normal, and
      whose Fresnel draw selects refraction, continues undeflected. */
  lemma DielectricNormalIncidence(ir: real, n: Vec3, rec: HitRecord, attenuation: Color,
                                  scattered: Ray, s: Samples, sqrt: real -> real)
    requires IsSqrt(sqrt)
    requires 0.0 < ir
    requires n.LengthSquared() == 1.0 && rec.normal == n
    requires s.uniform >= SchlickR0(RefractionRatio(ir, rec.frontFace))
    ensures n.Neg() != Zero
    ensures Scatter(Dielectric(ir), Ray(rec.p, n.Neg()), rec, attenuation, scattered, s, sqrt).ray
            == Ray(rec.p, n.Neg())
  {
    var d := n.Neg();
    NegLengthSquared(n);
    UnitVectorOfUnit(d, sqrt);
    var ratio := RefractionRatio(ir, rec.frontFace);
    assert d.Neg().Dot(n) == 1.0;
    var cosTheta := Min(d.Neg().Dot(n), 1.0);
    assert cosTheta == 1.0;
    assert 1.0 - cosTheta * cosTheta == 0.0;
    assert Sq(0.0) == 0.0;
    SqrtOfSq(sqrt, 0.0);
    assert !CannotRefract(ratio, cosTheta, sqrt);
    ReflectanceRange(cosTheta, ratio);
    RefractNormalIncidence(n, ratio, sqrt);
  }
}
