/** Properties relating the cone's two ray tests and several calls of `hit`
    on differently filled records. */
module ConeProperties {
  import opened Wrappers
  import opened Records
  import opened Quadratic
  import opened Cones

  /** `hitShadow` answers exactly what `hit` answers on a record that holds
      no hit yet, and raises exactly when `hit` does. */
  lemma ShadowAgreesWithHit(cone: Cone, ray: Ray, rec: HitRecord, eps: Epsilon, sqrt: real -> real)
    requires rec.t.None?
    ensures ShadowCoefficients(cone, ray) == Coefficients(cone, ray)
    ensures HitShadow(cone, ray, eps, sqrt).Failure? <==> Hit(cone, ray, rec, eps, sqrt).Failure?
    ensures Hit(cone, ray, rec, eps, sqrt).Success? ==>
      HitShadow(cone, ray, eps, sqrt) == Success(Hit(cone, ray, rec, eps, sqrt).value.0)
  {
    ShadowCoefficientsAgree(cone, ray);
  }

  /** A ray that hits the cone for some record also casts a shadow: a record
      can only make `hit` refuse a candidate, never invent one. */
  lemma HitImpliesShadow(cone: Cone, ray: Ray, rec: HitRecord, eps: Epsilon, sqrt: real -> real)
    requires Hit(cone, ray, rec, eps, sqrt).Success? && Hit(cone, ray, rec, eps, sqrt).value.0
    ensures ShadowCoefficients(cone, ray) == Coefficients(cone, ray)
    ensures HitShadow(cone, ray, eps, sqrt) == Success(true)
  {
    ShadowCoefficientsAgree(cone, ray);
    var empty := rec.(t := None);
    ShadowAgreesWithHit(cone, ray, empty, eps, sqrt);
  }

  /** A candidate at exactly the recorded distance is accepted and installs
      this cone's data, so of two shapes at equal distance the one asked
      later wins. */
  lemma TieOverwrites(cone: Cone, ray: Ray, rec: HitRecord, t: real)
    requires t > 0.0 && rec.t == Some(t)
    ensures Update(cone, ray, rec, t).0
    ensures Update(cone, ray, rec, t).1.material == cone.material
    ensures Update(cone, ray, rec, t).1 == Update(cone, ray, rec.(t := None), t).1
  {
  }

  /** A successful hit writes a record that depends only on the cone and the
      ray: whatever the record held before is overwritten entirely. */
  lemma HitRecordIndependentOfEntry(cone: Cone, ray: Ray, rec1: HitRecord, rec2: HitRecord, eps: Epsilon, sqrt: real -> real)
    requires Hit(cone, ray, rec1, eps, sqrt).Success? && Hit(cone, ray, rec1, eps, sqrt).value.0
    requires Hit(cone, ray, rec2, eps, sqrt).Success? && Hit(cone, ray, rec2, eps, sqrt).value.0
    ensures Hit(cone, ray, rec1, eps, sqrt) == Hit(cone, ray, rec2, eps, sqrt)
  {
  }
}
