/** The cone shape of the ray tracer: an infinite cone with apex `center`,
    axis `direction` and half-angle theta, together with its ray test
    (`hit`), its existence-only shadow test (`hitShadow`), its bounding box
    and its centroid.

    `cos(theta)` is a foreign call, so a cone carries the value
    `cosTheta` it produces. `sqrt` is passed in as a function; the decision
    and the record protocol hold whatever it returns, and the statements
    about roots hold when it is a true square root where it is used. `eps`
    is the tolerance `G_EPSILON` of the math package. */
module Cones {
  import opened Wrappers
  import opened Vectors
  import opened Records
  import opened Quadratic

  datatype Cone = Cone(center: Vec3, direction: Vec3, cosTheta: real, material: Material)

  /** Python's `x ** 2`. */
  function Pow2(x: real): real {
    x * x
  }

  /** Coefficients of the ray/cone quadratic as `hit` computes them. The
      leading coefficient leaves out `D.D`, so only for a unit-length ray
      direction is this the true cone equation. */
  function Coefficients(cone: Cone, ray: Ray): Quadratic {
    var dv := Dot3(ray.direction, cone.direction);
    var co := Sub(ray.start, cone.center);
    var cos2 := Pow2(cone.cosTheta);
    Quadratic(
      Pow2(dv) - cos2,
      2.0 * (dv * Dot3(co, cone.direction) - Dot3(ray.direction, co) * cos2),
      Pow2(Dot3(co, cone.direction)) - Dot3(co, co) * cos2)
  }

  /** The same coefficients as `hitShadow` computes them: its leading
      coefficient squares the cosine by multiplication instead of `** 2`. */
  function ShadowCoefficients(cone: Cone, ray: Ray): Quadratic {
    var dv := Dot3(ray.direction, cone.direction);
    var co := Sub(ray.start, cone.center);
    Quadratic(
      Pow2(dv) - cone.cosTheta * cone.cosTheta,
      2.0 * (dv * Dot3(co, cone.direction) - Dot3(ray.direction, co) * Pow2(cone.cosTheta)),
      Pow2(Dot3(co, cone.direction)) - Dot3(co, co) * Pow2(cone.cosTheta))
  }

  /** Squaring by `** 2` and by multiplication agree over the reals, so both
      tests work with one quadratic. */
  lemma ShadowCoefficientsAgree(cone: Cone, ray: Ray)
    ensures ShadowCoefficients(cone, ray) == Coefficients(cone, ray)
  {
    assert Pow2(cone.cosTheta) == cone.cosTheta * cone.cosTheta;
  }

  /** `sqrt` returns the true square root of the discriminant of `q`
      whenever the code goes on to take it, i.e. once the discriminant has
      passed the `eps` test. */
  ghost predicate SqrtValidFor(sqrt: real -> real, q: Quadratic, eps: Epsilon) {
    Discriminant(q) >= eps ==> IsSqrt(sqrt(Discriminant(q)), Discriminant(q))
  }

  /** The distance a quadratic offers a ray, the step `hit` and `hitShadow`
      share (pyrt/geometry/cone.py lines 46-52 and 83-89): no candidate when
      the discriminant is below `eps` (tangency counts as a miss), a division
      by zero when the leading coefficient vanishes, and otherwise the root
      `-(b + sqrt D) / 2a`.
      That root is the smallest root when `a > 0` and the largest when `a < 0`. */
  function Candidate(q: Quadratic, eps: Epsilon, sqrt: real -> real): (r: Result<Option<real>, Fault>)
    ensures r.Failure? <==> Discriminant(q) >= eps && q.a == 0.0
    ensures r.Success? ==> (r.value.None? <==> Discriminant(q) < eps)
    ensures r.Success? && r.value.Some? && SqrtValidFor(sqrt, q, eps) ==>
      var t := r.value.value;
      && IsRoot(q, t)
      && (q.a > 0.0 ==> forall x :: IsRoot(q, x) ==> t <= x)
      && (q.a < 0.0 ==> forall x :: IsRoot(q, x) ==> x <= t)
  {
    var d := Discriminant(q);
    if d < eps then Success(None)
    else
      var s := sqrt(d);
      if q.a == 0.0 then Failure(ZeroDivision)
      else
        RootMinusIsExtremal(q, s);
        Success(Some(RootMinus(q, s)))
  }

  /** The record-update rule: a candidate wins when it lies in front of the
      ray origin and is no farther than the best distance so far (an equal
      distance wins too). */
  predicate Accepts(best: Option<real>, t: real) {
    t > 0.0 && (best.None? || t <= best.value)
  }

  /** The record a successful hit at distance `t` leaves behind. */
  function Filled(cone: Cone, ray: Ray, t: real): HitRecord {
    var p := Add(ray.start, Scale(t, ray.direction));
    var n := Sub(p, cone.center);
    HitRecord(Some(t), p, n, n, White, cone.material)
  }

  /** The second half of `hit`: offer the candidate distance `t` to the
      record, refusing it when the record is closer and when it lies behind
      the ray origin. */
  function Update(cone: Cone, ray: Ray, rec: HitRecord, t: real): (r: (bool, HitRecord))
    ensures r.0 <==> Accepts(rec.t, t)
    ensures !r.0 ==> r.1 == rec
    ensures r.0 ==>
      && r.1.t == Some(t)
      && r.1.point == Add(ray.start, Scale(t, ray.direction))
      && r.1.normalG == Sub(r.1.point, cone.center)
      && r.1.normal == r.1.normalG
      && r.1.color == White
      && r.1.material == cone.material
  {
    if rec.t.Some? && rec.t.value < t then (false, rec)
    else if t > 0.0 then (true, Filled(cone, ray, t))
    else (false, rec)
  }

  /** `Cone.hit`: the boolean answer together with the record after the call. */
  function Hit(cone: Cone, ray: Ray, rec: HitRecord, eps: Epsilon, sqrt: real -> real): (r: Result<(bool, HitRecord), Fault>)
    ensures var q := Coefficients(cone, ray);
      r.Failure? <==> Discriminant(q) >= eps && q.a == 0.0
    ensures Discriminant(Coefficients(cone, ray)) < eps ==> r == Success((false, rec))
    ensures r.Success? && !r.value.0 ==> r.value.1 == rec
    ensures r.Success? ==>
      var c := Candidate(Coefficients(cone, ray), eps, sqrt);
      c.Success? && (r.value.0 <==> c.value.Some? && Accepts(rec.t, c.value.value))
    ensures r.Success? && r.value.0 ==>
      var n := r.value.1;
      && n.t.Some?
      && n.t == Candidate(Coefficients(cone, ray), eps, sqrt).value
      && n.t.value > 0.0
      && (rec.t.Some? ==> n.t.value <= rec.t.value)
      && (SqrtValidFor(sqrt, Coefficients(cone, ray), eps) ==> IsRoot(Coefficients(cone, ray), n.t.value))
      && n.point == Add(ray.start, Scale(n.t.value, ray.direction))
      && n.normalG == Sub(n.point, cone.center)
      && n.normal == n.normalG
      && n.color == White
      && n.material == cone.material
  {
    match Candidate(Coefficients(cone, ray), eps, sqrt)
    case Failure(e) => Failure(e)
    case Success(None) => Success((false, rec))
    case Success(Some(t)) => Success(Update(cone, ray, rec, t))
  }

  /** `Cone.hitShadow`: whether the chosen root lies in front of the ray
      origin, with no record involved. */
  function HitShadow(cone: Cone, ray: Ray, eps: Epsilon, sqrt: real -> real): (r: Result<bool, Fault>)
    ensures var q := Coefficients(cone, ray);
      r.Failure? <==> Discriminant(q) >= eps && q.a == 0.0
    ensures Discriminant(Coefficients(cone, ray)) < eps ==> r == Success(false)
    ensures r == Success(true) && SqrtValidFor(sqrt, Coefficients(cone, ray), eps) ==>
      exists t :: t > 0.0 && IsRoot(Coefficients(cone, ray), t)
  {
    ShadowCoefficientsAgree(cone, ray);
    match Candidate(ShadowCoefficients(cone, ray), eps, sqrt)
    case Failure(e) => Failure(e)
    case Success(None) => Success(false)
    case Success(Some(t)) => Success(t > 0.0)
  }

  /** `Cone.getBBox`: a fixed box of half-width 10 around the apex. It does
      not bound the infinite cone; it only gives the acceleration structure a
      box centred on the shape. */
  function GetBBox(cone: Cone): (box: BBox)
    ensures LessEq(box.min, box.max)
    ensures Sub(box.max, box.min) == Vec3(20.0, 20.0, 20.0)
    ensures Midpoint(box) == cone.center
  {
    BBox(Sub(cone.center, Vec3(10.0, 10.0, 10.0)), Add(cone.center, Vec3(10.0, 10.0, 10.0)))
  }

  /** `Cone.getCentroid`: the apex, which is the midpoint of the cone's box. */
  function GetCentroid(cone: Cone): (p: Vec3)
    ensures p == Midpoint(GetBBox(cone))
    ensures Contains(GetBBox(cone), p)
  {
    cone.center
  }
}
