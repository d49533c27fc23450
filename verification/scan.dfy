/** The closest-hit protocol: one record is offered to every shape in turn
    and each `hit` overwrites it only when its own candidate is in front of
    the ray origin and no farther than the record's distance. Here the
    shapes are cones, asked in sequence order. */
module Scan {
  import opened Wrappers
  import opened Records
  import opened Quadratic
  import opened Cones

  /** The cone's test divides by a zero leading coefficient. */
  ghost predicate Degenerate(cone: Cone, ray: Ray, eps: Epsilon) {
    var q := Coefficients(cone, ray);
    Discriminant(q) >= eps && q.a == 0.0
  }

  /** The cone offers the ray the distance `t`, in front of its origin. */
  ghost predicate Offers(cone: Cone, ray: Ray, eps: Epsilon, sqrt: real -> real, t: real) {
    && Candidate(Coefficients(cone, ray), eps, sqrt) == Success(Some(t))
    && t > 0.0
  }

  /** Offers `rec` to every cone of `cones` in order; the first exception
      raised ends the scan. */
  function ClosestHit(cones: seq<Cone>, ray: Ray, rec: HitRecord, eps: Epsilon, sqrt: real -> real): (r: Result<HitRecord, Fault>)
    ensures r.Failure? <==> exists i :: 0 <= i < |cones| && Degenerate(cones[i], ray, eps)
    decreases |cones|
  {
    if |cones| == 0 then Success(rec)
    else
      var last := |cones| - 1;
      assert forall i :: 0 <= i < last ==> cones[..last][i] == cones[i];
      match ClosestHit(cones[..last], ray, rec, eps, sqrt)
      case Failure(e) => Failure(e)
      case Success(acc) =>
        match Hit(cones[last], ray, acc, eps, sqrt)
        case Failure(e) => Failure(e)
        case Success(res) => Success(res.1)
  }

  /** After the scan the record holds the least of the entry distance and
      every distance a cone offered, whatever the order of the cones. */
  lemma {:induction false} ClosestHitIsMinimum(cones: seq<Cone>, ray: Ray, rec: HitRecord, eps: Epsilon, sqrt: real -> real)
    requires ClosestHit(cones, ray, rec, eps, sqrt).Success?
    ensures var f := ClosestHit(cones, ray, rec, eps, sqrt).value.t;
      rec.t.Some? ==> f.Some? && f.value <= rec.t.value
    ensures var f := ClosestHit(cones, ray, rec, eps, sqrt).value.t;
      forall i, t :: 0 <= i < |cones| && Offers(cones[i], ray, eps, sqrt, t) ==> f.Some? && f.value <= t
    ensures var f := ClosestHit(cones, ray, rec, eps, sqrt).value.t;
      f.Some? ==> f == rec.t || exists i :: 0 <= i < |cones| && Offers(cones[i], ray, eps, sqrt, f.value)
    decreases |cones|
  {
    if |cones| > 0 {
      var last := |cones| - 1;
      var prefix := cones[..last];
      assert forall i :: 0 <= i < last ==> prefix[i] == cones[i];
      ClosestHitIsMinimum(prefix, ray, rec, eps, sqrt);
      var p := ClosestHit(prefix, ray, rec, eps, sqrt).value;
      var res := Hit(cones[last], ray, p, eps, sqrt).value;
      var f := ClosestHit(cones, ray, rec, eps, sqrt).value.t;
      assert f == res.1.t;
      if res.0 {
        assert Offers(cones[last], ray, eps, sqrt, f.value);
      } else {
        assert f == p.t;
        if f.Some? && f != rec.t {
          var i :| 0 <= i < last && Offers(prefix[i], ray, eps, sqrt, f.value);
          assert Offers(cones[i], ray, eps, sqrt, f.value);
        }
      }
    }
  }

  /** Two scans over the same cones, in any order and with any repetition,
      agree on failure and on the distance they end with. */
  lemma ClosestHitOrderIndependent(cones1: seq<Cone>, cones2: seq<Cone>, ray: Ray, rec: HitRecord, eps: Epsilon, sqrt: real -> real)
    requires forall c :: c in cones1 <==> c in cones2
    ensures ClosestHit(cones1, ray, rec, eps, sqrt).Failure? <==> ClosestHit(cones2, ray, rec, eps, sqrt).Failure?
    ensures ClosestHit(cones1, ray, rec, eps, sqrt).Success? ==>
      ClosestHit(cones1, ray, rec, eps, sqrt).value.t == ClosestHit(cones2, ray, rec, eps, sqrt).value.t
  {
    var r1, r2 := ClosestHit(cones1, ray, rec, eps, sqrt), ClosestHit(cones2, ray, rec, eps, sqrt);
    DegenerateShared(cones1, cones2, ray, eps);
    DegenerateShared(cones2, cones1, ray, eps);
    if r1.Success? && r2.Success? {
      var f1, f2 := r1.value.t, r2.value.t;
      BoundedByOther(cones1, cones2, ray, rec, eps, sqrt);
      BoundedByOther(cones2, cones1, ray, rec, eps, sqrt);
      if f1.Some? && f2.Some? {
        assert f1.value <= f2.value && f2.value <= f1.value;
      }
    }
  }

  /** A degenerate cone of one collection is a degenerate cone of any
      collection with the same elements. */
  lemma DegenerateShared(cones1: seq<Cone>, cones2: seq<Cone>, ray: Ray, eps: Epsilon)
    requires forall c :: c in cones1 ==> c in cones2
    ensures (exists i :: 0 <= i < |cones1| && Degenerate(cones1[i], ray, eps)) ==>
      exists j :: 0 <= j < |cones2| && Degenerate(cones2[j], ray, eps)
  {
    if i :| 0 <= i < |cones1| && Degenerate(cones1[i], ray, eps) {
      assert cones1[i] in cones2;
      var j :| 0 <= j < |cones2| && cones2[j] == cones1[i];
      assert Degenerate(cones2[j], ray, eps);
    }
  }

  /** Half of the order-independence argument: the first scan's distance is
      no larger than the second's, since the second scan's distance is the
      entry distance or one some cone of the first scan offers too. */
  lemma BoundedByOther(cones1: seq<Cone>, cones2: seq<Cone>, ray: Ray, rec: HitRecord, eps: Epsilon, sqrt: real -> real)
    requires forall c :: c in cones1 <==> c in cones2
    requires ClosestHit(cones1, ray, rec, eps, sqrt).Success?
    requires ClosestHit(cones2, ray, rec, eps, sqrt).Success?
    ensures var f1, f2 := ClosestHit(cones1, ray, rec, eps, sqrt).value.t, ClosestHit(cones2, ray, rec, eps, sqrt).value.t;
      f2.Some? ==> f1.Some? && f1.value <= f2.value
  {
    ClosestHitIsMinimum(cones1, ray, rec, eps, sqrt);
    ClosestHitIsMinimum(cones2, ray, rec, eps, sqrt);
    var f1, f2 := ClosestHit(cones1, ray, rec, eps, sqrt).value.t, ClosestHit(cones2, ray, rec, eps, sqrt).value.t;
    if f2.Some? && f2 != rec.t {
      var j :| 0 <= j < |cones2| && Offers(cones2[j], ray, eps, sqrt, f2.value);
      assert cones2[j] in cones1;
      var i :| 0 <= i < |cones1| && cones1[i] == cones2[j];
      assert Offers(cones1[i], ray, eps, sqrt, f2.value);
    }
  }

  /** The record's other fields come from the last cone in the scan that
      offered the final distance: of cones at equal distance the one asked
      last wins. */
  lemma {:induction false} LastOffererWins(cones: seq<Cone>, ray: Ray, rec: HitRecord, eps: Epsilon, sqrt: real -> real, j: nat)
    requires ClosestHit(cones, ray, rec, eps, sqrt).Success?
    requires ClosestHit(cones, ray, rec, eps, sqrt).value.t.Some?
    requires j < |cones|
    requires Offers(cones[j], ray, eps, sqrt, ClosestHit(cones, ray, rec, eps, sqrt).value.t.value)
    requires forall k :: j < k < |cones| ==>
      !Offers(cones[k], ray, eps, sqrt, ClosestHit(cones, ray, rec, eps, sqrt).value.t.value)
    ensures ClosestHit(cones, ray, rec, eps, sqrt).value ==
      Filled(cones[j], ray, ClosestHit(cones, ray, rec, eps, sqrt).value.t.value)
    decreases |cones|
  {
    var last := |cones| - 1;
    var prefix := cones[..last];
    assert forall i :: 0 <= i < last ==> prefix[i] == cones[i];
    var p := ClosestHit(prefix, ray, rec, eps, sqrt).value;
    var res := Hit(cones[last], ray, p, eps, sqrt).value;
    var f := ClosestHit(cones, ray, rec, eps, sqrt).value;
    if j < last {
      assert !Offers(cones[last], ray, eps, sqrt, f.t.value);
      assert !res.0;
      LastOffererWins(prefix, ray, rec, eps, sqrt, j);
    }
  }

  /** When no cone offered the final distance, the scan never touched the
      record. */
  lemma {:induction false} UnclaimedRecordKept(cones: seq<Cone>, ray: Ray, rec: HitRecord, eps: Epsilon, sqrt: real -> real)
    requires ClosestHit(cones, ray, rec, eps, sqrt).Success?
    requires var f := ClosestHit(cones, ray, rec, eps, sqrt).value.t;
      f.None? || forall i :: 0 <= i < |cones| ==> !Offers(cones[i], ray, eps, sqrt, f.value)
    ensures ClosestHit(cones, ray, rec, eps, sqrt).value == rec
    decreases |cones|
  {
    if |cones| > 0 {
      var last := |cones| - 1;
      var prefix := cones[..last];
      assert forall i :: 0 <= i < last ==> prefix[i] == cones[i];
      var p := ClosestHit(prefix, ray, rec, eps, sqrt).value;
      var res := Hit(cones[last], ray, p, eps, sqrt).value;
      assert res.1 == p;
      UnclaimedRecordKept(prefix, ray, rec, eps, sqrt);
    }
  }

  /** Of two cones that both meet a fresh ray query, the nearer one supplies
      the record, in either order. */
  lemma CloserConeWins(near: Cone, far: Cone, ray: Ray, rec: HitRecord, eps: Epsilon, sqrt: real -> real, tNear: real, tFar: real)
    requires rec.t.None?
    requires Offers(near, ray, eps, sqrt, tNear)
    requires Offers(far, ray, eps, sqrt, tFar)
    requires tNear < tFar
    ensures ClosestHit([near, far], ray, rec, eps, sqrt) == Success(Filled(near, ray, tNear))
    ensures ClosestHit([far, near], ray, rec, eps, sqrt) == Success(Filled(near, ray, tNear))
  {
    NearerOfTwo([near, far], 0, ray, rec, eps, sqrt, tNear, tFar);
    NearerOfTwo([far, near], 1, ray, rec, eps, sqrt, tNear, tFar);
  }

  /** One order of `CloserConeWins`: `cones[n]` is the nearer cone. */
  lemma NearerOfTwo(cones: seq<Cone>, n: nat, ray: Ray, rec: HitRecord, eps: Epsilon, sqrt: real -> real, tNear: real, tFar: real)
    requires |cones| == 2 && n < 2
    requires rec.t.None?
    requires Offers(cones[n], ray, eps, sqrt, tNear)
    requires Offers(cones[1 - n], ray, eps, sqrt, tFar)
    requires tNear < tFar
    ensures ClosestHit(cones, ray, rec, eps, sqrt) == Success(Filled(cones[n], ray, tNear))
  {
    assert !Degenerate(cones[0], ray, eps) && !Degenerate(cones[1], ray, eps);
    ClosestHitIsMinimum(cones, ray, rec, eps, sqrt);
    var f := ClosestHit(cones, ray, rec, eps, sqrt).value.t;
    assert f == Some(tNear);
    LastOffererWins(cones, ray, rec, eps, sqrt, n);
  }
}
