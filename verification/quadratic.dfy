/** The quadratic `a t^2 + b t + c` whose roots are the ray parameters at
    which a ray meets a cone, and the closed-form root the cone test uses. */
module Quadratic {

  datatype Quadratic = Quadratic(a: real, b: real, c: real)

  function Discriminant(q: Quadratic): real {
    q.b * q.b - 4.0 * q.a * q.c
  }

  function Eval(q: Quadratic, x: real): real {
    q.a * x * x + q.b * x + q.c
  }

  ghost predicate IsRoot(q: Quadratic, x: real) {
    Eval(q, x) == 0.0
  }

  /** `s` is the non-negative square root of `x`. */
  predicate IsSqrt(s: real, x: real) {
    s >= 0.0 && s * s == x
  }

  /** The root `-(b + s) / (2a)`, written as the cone code computes it. */
  function RootMinus(q: Quadratic, s: real): real
    requires q.a != 0.0
  {
    -0.5 * (q.b + s) / q.a
  }

  /** The other root of the textbook formula, `(-b + s) / (2a)`. */
  function RootPlus(q: Quadratic, s: real): real
    requires q.a != 0.0
  {
    -0.5 * (q.b - s) / q.a
  }

  /** Sum and product of the two formula roots (Vieta). */
  lemma Vieta(q: Quadratic, s: real)
    requires q.a != 0.0
    requires s * s == Discriminant(q)
    ensures q.a * (RootMinus(q, s) + RootPlus(q, s)) == -q.b
    ensures q.a * RootMinus(q, s) * RootPlus(q, s) == q.c
  {
    var r1, r2 := RootMinus(q, s), RootPlus(q, s);
    assert q.a * r1 == -0.5 * (q.b + s);
    assert q.a * r2 == -0.5 * (q.b - s);
    calc {
      4.0 * q.a * (q.a * r1 * r2);
      4.0 * (q.a * r1) * (q.a * r2);
      4.0 * (-0.5 * (q.b + s)) * (-0.5 * (q.b - s));
      q.b * q.b - s * s;
      4.0 * q.a * q.c;
    }
  }

  /** With a non-zero leading coefficient, the quadratic factors through the
      two formula roots. */
  lemma Factorization(q: Quadratic, s: real, x: real)
    requires q.a != 0.0
    requires s * s == Discriminant(q)
    ensures Eval(q, x) == q.a * (x - RootMinus(q, s)) * (x - RootPlus(q, s))
  {
    var r1, r2 := RootMinus(q, s), RootPlus(q, s);
    Vieta(q, s);
    calc {
      q.a * (x - r1) * (x - r2);
      q.a * x * x - q.a * (r1 + r2) * x + q.a * r1 * r2;
      q.a * x * x + q.b * x + q.c;
    }
  }

  /** The roots of a proper quadratic are exactly the two formula roots. */
  lemma RootsOfQuadratic(q: Quadratic, s: real, x: real)
    requires q.a != 0.0
    requires s * s == Discriminant(q)
    ensures IsRoot(q, x) <==> x == RootMinus(q, s) || x == RootPlus(q, s)
  {
    Factorization(q, s, x);
    var r1, r2 := RootMinus(q, s), RootPlus(q, s);
    if IsRoot(q, x) {
      assert q.a * ((x - r1) * (x - r2)) == 0.0;
      assert (x - r1) * (x - r2) == 0.0;
    }
  }

  /** Given the true square root of the discriminant, `RootMinus` is a root:
      the smallest one when the parabola opens upwards and the largest when
      it opens downwards. */
  lemma RootMinusIsExtremal(q: Quadratic, s: real)
    requires q.a != 0.0
    ensures IsSqrt(s, Discriminant(q)) ==> IsRoot(q, RootMinus(q, s))
    ensures IsSqrt(s, Discriminant(q)) && q.a > 0.0 ==> forall x :: IsRoot(q, x) ==> RootMinus(q, s) <= x
    ensures IsSqrt(s, Discriminant(q)) && q.a < 0.0 ==> forall x :: IsRoot(q, x) ==> x <= RootMinus(q, s)
  {
    if IsSqrt(s, Discriminant(q)) {
      RootsOfQuadratic(q, s, RootMinus(q, s));
      var r1, r2 := RootMinus(q, s), RootPlus(q, s);
      assert q.a * (r2 - r1) == s;
      forall x | IsRoot(q, x)
        ensures q.a > 0.0 ==> r1 <= x
        ensures q.a < 0.0 ==> x <= r1
      {
        RootsOfQuadratic(q, s, x);
        if q.a > 0.0 && r2 < r1 {
          assert q.a * (r2 - r1) < 0.0;
        }
        if q.a < 0.0 && r1 < r2 {
          assert q.a * (r2 - r1) < 0.0;
        }
      }
    }
  }
}
