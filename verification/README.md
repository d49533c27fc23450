# Ray–cone intersection of pyRT, modelled in Dafny

This project models the cone shape of the pyRT ray tracer
(`pyrt/geometry/cone.py`): the ray test `Cone.hit`, which solves the
ray/cone quadratic and updates a shared hit record only when its answer is
closer, the existence-only shadow test `Cone.hitShadow`, and the trivial
`getBBox` and `getCentroid`. It also models the closest-hit protocol those
tests serve: one record is handed to every shape in turn, and the record that
comes out holds the nearest accepted hit.

Everything is over exact reals. A cone stores `cosTheta`, the value of the
foreign `cos(theta)`. The square root is a function parameter `sqrt`. The
hit/miss decision, the error cases and the record protocol are proved for any
`sqrt`. Statements about roots of the quadratic assume `sqrt` returns the true
non-negative root of the one discriminant the code takes it of
(`Cones.SqrtValidFor`). The tolerance `G_EPSILON` belongs to the math package, which is not part of
this model. Here it is a parameter `eps` of type `Epsilon` (any positive real).
A Python exception becomes `Failure(ZeroDivision)` of a `Result`.

Files:

- `wrappers.dfy`: `Option` and `Result`.
- `vectors.dfy`: `Vec3`, `Add`, `Sub`, `Scale`, `Dot3`.
- `records.dfy`: `Ray`, `HitRecord`, `BBox`, `Material` (identity only), `Fault`.
- `quadratic.dfy`: the quadratic, its discriminant and the two closed-form roots.
- `cone.dfy`: the cone and its four operations.
- `cone_properties.dfy`: lemmas relating `hit` to `hitShadow` and to itself.
- `scan.dfy`: the closest-hit scan over a sequence of cones.

Behaviour of the code that the model keeps as written:

- Ties overwrite: `hit` refuses a candidate only when `t0 < t`, so an equal
  distance overwrites the record (`Cones.Accepts` uses `<=`). Of shapes at
  equal distance, the one asked last wins (`Scan.LastOffererWins`).
- A zero leading coefficient is not guarded: the code divides by `a` and
  raises. The model returns `Failure(ZeroDivision)` whenever the discriminant
  passes the `eps` test and `a == 0`.
- `hit` and `hitShadow` look only at the root `-(b + sqrt D) / 2a`.
  `Cones.Candidate` proves this is the smallest root when `a > 0` and the
  largest when `a < 0`. So when `a > 0` and the smaller root is negative while
  the larger is positive, both tests report a miss.

## Model

| member | source | states |
|---|---|---|
| Quadratic.Factorization | pyrt/geometry/cone.py:46-52 | with `a != 0` and `s*s` equal to the discriminant, `a t^2 + b t + c` equals `a (t - r1)(t - r2)` for the two closed-form roots |
| Quadratic.RootsOfQuadratic | pyrt/geometry/cone.py:46-52 | with `a != 0` and `s*s` equal to the discriminant, a real is a root exactly when it is one of the two closed-form roots |
| Quadratic.RootMinusIsExtremal | pyrt/geometry/cone.py:51-52 | when `s` is the square root of the discriminant, the root `-0.5 (b + s) / a` that the code takes is a root; it is the least root when `a > 0` and the greatest when `a < 0` |
| Cones.Candidate | pyrt/geometry/cone.py:46-52 | for coefficients `a`, `b`, `c`: no candidate exactly when the discriminant is below `eps`; a division-by-zero fault exactly when it passes and `a == 0`; otherwise, given a true square root, a root of the quadratic: the least one when `a > 0` and the greatest when `a < 0` |
| Cones.Update | pyrt/geometry/cone.py:54-68 | a candidate is accepted exactly when it is positive and no farther than the recorded distance, so a farther one is refused and an equal one overwrites; a refusal leaves the record unchanged; an acceptance sets `t`, `point = start + t direction`, `normal_g = point - center`, `normal = normal_g`, white color and the cone's material |
| Cones.Hit | pyrt/geometry/cone.py:26-68 | with the coefficients `a`, `b`, `c` of lines 39-45 (`Cones.Coefficients`): raises exactly on a degenerate `a`; a discriminant below `eps` and any `false` answer leave the record unchanged; `true` exactly when the candidate is positive and no farther than the entry distance (ties overwrite); on `true` the record's `t` is exactly the computed candidate `-0.5 (b + sqrt D) / a`, positive, no farther than the entry distance and (given a true square root) a root of the quadratic, `point = start + t direction`, `normal_g = point - center`, `normal = normal_g`, white color and the cone's material |
| Cones.ShadowCoefficientsAgree | pyrt/geometry/cone.py:79-82 | the coefficients `hitShadow` computes with `cos * cos` equal those `hit` computes with `cos ** 2` |
| Cones.HitShadow | pyrt/geometry/cone.py:71-93 | raises exactly when `hit` would; `false` when the discriminant is below `eps`; given a true square root, `true` only if the quadratic has a positive root |
| Cones.GetBBox | pyrt/geometry/cone.py:96-105 | the box's min corner is componentwise below its max corner, each side is 20 long, and its midpoint is the apex |
| Cones.GetCentroid | pyrt/geometry/cone.py:108-113 | the centroid is the midpoint of the cone's bounding box and lies inside it |
| ConeProperties.ShadowAgreesWithHit | pyrt/geometry/cone.py:79-93 | on a record with no distance yet, `hitShadow` raises exactly when `hit` raises and otherwise returns the same answer |
| ConeProperties.HitImpliesShadow | pyrt/geometry/cone.py:54-57 | if `hit` succeeds for any record, `hitShadow` returns true for that ray |
| ConeProperties.TieOverwrites | pyrt/geometry/cone.py:54-66 | a positive candidate equal to the recorded distance is accepted, installs this cone's material, and writes the same record as on a fresh query |
| ConeProperties.HitRecordIndependentOfEntry | pyrt/geometry/cone.py:58-66 | two successful hits of one cone and ray on different entry records produce the same record: every field is overwritten |
| Scan.ClosestHit | pyrt/geometry/cone.py:48-52 | a scan over cones raises exactly when some cone in it has a degenerate leading coefficient past the discriminant test |
| Scan.ClosestHitIsMinimum | pyrt/geometry/cone.py:54-58 | after a scan the distance is at most the entry distance and every positive candidate, and it is the entry distance or one some cone offered: the minimum |
| Scan.ClosestHitOrderIndependent | pyrt/geometry/cone.py:54-58 | two scans over the same cones in any order agree on raising and on the final distance |
| Scan.LastOffererWins | pyrt/geometry/cone.py:54-66 | the final record is the one filled by the last cone in the scan that offered the final distance |
| Scan.UnclaimedRecordKept | pyrt/geometry/cone.py:54-68 | if no cone offered the final distance, the scan returns the entry record unchanged |
| Scan.CloserConeWins | pyrt/geometry/cone.py:54-66 | of two cones that both meet a ray on a fresh record, the nearer one fills the record, in either order |

## Left out

- `Cone.getSurfaceArea` (pyrt/geometry/cone.py:116-122) is not modelled. It reads `self.radius`, which the constructor never sets, so every call raises `AttributeError`.
- `Cone.__init__` and the `Shape` base class: the constructor only stores its arguments, which the `Cone` datatype holds directly.
- Floating-point rounding, `math.sqrt` and `math.cos`. The model is over exact reals. The square root is a parameter and the cosine a stored value.
- Whether the hit point lies on the geometric cone, and whether `point - center` is its surface normal. The leading coefficient leaves out `D.D`, so the first holds only for unit-length ray directions, and the normal is an approximation. The model states neither.
- `Cones.HitShadow`: its own contract only says that a `true` answer means a positive root exists; the exact agreement with `hit` is stated by `ConeProperties.ShadowAgreesWithHit`.
- The renderer, camera, lights, `PhongMaterial`, `BBox` and the math package are not part of this model. A material is kept only as an identity. The scan in `scan.dfy` models the protocol through which a renderer uses `hit`, over cones only.
- `examples/14_cone.py` is a scene-assembly script with no logic of its own.
