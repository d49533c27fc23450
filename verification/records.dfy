/** The value types a ray query is made of: the ray itself, the running
    best-hit record, the axis-aligned box a shape reports, and the exceptions
    the intersection code can raise. */
module Records {
  import opened Wrappers
  import opened Vectors

  /** Identity of the shared material object a shape points to. Its shading
      parameters do not take part in intersection, so only identity is kept. */
  datatype Material = MaterialRef(id: nat)

  /** A ray `start + t * direction`; the direction need not be unit length. */
  datatype Ray = Ray(start: Vec3, direction: Vec3)

  /** The best intersection found so far for one ray. `t == None` means no
      shape has reported a hit yet; the other fields are only meaningful
      once `t` is set. */
  datatype HitRecord = HitRecord(
    t: Option<real>,
    point: Vec3,
    normalG: Vec3,
    normal: Vec3,
    color: Vec3,
    material: Material
  )

  /** Axis-aligned bounding box given by its two corners. */
  datatype BBox = BBox(min: Vec3, max: Vec3)

  /** Exceptions the intersection code can raise. */
  datatype Fault = ZeroDivision

  /** Positive tolerance below which a discriminant counts as "no hit". */
  type Epsilon = e: real | e > 0.0 witness 1.0

  const White := Vec3(1.0, 1.0, 1.0)

  function Midpoint(box: BBox): Vec3 {
    Scale(0.5, Add(box.min, box.max))
  }

  predicate Contains(box: BBox, p: Vec3) {
    LessEq(box.min, p) && LessEq(p, box.max)
  }
}
