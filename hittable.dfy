/**
  The hit record that intersection queries fill in. Its header is not part
  of this model: `set_face_normal` is kept abstract, as a function the caller
  supplies, from the ray and the geometric outward normal to the pair
  (front_face, normal) it stores.
 */
module Hittable {
  import opened Vectors

  /** What `set_face_normal(r, outward_normal)` stores in a record. */
  datatype Face = Face(frontFace: bool, normal: Vec3)

  /** A snapshot of a hit record's fields. */
  datatype Record<M> = Record(p: Vec3, normal: Vec3, mat: M, t: real, frontFace: bool)

  /**
    The search interval of the ray parameter; its upper end may be infinite.
    The camera's world query takes the interval itself. The rectangles and
    the box use only its membership test `interval::contains`, which they
    take as the predicate `rayT`.
   */
  datatype Bound = Finite(value: real) | Infinity
  datatype Interval = Interval(min: real, max: Bound)

  /**
    The caller-owned record (`hit_record& rec`) that a successful `hit`
    overwrites and a failed one leaves alone.
   */
  class HitRecord<M> {
    var p: Vec3
    var normal: Vec3
    var mat: M
    var t: real
    var frontFace: bool

    constructor (init: Record<M>)
      ensures Value() == init
    {
      p, normal, mat, t, frontFace := init.p, init.normal, init.mat, init.t, init.frontFace;
    }

    function Value(): Record<M>
      reads this
    {
      Record(p, normal, mat, t, frontFace)
    }

    /** Overwrites every field with the given snapshot. */
    method Assign(v: Record<M>)
      modifies this
      ensures Value() == v
    {
      p, normal, mat, t, frontFace := v.p, v.normal, v.mat, v.t, v.frontFace;
    }
  }
}
