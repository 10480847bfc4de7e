/**
  Axis-aligned rectangles (`xy_rect`, `xz_rect`, `yz_rect`). Each lies in the
  plane where its perpendicular coordinate equals `k` and spans two closed
  ranges on the other two axes. A ray meets the plane at the single parameter
  that solves one linear equation; the hit is rejected when that parameter is
  outside the search interval or the point is outside the bounds.

  The search interval is represented by its membership test `rayT`
  (`ray_t.contains`), whose definition is not part of this model.
 */
module Rect {
  import opened Vectors
  import opened Hittable

  /** The three rectangle kinds with the constructor arguments in source order. */
  datatype Rect<M> =
    | XYRect(x0: real, x1: real, y0: real, y1: real, k: real, mat: M)
    | XZRect(x0: real, x1: real, z0: real, z1: real, k: real, mat: M)
    | YZRect(y0: real, y1: real, z0: real, z1: real, k: real, mat: M)
  {
    /** The axis the plane is perpendicular to. */
    function Perp(): Axis
    {
      if XYRect? then Z else if XZRect? then Y else X
    }

    /** The first in-plane axis and its bounds. */
    function U(): Axis
    {
      if YZRect? then Y else X
    }

    function U0(): real
    {
      if YZRect? then y0 else x0
    }

    function U1(): real
    {
      if YZRect? then y1 else x1
    }

    /** The second in-plane axis and its bounds. */
    function V(): Axis
    {
      if XYRect? then Y else Z
    }

    function V0(): real
    {
      if XYRect? then y0 else z0
    }

    function V1(): real
    {
      if XYRect? then y1 else z1
    }

    /**
      `hit`: computes the crossing (`Intersect`); only on success writes t,
      the hit point, the material and the face normal into `rec` and answers
      true; otherwise answers false before any write.
     */
    method Hit(r: Ray, rayT: real -> bool, rec: HitRecord<M>, setFaceNormal: (Ray, Vec3) -> Face)
      returns (hit: bool)
      modifies rec
      ensures hit == Intersect(this, r, rayT).Some?
      ensures hit ==>
        var h := Intersect(this, r, rayT).value;
        var face := setFaceNormal(r, UnitAxis(Perp()));
        rec.Value() == Record(h.p, face.normal, mat, h.t, face.frontFace)
      ensures !hit ==> unchanged(rec)
    {
      var h := Intersect(this, r, rayT);
      if h.None? {
        return false;
      }
      rec.t := h.value.t;
      rec.p := h.value.p;
      rec.mat := mat;
      var face := setFaceNormal(r, h.value.outward);
      rec.frontFace, rec.normal := face.frontFace, face.normal;
      return true;
    }
  }

  /** The parameter at which `origin + t * direction` reaches `k` along one axis. */
  function Solve(k: real, origin: real, direction: real): (t: real)
    requires direction != 0.0
    ensures origin + t * direction == k
  {
    (k - origin) / direction
  }

  /** The plane equation has no other solution. */
  lemma SolveUnique(k: real, origin: real, direction: real, t: real)
    requires direction != 0.0 && origin + t * direction == k
    ensures t == Solve(k, origin, direction)
  {
  }

  /** Reference definition: p lies on the rectangle (its plane, inside both closed ranges). */
  ghost predicate OnRect<M>(s: Rect<M>, p: Vec3)
  {
    && Coord(p, s.Perp()) == s.k
    && s.U0() <= Coord(p, s.U()) <= s.U1()
    && s.V0() <= Coord(p, s.V()) <= s.V1()
  }

  /** The values a successful `hit` writes: t, the point, and the outward normal it passes on. */
  datatype Intersection = Intersection(t: real, p: Vec3, outward: Vec3)

  /** `xy_rect::hit` before its writes: the plane z = k, bounds on x and y. */
  function IntersectXY(x0: real, x1: real, y0: real, y1: real, k: real, r: Ray, rayT: real -> bool): (h: Option<Intersection>)
    ensures h.Some? ==> rayT(h.value.t) && h.value.p == r.At(h.value.t) && h.value.outward == Vec3(0.0, 0.0, 1.0)
    ensures h.Some? ==> h.value.p.z == k && x0 <= h.value.p.x <= x1 && y0 <= h.value.p.y <= y1
    ensures r.direction.z == 0.0 ==> h == None
  {
    var o, d := r.origin, r.direction;
    if d.z == 0.0 then None
    else
      var t := Solve(k, o.z, d.z);
      if !rayT(t) then None
      else
        var x := o.x + t * d.x;
        var y := o.y + t * d.y;
        if x < x0 || x > x1 || y < y0 || y > y1 then None
        else Some(Intersection(t, r.At(t), Vec3(0.0, 0.0, 1.0)))
  }

  /** `xz_rect::hit` before its writes: the plane y = k, bounds on x and z. */
  function IntersectXZ(x0: real, x1: real, z0: real, z1: real, k: real, r: Ray, rayT: real -> bool): (h: Option<Intersection>)
    ensures h.Some? ==> rayT(h.value.t) && h.value.p == r.At(h.value.t) && h.value.outward == Vec3(0.0, 1.0, 0.0)
    ensures h.Some? ==> h.value.p.y == k && x0 <= h.value.p.x <= x1 && z0 <= h.value.p.z <= z1
    ensures r.direction.y == 0.0 ==> h == None
  {
    var o, d := r.origin, r.direction;
    if d.y == 0.0 then None
    else
      var t := Solve(k, o.y, d.y);
      if !rayT(t) then None
      else
        var x := o.x + t * d.x;
        var z := o.z + t * d.z;
        if x < x0 || x > x1 || z < z0 || z > z1 then None
        else Some(Intersection(t, r.At(t), Vec3(0.0, 1.0, 0.0)))
  }

  /** `yz_rect::hit` before its writes: the plane x = k, bounds on y and z. */
  function IntersectYZ(y0: real, y1: real, z0: real, z1: real, k: real, r: Ray, rayT: real -> bool): (h: Option<Intersection>)
    ensures h.Some? ==> rayT(h.value.t) && h.value.p == r.At(h.value.t) && h.value.outward == Vec3(1.0, 0.0, 0.0)
    ensures h.Some? ==> h.value.p.x == k && y0 <= h.value.p.y <= y1 && z0 <= h.value.p.z <= z1
    ensures r.direction.x == 0.0 ==> h == None
  {
    var o, d := r.origin, r.direction;
    if d.x == 0.0 then None
    else
      var t := Solve(k, o.x, d.x);
      if !rayT(t) then None
      else
        var y := o.y + t * d.y;
        var z := o.z + t * d.z;
        if y < y0 || y > y1 || z < z0 || z > z1 then None
        else Some(Intersection(t, r.At(t), Vec3(1.0, 0.0, 0.0)))
  }

  /**
    The intersection a rectangle's `hit` computes before any write. A zero
    direction component along the perpendicular axis is a miss.
   */
  function Intersect<M>(s: Rect<M>, r: Ray, rayT: real -> bool): (h: Option<Intersection>)
    ensures h.Some? ==> rayT(h.value.t) && h.value.p == r.At(h.value.t)
    ensures h.Some? ==> OnRect(s, h.value.p)
    ensures h.Some? ==> h.value.outward == UnitAxis(s.Perp())
    ensures Coord(r.direction, s.Perp()) == 0.0 ==> h == None
  {
    match s
    case XYRect(x0, x1, y0, y1, k, _) => IntersectXY(x0, x1, y0, y1, k, r, rayT)
    case XZRect(x0, x1, z0, z1, k, _) => IntersectXZ(x0, x1, z0, z1, k, r, rayT)
    case YZRect(y0, y1, z0, z1, k, _) => IntersectYZ(y0, y1, z0, z1, k, r, rayT)
  }

  /** Completeness of `xy_rect::hit` for one parameter t on the rectangle. */
  lemma XYComplete(x0: real, x1: real, y0: real, y1: real, k: real, r: Ray, rayT: real -> bool, t: real)
    requires r.direction.z != 0.0 && rayT(t)
    requires r.At(t).z == k && x0 <= r.At(t).x <= x1 && y0 <= r.At(t).y <= y1
    ensures IntersectXY(x0, x1, y0, y1, k, r, rayT) == Some(Intersection(t, r.At(t), Vec3(0.0, 0.0, 1.0)))
  {
    SolveUnique(k, r.origin.z, r.direction.z, t);
  }

  /** Completeness of `xz_rect::hit` for one parameter t on the rectangle. */
  lemma XZComplete(x0: real, x1: real, z0: real, z1: real, k: real, r: Ray, rayT: real -> bool, t: real)
    requires r.direction.y != 0.0 && rayT(t)
    requires r.At(t).y == k && x0 <= r.At(t).x <= x1 && z0 <= r.At(t).z <= z1
    ensures IntersectXZ(x0, x1, z0, z1, k, r, rayT) == Some(Intersection(t, r.At(t), Vec3(0.0, 1.0, 0.0)))
  {
    SolveUnique(k, r.origin.y, r.direction.y, t);
  }

  /** Completeness of `yz_rect::hit` for one parameter t on the rectangle. */
  lemma YZComplete(y0: real, y1: real, z0: real, z1: real, k: real, r: Ray, rayT: real -> bool, t: real)
    requires r.direction.x != 0.0 && rayT(t)
    requires r.At(t).x == k && y0 <= r.At(t).y <= y1 && z0 <= r.At(t).z <= z1
    ensures IntersectYZ(y0, y1, z0, z1, k, r, rayT) == Some(Intersection(t, r.At(t), Vec3(1.0, 0.0, 0.0)))
  {
    SolveUnique(k, r.origin.x, r.direction.x, t);
  }

  /**
    Completeness: whenever the ray is not parallel to the plane and some
    parameter t in the interval puts the ray on the rectangle, `hit` finds
    exactly that t.
   */
  lemma IntersectComplete<M>(s: Rect<M>, r: Ray, rayT: real -> bool, t: real)
    requires Coord(r.direction, s.Perp()) != 0.0
    requires rayT(t) && OnRect(s, r.At(t))
    ensures Intersect(s, r, rayT) == Some(Intersection(t, r.At(t), UnitAxis(s.Perp())))
  {
    match s
    case XYRect(x0, x1, y0, y1, k, _) => XYComplete(x0, x1, y0, y1, k, r, rayT, t);
    case XZRect(x0, x1, z0, z1, k, _) => XZComplete(x0, x1, z0, z1, k, r, rayT, t);
    case YZRect(y0, y1, z0, z1, k, _) => YZComplete(y0, y1, z0, z1, k, r, rayT, t);
  }

  /**
    `hit` succeeds exactly when the ray is not parallel to the plane and meets
    the rectangle at a parameter inside the interval.
   */
  lemma IntersectIff<M>(s: Rect<M>, r: Ray, rayT: real -> bool)
    ensures Intersect(s, r, rayT).Some? <==>
      Coord(r.direction, s.Perp()) != 0.0 && exists t :: rayT(t) && OnRect(s, r.At(t))
  {
    if Coord(r.direction, s.Perp()) != 0.0 && exists t :: rayT(t) && OnRect(s, r.At(t)) {
      var t :| rayT(t) && OnRect(s, r.At(t));
      IntersectComplete(s, r, rayT, t);
    }
  }

  /** A rectangle whose bounds are inverted on either axis is never hit. */
  lemma InvertedNeverHit<M>(s: Rect<M>, r: Ray, rayT: real -> bool)
    requires s.U0() > s.U1() || s.V0() > s.V1()
    ensures Intersect(s, r, rayT) == None
  {
  }
}
