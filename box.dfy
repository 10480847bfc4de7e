/**
  The axis-aligned `box`: built from two corner points and one material as
  six rectangles, and hit-tested by handing the query to the list of its
  sides. The list's own `hit` (`hittable_list`) is not part of this model: it
  is the function `listHit` the caller supplies.
 */
module Box {
  import opened Vectors
  import opened Hittable
  import opened Rect

  /** `hittable_list::hit` over a list of rectangles: the answer and the record it leaves. */
  type ListHit<!M> = (seq<Rect<M>>, Ray, real -> bool, Record<M>) -> (bool, Record<M>)

  /** The perpendicular axis of face i: front/back on XY, top/bottom on XZ, right/left on YZ. */
  function FaceAxis(i: int): Axis
  {
    if i < 2 then Z else if i < 4 then Y else X
  }

  /**
    The six sides, in the order the constructor adds them: front, back, top,
    bottom, right, left. Each spans the corners' coordinates on its in-plane
    axes and sits at the second corner (even positions) or the first corner
    (odd positions) on its perpendicular axis; all share the one material.
   */
  function Faces<M>(p0: Vec3, p1: Vec3, mat: M): (f: seq<Rect<M>>)
    ensures |f| == 6
    ensures forall i :: 0 <= i < 6 ==> f[i].mat == mat
    ensures forall i :: 0 <= i < 6 ==> f[i].Perp() == FaceAxis(i)
    ensures forall i :: 0 <= i < 6 ==> f[i].k == Coord(if i % 2 == 0 then p1 else p0, FaceAxis(i))
    ensures forall i :: 0 <= i < 6 ==>
      && f[i].U0() == Coord(p0, f[i].U()) && f[i].U1() == Coord(p1, f[i].U())
      && f[i].V0() == Coord(p0, f[i].V()) && f[i].V1() == Coord(p1, f[i].V())
  {
    [ XYRect(p0.x, p1.x, p0.y, p1.y, p1.z, mat),  // front
      XYRect(p0.x, p1.x, p0.y, p1.y, p0.z, mat),  // back
      XZRect(p0.x, p1.x, p0.z, p1.z, p1.y, mat),  // top
      XZRect(p0.x, p1.x, p0.z, p1.z, p0.y, mat),  // bottom
      YZRect(p0.y, p1.y, p0.z, p1.z, p1.x, mat),  // right
      YZRect(p0.y, p1.y, p0.z, p1.z, p0.x, mat) ] // left
  }

  class Box<M> {
    var boxMin: Vec3
    var boxMax: Vec3
    var sides: seq<Rect<M>>

    /** Stores the corners as given (no reordering) and adds the six sides one by one. */
    constructor (p0: Vec3, p1: Vec3, mat: M)
      ensures boxMin == p0 && boxMax == p1
      ensures sides == Faces(p0, p1, mat)
    {
      boxMin := p0;
      boxMax := p1;
      sides := [];
      new;
      sides := sides + [XYRect(p0.x, p1.x, p0.y, p1.y, p1.z, mat)];  // front
      sides := sides + [XYRect(p0.x, p1.x, p0.y, p1.y, p0.z, mat)];  // back
      sides := sides + [XZRect(p0.x, p1.x, p0.z, p1.z, p1.y, mat)];  // top
      sides := sides + [XZRect(p0.x, p1.x, p0.z, p1.z, p0.y, mat)];  // bottom
      sides := sides + [YZRect(p0.y, p1.y, p0.z, p1.z, p1.x, mat)];  // right
      sides := sides + [YZRect(p0.y, p1.y, p0.z, p1.z, p0.x, mat)];  // left
    }

    /**
      `box::hit`: the answer and the record are exactly those of the query on
      `sides`. `rayT` is the membership test of the search interval.
     */
    method Hit(r: Ray, rayT: real -> bool, rec: HitRecord<M>, listHit: ListHit<M>) returns (hit: bool)
      modifies rec
      ensures (hit, rec.Value()) == listHit(sides, r, rayT, old(rec.Value()))
    {
      var answer := listHit(sides, r, rayT, rec.Value());
      rec.Assign(answer.1);
      hit := answer.0;
    }
  }

  /** The first corner is below the second on every axis. */
  predicate Ordered(p0: Vec3, p1: Vec3)
  {
    p0.x <= p1.x && p0.y <= p1.y && p0.z <= p1.z
  }

  /** Reference definition: q is in the closed box and on one of its six boundary planes. */
  ghost predicate OnBoxSurface(p0: Vec3, p1: Vec3, q: Vec3)
  {
    && p0.x <= q.x <= p1.x && p0.y <= q.y <= p1.y && p0.z <= q.z <= p1.z
    && (q.x == p0.x || q.x == p1.x || q.y == p0.y || q.y == p1.y || q.z == p0.z || q.z == p1.z)
  }

  /** For ordered corners the six sides make up exactly the surface of the box. */
  lemma FacesCoverSurface<M>(p0: Vec3, p1: Vec3, mat: M, q: Vec3)
    requires Ordered(p0, p1)
    ensures (exists i :: 0 <= i < 6 && OnRect(Faces(p0, p1, mat)[i], q)) <==> OnBoxSurface(p0, p1, q)
  {
    var f := Faces(p0, p1, mat);
    if OnBoxSurface(p0, p1, q) {
      if q.z == p1.z {
        assert OnRect(f[0], q);
      } else if q.z == p0.z {
        assert OnRect(f[1], q);
      } else if q.y == p1.y {
        assert OnRect(f[2], q);
      } else if q.y == p0.y {
        assert OnRect(f[3], q);
      } else if q.x == p1.x {
        assert OnRect(f[4], q);
      } else {
        assert OnRect(f[5], q);
      }
    }
    if i :| 0 <= i < 6 && OnRect(f[i], q) {
      assert 0 <= i < 2 || 2 <= i < 4 || 4 <= i < 6;
    }
  }

  /** A list query that reports only points lying on one of the listed rectangles. */
  ghost predicate ReportsMemberPoint<M>(listHit: ListHit<M>, sides: seq<Rect<M>>, r: Ray, rayT: real -> bool, rec0: Record<M>)
  {
    var answer := listHit(sides, r, rayT, rec0);
    answer.0 ==> exists i :: 0 <= i < |sides| && OnRect(sides[i], answer.1.p)
  }

  /**
    With ordered corners, any hit a box reports through such a list lies on
    the surface of the box.
   */
  lemma HitOnSurface<M>(p0: Vec3, p1: Vec3, mat: M, r: Ray, rayT: real -> bool, rec0: Record<M>, listHit: ListHit<M>)
    requires Ordered(p0, p1)
    requires ReportsMemberPoint(listHit, Faces(p0, p1, mat), r, rayT, rec0)
    ensures var answer := listHit(Faces(p0, p1, mat), r, rayT, rec0);
      answer.0 ==> OnBoxSurface(p0, p1, answer.1.p)
  {
    var answer := listHit(Faces(p0, p1, mat), r, rayT, rec0);
    if answer.0 {
      FacesCoverSurface(p0, p1, mat, answer.1.p);
    }
  }

  /**
    Corners are not reordered: when the first corner's x exceeds the
    second's, the four sides bounded in x (front, back, top, bottom) can
    never be hit.
   */
  lemma UnorderedXLosesFaces<M>(p0: Vec3, p1: Vec3, mat: M, r: Ray, rayT: real -> bool, i: int)
    requires p0.x > p1.x && 0 <= i < 4
    ensures Intersect(Faces(p0, p1, mat)[i], r, rayT) == None
  {
    InvertedNeverHit(Faces(p0, p1, mat)[i], r, rayT);
  }
}
