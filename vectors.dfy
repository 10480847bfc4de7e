/**
  Points, vectors and colours of the renderer (its `vec3`, `point3` and
  `color`), with the ray `P(t) = origin + t * direction`. Doubles are modelled
  as mathematical reals; only the operations the modelled code uses appear.
 */
module Vectors {

  datatype Option<T> = None | Some(value: T)

  /** A point, a direction or an RGB colour. */
  datatype Vec3 = Vec3(x: real, y: real, z: real)

  /** The three coordinate axes; a rectangle is perpendicular to one of them. */
  datatype Axis = X | Y | Z

  function Coord(v: Vec3, a: Axis): real
  {
    match a
    case X => v.x
    case Y => v.y
    case Z => v.z
  }

  /** The positive unit vector along an axis. */
  function UnitAxis(a: Axis): Vec3
  {
    match a
    case X => Vec3(1.0, 0.0, 0.0)
    case Y => Vec3(0.0, 1.0, 0.0)
    case Z => Vec3(0.0, 0.0, 1.0)
  }

  const Black := Vec3(0.0, 0.0, 0.0)

  function Add(a: Vec3, b: Vec3): Vec3
  {
    Vec3(a.x + b.x, a.y + b.y, a.z + b.z)
  }

  function Sub(a: Vec3, b: Vec3): Vec3
  {
    Vec3(a.x - b.x, a.y - b.y, a.z - b.z)
  }

  function Scale(s: real, a: Vec3): Vec3
  {
    Vec3(s * a.x, s * a.y, s * a.z)
  }

  /** Component-wise product, used to attenuate colours. */
  function Mul(a: Vec3, b: Vec3): Vec3
  {
    Vec3(a.x * b.x, a.y * b.y, a.z * b.z)
  }

  /** Every channel of a colour lies in [0, 1]. */
  predicate InUnitCube(c: Vec3)
  {
    0.0 <= c.x <= 1.0 && 0.0 <= c.y <= 1.0 && 0.0 <= c.z <= 1.0
  }

  /** Regrouping a four-part concatenation to the right. */
  lemma ConcatAssoc<T>(a: seq<T>, b: seq<T>, c: seq<T>, d: seq<T>)
    ensures a + b + c + d == a + (b + (c + d))
  {
  }

  datatype Ray = Ray(origin: Vec3, direction: Vec3)
  {
    /** The point reached at parameter t. */
    function At(t: real): Vec3
    {
      Add(origin, Scale(t, direction))
    }
  }
}
