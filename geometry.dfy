/**
 * The collaborator types the shapes are written against (Vec, Point, Normal,
 * Vec2d, Ray, Transformation, Material, HitRecord), reduced to what the
 * intersection code reads from them.
 */
module Geometry {

  datatype Option<T> = None | Some(value: T)

  /** A free vector. */
  datatype Vec = Vec(x: real, y: real, z: real)

  /** An affine position. */
  datatype Point = Point(x: real, y: real, z: real)

  /** A surface normal (a covector; not necessarily of unit length). */
  datatype Normal = Normal(x: real, y: real, z: real)

  /** A surface coordinate (u, v). */
  datatype Vec2d = Vec2d(u: real, v: real)

  function PointToVec(p: Point): Vec {
    Vec(p.x, p.y, p.z)
  }

  function Dot(a: Vec, b: Vec): real {
    a.x * b.x + a.y * b.y + a.z * b.z
  }

  function SquaredNorm(v: Vec): real {
    Dot(v, v)
  }

  /** The product of a normal by a scalar (`Normal * float`). */
  function ScaleNormal(n: Normal, k: real): Normal {
    Normal(n.x * k, n.y * k, n.z * k)
  }

  /** The scalar product of a normal with a vector. */
  function NormalDot(n: Normal, v: Vec): real {
    n.x * v.x + n.y * v.y + n.z * v.z
  }

  /** A ray: origin, direction and the open interval (tmin, tmax) of valid parameters. */
  datatype Ray = Ray(origin: Point, dir: Vec, tmin: real, tmax: real)
  {
    /** The point reached at parameter t; no range check. */
    function At(t: real): Point {
      Point(origin.x + t * dir.x, origin.y + t * dir.y, origin.z + t * dir.z)
    }
  }

  /** The parameter t lies strictly inside the ray's interval. */
  predicate InOpen(ray: Ray, t: real) {
    ray.tmin < t && t < ray.tmax
  }

  /**
   * A shape's placement in the scene. Its matrix algebra is not part of this
   * model: it is known only through the three mappings the shapes apply,
   * `ray.Transform(Transf.Inverse())`, `Transf * point` and `Transf * normal`.
   */
  datatype Transformation = Transformation(
    toObjectRay: Ray -> Ray,
    toWorldPoint: Point -> Point,
    toWorldNormal: Normal -> Normal)

  /** `new Transformation()`: the identity. */
  function Identity(): (tr: Transformation)
    ensures forall ray :: tr.toObjectRay(ray) == ray
    ensures forall p :: tr.toWorldPoint(p) == p
    ensures forall n :: tr.toWorldNormal(n) == n
  {
    Transformation(ray => ray, p => p, n => n)
  }

  /** A material is stored and returned by reference only. */
  datatype Material = Material(handle: nat)

  /** `new Material()`. */
  const DefaultMaterial: Material := Material(0)

  /** The result of a successful intersection, in world space. */
  datatype HitRecord = HitRecord(
    worldPoint: Point,
    normal: Normal,
    surfacePoint: Vec2d,
    t: real,
    ray: Ray,
    material: Material)
}
