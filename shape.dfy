/**
 * The three analytic shapes of the ray tracer and their intersection tests.
 *
 * Each test works on `invRay`, the ray already carried into the shape's object
 * space by `ray.Transform(Transf.Inverse())`; `RayIntersection` and
 * `QuickRayIntersection` at the end of the module dispatch on the variant and
 * map a hit back to world space.
 */
module Shapes {
  import opened Numerics
  import opened Geometry
  import opened Quadratics

  /**
   * The closed set of concrete shapes. A Sphere is the unit sphere at the
   * origin and an XyPlane is the plane z = 0, both before `transf` is applied;
   * a Cylinder has radius r around the z axis, is clipped to zmin <= z <= zmax
   * and sweeps the angle 0 <= phi <= phimax.
   */
  datatype Shape =
    | Sphere(transf: Transformation, material: Material)
    | XyPlane(transf: Transformation, material: Material)
    | Cylinder(transf: Transformation, material: Material, r: real, zmin: real, zmax: real, phimax: real)

  /** A hit in the shape's object space, before it is mapped back to the world. */
  datatype LocalHit = LocalHit(point: Point, normal: Normal, uv: Vec2d, t: real)

  /**
   * The choice of the ray parameter shared by the sphere and the cylinder:
   * the first root if it lies strictly inside the ray's interval, otherwise
   * the second one if it does, otherwise none.
   */
  function ChooseRoot(ray: Ray, first: real, second: real): (t: Option<real>)
    ensures t.Some? <==> InOpen(ray, first) || InOpen(ray, second)
    ensures t.Some? ==> InOpen(ray, t.value) && (t.value == first || t.value == second)
    ensures InOpen(ray, first) ==> t == Some(first)
  {
    if InOpen(ray, first) then Some(first)
    else if InOpen(ray, second) then Some(second)
    else None
  }

  //==========================================================================
  // Sphere
  //==========================================================================

  predicate OnUnitSphere(p: Point) {
    SquaredNorm(PointToVec(p)) == 1.0
  }

  lemma SquaredNormNonneg(d: Vec)
    ensures SquaredNorm(d) >= 0.0
  {
    SquareNonneg(d.x);
    SquareNonneg(d.y);
    SquareNonneg(d.z);
  }

  /** A direction of squared norm zero is the zero vector. */
  lemma ZeroDirection(d: Vec)
    requires SquaredNorm(d) == 0.0
    ensures d == Vec(0.0, 0.0, 0.0)
  {
    var Vec(x, y, z) := d;
    assert x * x + y * y + z * z == 0.0;
    SumOfSquaresZero(x, y, z);
  }

  lemma SphereCoefficients(o: Vec, d: Vec)
    ensures SquaredNorm(d) >= 0.0
    ensures SquaredNorm(d) == 0.0 ==> Dot(o, d) == 0.0
  {
    assert SquaredNorm(d) >= 0.0 by {
      SquaredNormNonneg(d);
    }
    assert SquaredNorm(d) == 0.0 ==> Dot(o, d) == 0.0 by {
      if SquaredNorm(d) == 0.0 {
        ZeroDirection(d);
      }
    }
  }

  /**
   * The sphere's equation |o + t d|^2 = 1 with a = |d|^2, b = 2 o.d and
   * c = |o|^2 - 1. Its leading coefficient vanishes only for a zero direction,
   * and then b and the discriminant vanish too, so a positive discriminant
   * guarantees a non-zero divisor.
   */
  function SphereEquation(invRay: Ray): (q: Quadratic)
    ensures q.a >= 0.0
    ensures q.a == 0.0 ==> q.b == 0.0 && q.Delta() == 0.0
  {
    var o := PointToVec(invRay.origin);
    var d := invRay.dir;
    SphereCoefficients(o, d);
    Quadratic(SquaredNorm(d), 2.0 * Dot(o, d), SquaredNorm(o) - 1.0)
  }

  /** Expanding |o + t d|^2 coordinate by coordinate. */
  lemma ExpandSquaredNorm(ox: real, oy: real, oz: real, dx: real, dy: real, dz: real, t: real)
    ensures (ox + t * dx) * (ox + t * dx) + (oy + t * dy) * (oy + t * dy) + (oz + t * dz) * (oz + t * dz)
         == (dx * dx + dy * dy + dz * dz) * t * t + 2.0 * (ox * dx + oy * dy + oz * dz) * t
            + (ox * ox + oy * oy + oz * oz)
  {
  }

  /** The sphere's coefficients, evaluated at t, give |o + t d|^2 - 1. */
  lemma SphereValueIdentity(ox: real, oy: real, oz: real, dx: real, dy: real, dz: real, t: real,
                            a: real, b: real, c: real)
    requires a == dx * dx + dy * dy + dz * dz
    requires b == 2.0 * (ox * dx + oy * dy + oz * dz)
    requires c == (ox * ox + oy * oy + oz * oz) - 1.0
    ensures a * t * t + b * t + c
         == (ox + t * dx) * (ox + t * dx) + (oy + t * dy) * (oy + t * dy) + (oz + t * dz) * (oz + t * dz) - 1.0
  {
    ExpandSquaredNorm(ox, oy, oz, dx, dy, dz, t);
  }

  /** The equation's value at t measures how far At(t) is from the unit sphere. */
  lemma SphereEquationMeaning(invRay: Ray, t: real)
    ensures SphereEquation(invRay).Value(t) == SquaredNorm(PointToVec(invRay.At(t))) - 1.0
  {
    var Point(ox, oy, oz) := invRay.origin;
    var Vec(dx, dy, dz) := invRay.dir;
    var q := SphereEquation(invRay);
    var p := invRay.At(t);
    assert p == Point(ox + t * dx, oy + t * dy, oz + t * dz);
    SphereValueIdentity(ox, oy, oz, dx, dy, dz, t, q.a, q.b, q.c);
  }

  /**
   * The normal at a point of the unit sphere: the point itself, negated unless
   * it already points against `dir`.
   */
  function SphereNormal(point: Point, dir: Vec): (n: Normal)
    ensures n == Normal(point.x, point.y, point.z) || n == Normal(-point.x, -point.y, -point.z)
    ensures NormalDot(n, dir) <= 0.0
  {
    var result := Normal(point.x, point.y, point.z);
    if Dot(PointToVec(point), dir) < 0.0 then result else ScaleNormal(result, -1.0)
  }

  /**
   * The surface coordinate of a point of the unit sphere: u = atan2(y, x) / 2pi
   * moved into [0, 1), v = acos(z) / pi.
   */
  function SpherePointToUv(m: MathLib, point: Point): (uv: Vec2d)
    ensures m.Lawful() ==> 0.0 <= uv.u < 1.0
    ensures m.Lawful() && -1.0 <= point.z <= 1.0 ==> 0.0 <= uv.v <= 1.0
  {
    var u := m.atan2(point.y, point.x) / (2.0 * PI);
    var v := m.acos(point.z) / PI;
    if u >= 0.0 then Vec2d(u, v) else Vec2d(u + 1.0, v)
  }

  /**
   * Sphere.RayIntersection in object space. `worldDir` is the direction of the
   * ray before it was transformed: the normal is oriented against it.
   */
  function SphereLocalHit(m: MathLib, invRay: Ray, worldDir: Vec): (h: Option<LocalHit>)
    ensures h.Some? ==>
              && SphereEquation(invRay).Delta() > 0.0
              && (h.value.t == SphereEquation(invRay).Near(m) || h.value.t == SphereEquation(invRay).Far(m))
              && InOpen(invRay, h.value.t)
              && h.value.point == invRay.At(h.value.t)
  {
    var q := SphereEquation(invRay);
    if q.Delta() <= 0.0 then None
    else
      match ChooseRoot(invRay, q.Near(m), q.Far(m))
      case None => None
      case Some(t) =>
        var p := invRay.At(t);
        Some(LocalHit(p, SphereNormal(p, worldDir), SpherePointToUv(m, p), t))
  }

  /** Sphere.QuickRayIntersection in object space. */
  function SphereQuickHit(m: MathLib, invRay: Ray): bool
  {
    var q := SphereEquation(invRay);
    if q.Delta() <= 0.0 then false
    else InOpen(invRay, q.Near(m)) || InOpen(invRay, q.Far(m))
  }

  /**
   * No hit when the discriminant is not positive; otherwise the smaller root
   * when it lies strictly inside the interval, else the larger one when it
   * does, else no hit.
   */
  lemma SphereRootPreference(m: MathLib, invRay: Ray, worldDir: Vec)
    ensures var q := SphereEquation(invRay);
            var h := SphereLocalHit(m, invRay, worldDir);
            && (q.Delta() <= 0.0 ==> h.None?)
            && (q.Delta() > 0.0 ==>
                 && (InOpen(invRay, q.Near(m)) ==> h.Some? && h.value.t == q.Near(m))
                 && (!InOpen(invRay, q.Near(m)) && InOpen(invRay, q.Far(m)) ==> h.Some? && h.value.t == q.Far(m))
                 && (!InOpen(invRay, q.Near(m)) && !InOpen(invRay, q.Far(m)) ==> h.None?))
  {
  }

  /**
   * The hit is the nearest point of the unit sphere that the ray reaches
   * strictly inside its interval; a miss means there is no such point, or the
   * ray only grazes the sphere (discriminant zero, which counts as a miss).
   */
  lemma SphereHitIsNearest(m: MathLib, invRay: Ray, worldDir: Vec)
    requires m.Lawful()
    ensures var h := SphereLocalHit(m, invRay, worldDir);
            h.Some? ==>
              && InOpen(invRay, h.value.t)
              && h.value.point == invRay.At(h.value.t)
              && OnUnitSphere(h.value.point)
              && forall t :: InOpen(invRay, t) && OnUnitSphere(invRay.At(t)) ==> h.value.t <= t
    ensures SphereLocalHit(m, invRay, worldDir).None? ==>
              SphereEquation(invRay).Delta() <= 0.0 ||
              forall t :: InOpen(invRay, t) ==> !OnUnitSphere(invRay.At(t))
  {
    var q := SphereEquation(invRay);
    var h := SphereLocalHit(m, invRay, worldDir);
    if q.Delta() > 0.0 {
      assert q.a != 0.0;
      NearBeforeFar(m, q);
      RootsSolve(m, q);
      forall t | InOpen(invRay, t) && OnUnitSphere(invRay.At(t))
        ensures t == q.Near(m) || t == q.Far(m)
      {
        SphereEquationMeaning(invRay, t);
        OnlyRoots(m, q, t);
      }
      if h.Some? {
        SphereEquationMeaning(invRay, h.value.t);
      }
    }
  }

  /**
   * The local frame of a sphere hit: u in [0, 1), v in [0, 1], and a normal
   * that is the hit point or its opposite, facing against the world direction.
   */
  lemma SphereHitFrame(m: MathLib, invRay: Ray, worldDir: Vec)
    requires m.Lawful()
    ensures var h := SphereLocalHit(m, invRay, worldDir);
            h.Some? ==>
              && 0.0 <= h.value.uv.u < 1.0
              && 0.0 <= h.value.uv.v <= 1.0
              && (h.value.normal == Normal(h.value.point.x, h.value.point.y, h.value.point.z) ||
                  h.value.normal == Normal(-h.value.point.x, -h.value.point.y, -h.value.point.z))
              && NormalDot(h.value.normal, worldDir) <= 0.0
  {
    var h := SphereLocalHit(m, invRay, worldDir);
    if h.Some? {
      SphereHitIsNearest(m, invRay, worldDir);
      var p := h.value.point;
      SquareNonneg(p.x);
      SquareNonneg(p.y);
      SquareAtMostOne(p.z);
    }
  }

  /** The quick test reports a hit exactly when the full test finds one. */
  lemma SphereQuickAgrees(m: MathLib, invRay: Ray, worldDir: Vec)
    ensures SphereQuickHit(m, invRay) == SphereLocalHit(m, invRay, worldDir).Some?
  {
  }

  //==========================================================================
  // XyPlane
  //==========================================================================

  /**
   * XyPlane.RayIntersection in object space. A ray whose z direction is below
   * 1e-5 in magnitude counts as parallel; otherwise it crosses z = 0 at
   * t = -oz / dz, which must lie strictly inside the interval. The normal
   * (0, 0, +-1) faces the ray and (u, v) are the fractional parts of x and y.
   */
  function PlaneLocalHit(invRay: Ray): (h: Option<LocalHit>)
    ensures h.Some? <==> Abs(invRay.dir.z) >= 0.00001 && InOpen(invRay, -invRay.origin.z / invRay.dir.z)
    ensures h.Some? ==>
              && h.value.point == invRay.At(h.value.t)
              && h.value.point.z == 0.0
              && h.value.normal.x == 0.0 && h.value.normal.y == 0.0
              && (h.value.normal.z == 1.0 || h.value.normal.z == -1.0)
              && h.value.normal.z * invRay.dir.z < 0.0
    ensures h.Some? ==>
              && 0.0 <= h.value.uv.u < 1.0
              && 0.0 <= h.value.uv.v < 1.0
              && (h.value.point.x - h.value.uv.u).Floor as real == h.value.point.x - h.value.uv.u
              && (h.value.point.y - h.value.uv.v).Floor as real == h.value.point.y - h.value.uv.v
  {
    if Abs(invRay.dir.z) < 0.00001 then None
    else
      var t := -invRay.origin.z / invRay.dir.z;
      if t <= invRay.tmin || t >= invRay.tmax then None
      else
        var hitPoint := invRay.At(t);
        PlaneCrossingHeight(invRay.origin.z, invRay.dir.z);
        assert hitPoint.z == invRay.origin.z + t * invRay.dir.z;
        var planeNormal :=
          if invRay.dir.z > 0.0 then ScaleNormal(Normal(0.0, 0.0, 1.0), -1.0) else Normal(0.0, 0.0, 1.0);
        var surfacePoint := Vec2d(FractionalPart(hitPoint.x), FractionalPart(hitPoint.y));
        Some(LocalHit(hitPoint, planeNormal, surfacePoint, t))
  }

  /** `x - Math.Floor(x)`: what is left of x above the integer below it. */
  function FractionalPart(x: real): (f: real)
    ensures 0.0 <= f < 1.0
    ensures (x - f).Floor as real == x - f
  {
    x - x.Floor as real
  }

  /** The ray's height at t = -oz / dz is zero. */
  lemma PlaneCrossingHeight(oz: real, dz: real)
    requires dz != 0.0
    ensures oz + (-oz / dz) * dz == 0.0
  {
    DivTimes(-oz, dz);
  }

  /** XyPlane.QuickRayIntersection in object space. */
  function PlaneQuickHit(invRay: Ray): bool
  {
    if Abs(invRay.dir.z) < 0.00001 then false
    else
      var t := -invRay.origin.z / invRay.dir.z;
      t > invRay.tmin && t < invRay.tmax
  }

  /** The quick test reports a hit exactly when the full test finds one. */
  lemma PlaneQuickAgrees(invRay: Ray)
    ensures PlaneQuickHit(invRay) == PlaneLocalHit(invRay).Some?
  {
  }

  /** A plane hit is the only parameter at which the ray meets z = 0. */
  lemma PlaneHitIsOnlyCrossing(invRay: Ray, t: real)
    requires PlaneLocalHit(invRay).Some? && invRay.At(t).z == 0.0
    ensures t == PlaneLocalHit(invRay).value.t
  {
    var t0 := PlaneLocalHit(invRay).value.t;
    assert invRay.origin.z + t * invRay.dir.z == invRay.origin.z + t0 * invRay.dir.z;
    CancelFactor(t, t0, invRay.dir.z);
  }

  //==========================================================================
  // Cylinder
  //==========================================================================

  predicate OnCylinder(cyl: Shape, p: Point)
    requires cyl.Cylinder?
  {
    p.x * p.x + p.y * p.y == cyl.r * cyl.r
  }

  /** Facts about the x/y part of a direction. */
  lemma CylinderCoefficients(o: Vec, d: Vec)
    ensures d.x * d.x + d.y * d.y >= 0.0
    ensures d.x * d.x + d.y * d.y == 0.0 ==> o.x * d.x + o.y * d.y == 0.0
  {
    SquareNonneg(d.x);
    SquareNonneg(d.y);
    if d.x * d.x + d.y * d.y == 0.0 {
      assert d.x * d.x + d.y * d.y + 0.0 * 0.0 == 0.0;
      SumOfSquaresZero(d.x, d.y, 0.0);
    }
  }

  /**
   * The infinite cylinder's equation x(t)^2 + y(t)^2 = R^2, from the x and y
   * components only. As for the sphere, a vanishing leading coefficient
   * forces b = 0 and a zero discriminant.
   */
  function CylinderEquation(cyl: Shape, invRay: Ray): (q: Quadratic)
    requires cyl.Cylinder?
    ensures q.a >= 0.0
    ensures q.a == 0.0 ==> q.b == 0.0 && q.Delta() == 0.0
  {
    var o := PointToVec(invRay.origin);
    var d := invRay.dir;
    CylinderCoefficients(o, d);
    Quadratic(d.x * d.x + d.y * d.y, 2.0 * (o.x * d.x + o.y * d.y), o.x * o.x + o.y * o.y - cyl.r * cyl.r)
  }

  /** Expanding x(t)^2 + y(t)^2 coordinate by coordinate. */
  lemma ExpandPlanarNorm(ox: real, oy: real, dx: real, dy: real, t: real)
    ensures (ox + t * dx) * (ox + t * dx) + (oy + t * dy) * (oy + t * dy)
         == (dx * dx + dy * dy) * t * t + 2.0 * (ox * dx + oy * dy) * t + (ox * ox + oy * oy)
  {
  }

  /** The equation's value at t measures how far At(t) is from the cylinder's surface. */
  lemma CylinderEquationMeaning(cyl: Shape, invRay: Ray, t: real)
    requires cyl.Cylinder?
    ensures CylinderEquation(cyl, invRay).Value(t) ==
            invRay.At(t).x * invRay.At(t).x + invRay.At(t).y * invRay.At(t).y - cyl.r * cyl.r
  {
    var o, d := invRay.origin, invRay.dir;
    var q := CylinderEquation(cyl, invRay);
    var p := invRay.At(t);
    assert p.x == o.x + t * d.x && p.y == o.y + t * d.y;
    assert q.a == d.x * d.x + d.y * d.y;
    assert q.b == 2.0 * (o.x * d.x + o.y * d.y);
    assert q.c == (o.x * o.x + o.y * o.y) - cyl.r * cyl.r;
    ExpandPlanarNorm(o.x, o.y, d.x, d.y, t);
  }

  /** The two roots, swapped if needed so that the first is the smaller. */
  function OrderedRoots(m: MathLib, q: Quadratic): (roots: (real, real))
    requires q.a != 0.0
    ensures roots.0 <= roots.1
    ensures (roots.0 == q.Near(m) && roots.1 == q.Far(m)) || (roots.0 == q.Far(m) && roots.1 == q.Near(m))
  {
    var tmin := q.Near(m);
    var tmax := q.Far(m);
    if tmin > tmax then (tmax, tmin) else (tmin, tmax)
  }

  /** The azimuth atan2(y, x), moved from (-pi, 0) to (pi, 2pi). */
  function NormalizedPhi(m: MathLib, p: Point): (phi: real)
    ensures m.Lawful() ==> 0.0 <= phi < 2.0 * PI
  {
    var phi := m.atan2(p.y, p.x);
    if phi < 0.0 then phi + 2.0 * PI else phi
  }

  /** The point lies within the cylinder's z range and angular sweep. */
  predicate WithinBounds(cyl: Shape, p: Point, phi: real)
    requires cyl.Cylinder?
  {
    !(p.z < cyl.zmin || p.z > cyl.zmax || phi > cyl.phimax)
  }

  /** The point the ray reaches at t lies within the cylinder's z range and angular sweep. */
  predicate InsideClip(m: MathLib, cyl: Shape, invRay: Ray, t: real)
    requires cyl.Cylinder?
  {
    WithinBounds(cyl, invRay.At(t), NormalizedPhi(m, invRay.At(t)))
  }

  /**
   * The choice of the ray parameter shared by both cylinder tests: the first
   * root in the open interval, kept if its point is within the bounds;
   * otherwise, unless that root was already (within 1e-5) the far one or the
   * far one lies beyond tmax, the far root if its point is within the bounds.
   * The last four clauses settle every case.
   */
  function CylinderSelect(m: MathLib, cyl: Shape, invRay: Ray, tmin: real, tmax: real): (t: Option<real>)
    requires cyl.Cylinder? && tmin <= tmax
    ensures t.Some? ==> t.value == tmin || t.value == tmax
    ensures t.Some? ==> invRay.tmin < t.value <= invRay.tmax
    ensures t.Some? ==> InsideClip(m, cyl, invRay, t.value)
    // neither root strictly inside the interval: a miss
    ensures !InOpen(invRay, tmin) && !InOpen(invRay, tmax) ==> t.None?
    // the near root is kept whenever it is inside the interval and the clip
    ensures InOpen(invRay, tmin) && InsideClip(m, cyl, invRay, tmin) ==> t == Some(tmin)
    // only the far root is inside the interval: it is taken iff inside the clip
    ensures !InOpen(invRay, tmin) && InOpen(invRay, tmax) ==>
              t == (if InsideClip(m, cyl, invRay, tmax) then Some(tmax) else None)
    // the near root is inside the interval but clipped: the retry with the far root
    ensures InOpen(invRay, tmin) && !InsideClip(m, cyl, invRay, tmin) ==>
              t == (if Abs(tmin - tmax) >= 0.00001 && tmax <= invRay.tmax && InsideClip(m, cyl, invRay, tmax)
                    then Some(tmax) else None)
  {
    match ChooseRoot(invRay, tmin, tmax)
    case None => None
    case Some(first) =>
      var hitPoint := invRay.At(first);
      if WithinBounds(cyl, hitPoint, NormalizedPhi(m, hitPoint)) then Some(first)
      else if Abs(first - tmax) < 0.00001 then None
      else if tmax > invRay.tmax then None
      else
        var retryPoint := invRay.At(tmax);
        if WithinBounds(cyl, retryPoint, NormalizedPhi(m, retryPoint)) then Some(tmax) else None
  }

  /**
   * `x / y` for the surface coordinates. In a degenerate cylinder (Phimax = 0
   * or Zmin = Zmax) the source divides 0 by 0 and stores NaN; here that
   * coordinate is 0.
   */
  function Quotient(x: real, y: real): real {
    if y == 0.0 then 0.0 else x / y
  }

  /** Cylinder.RayIntersection in object space. */
  function CylinderLocalHit(m: MathLib, cyl: Shape, invRay: Ray): Option<LocalHit>
    requires cyl.Cylinder?
  {
    var q := CylinderEquation(cyl, invRay);
    if q.Delta() <= 0.0 then None
    else
      var (tmin, tmax) := OrderedRoots(m, q);
      match CylinderSelect(m, cyl, invRay, tmin, tmax)
      case None => None
      case Some(t) =>
        var hitPoint := invRay.At(t);
        var phi := NormalizedPhi(m, hitPoint);
        Some(LocalHit(
          hitPoint,
          Normal(hitPoint.x, hitPoint.y, 0.0),
          Vec2d(Quotient(phi, cyl.phimax), Quotient(hitPoint.z - cyl.zmin, cyl.zmax - cyl.zmin)),
          t))
  }

  /**
   * Cylinder.QuickRayIntersection in object space. Only a negative
   * discriminant is rejected up front. A zero leading coefficient (which
   * forces b = 0 and delta = 0) makes the source divide 0 by 0; every
   * comparison with the NaN roots is false, so the test answers false.
   */
  function CylinderQuickHit(m: MathLib, cyl: Shape, invRay: Ray): bool
    requires cyl.Cylinder?
  {
    var q := CylinderEquation(cyl, invRay);
    if q.Delta() < 0.0 then false
    else if q.a == 0.0 then false
    else
      var (tmin, tmax) := OrderedRoots(m, q);
      CylinderSelect(m, cyl, invRay, tmin, tmax).Some?
  }

  /**
   * A cylinder hit: at one of the two roots, with tmin < t <= tmax (the retry
   * only rejects t > tmax), on the lateral surface, within [zmin, zmax] and
   * the sweep [0, phimax], with the radial normal (x, y, 0) and surface
   * coordinates in [0, 1].
   */
  lemma CylinderHitBounds(m: MathLib, cyl: Shape, invRay: Ray)
    requires m.Lawful() && cyl.Cylinder?
    ensures var q := CylinderEquation(cyl, invRay);
            var h := CylinderLocalHit(m, cyl, invRay);
            h.Some? ==>
              && q.Delta() > 0.0
              && (h.value.t == q.Near(m) || h.value.t == q.Far(m))
              && invRay.tmin < h.value.t <= invRay.tmax
              && h.value.point == invRay.At(h.value.t)
              && OnCylinder(cyl, h.value.point)
              && cyl.zmin <= h.value.point.z <= cyl.zmax
              && 0.0 <= NormalizedPhi(m, h.value.point) <= cyl.phimax
              && NormalizedPhi(m, h.value.point) < 2.0 * PI
              && h.value.normal == Normal(h.value.point.x, h.value.point.y, 0.0)
              && 0.0 <= h.value.uv.u <= 1.0
              && 0.0 <= h.value.uv.v <= 1.0
  {
    var q := CylinderEquation(cyl, invRay);
    var h := CylinderLocalHit(m, cyl, invRay);
    if h.Some? {
      RootsSolve(m, q);
      CylinderEquationMeaning(cyl, invRay, h.value.t);
      var p := h.value.point;
      var phi := NormalizedPhi(m, p);
      if cyl.phimax != 0.0 {
        QuotientInUnit(phi, cyl.phimax);
      }
      if cyl.zmax - cyl.zmin != 0.0 {
        QuotientInUnit(p.z - cyl.zmin, cyl.zmax - cyl.zmin);
      }
    }
  }

  lemma QuotientInUnit(x: real, y: real)
    requires 0.0 <= x <= y && y != 0.0
    ensures 0.0 <= x / y <= 1.0
  {
    DivTimes(x, y);
  }

  /**
   * The full cylinder test finds the nearest point of the clipped surface that
   * the ray reaches strictly inside its interval, except when the ray grazes
   * the cylinder (delta = 0) or its two roots lie within 1e-5 of each other,
   * where the source's "already the far root" test gives up on the far root.
   */
  lemma CylinderHitIsNearest(m: MathLib, cyl: Shape, invRay: Ray, t: real)
    requires m.Lawful() && cyl.Cylinder?
    requires InOpen(invRay, t) && OnCylinder(cyl, invRay.At(t)) && InsideClip(m, cyl, invRay, t)
    ensures var q := CylinderEquation(cyl, invRay);
            var h := CylinderLocalHit(m, cyl, invRay);
            || q.Delta() == 0.0
            || (q.a != 0.0 && Abs(q.Near(m) - q.Far(m)) < 0.00001)
            || (h.Some? && h.value.t <= t)
  {
    var q := CylinderEquation(cyl, invRay);
    if q.Delta() != 0.0 {
      assert q.a != 0.0;
      CylinderEquationMeaning(cyl, invRay, t);
      OnlyRoots(m, q, t);
      var (lo, hi) := OrderedRoots(m, q);
      assert Abs(lo - hi) == Abs(q.Near(m) - q.Far(m));
      assert t == lo || t == hi;
    }
  }

  /**
   * Every full hit is also a quick hit; the quick test can only add hits for
   * rays with discriminant exactly zero, which the full test rejects.
   */
  lemma CylinderQuickFollowsHit(m: MathLib, cyl: Shape, invRay: Ray)
    requires cyl.Cylinder?
    ensures CylinderLocalHit(m, cyl, invRay).Some? ==> CylinderQuickHit(m, cyl, invRay)
    ensures CylinderQuickHit(m, cyl, invRay) && CylinderLocalHit(m, cyl, invRay).None? ==>
              CylinderEquation(cyl, invRay).Delta() == 0.0
  {
  }

  /** Lagrange's identity in the plane. */
  lemma PlanarLagrange(ox: real, oy: real, dx: real, dy: real)
    ensures (2.0 * (ox * dx + oy * dy)) * (2.0 * (ox * dx + oy * dy))
            - 4.0 * (dx * dx + dy * dy) * (ox * ox + oy * oy)
         == -4.0 * ((ox * dy - oy * dx) * (ox * dy - oy * dx))
  {
  }

  /**
   * A cylinder of radius zero has a non-positive discriminant for every ray,
   * so the full test never reports a hit.
   */
  lemma ZeroRadiusNeverHits(m: MathLib, cyl: Shape, invRay: Ray)
    requires cyl.Cylinder? && cyl.r == 0.0
    ensures CylinderEquation(cyl, invRay).Delta() <= 0.0
    ensures CylinderLocalHit(m, cyl, invRay).None?
  {
    var o, d := invRay.origin, invRay.dir;
    var q := CylinderEquation(cyl, invRay);
    assert q.c == o.x * o.x + o.y * o.y;
    PlanarLagrange(o.x, o.y, d.x, d.y);
    SquareNonneg(o.x * d.y - o.y * d.x);
  }

  //==========================================================================
  // Cylinder constructors
  //==========================================================================

  /**
   * `new Cylinder(zmin, zmax, r)`: identity transformation, default material
   * and a full sweep. The radius argument is never stored, so R keeps its
   * default value 0.
   */
  function NewCylinder(zmin: real := 0.0, zmax: real := 2.0, r: real := 1.0): (cyl: Shape)
    ensures cyl.Cylinder? && cyl.transf == Identity() && cyl.material == DefaultMaterial
    ensures cyl.zmin == zmin && cyl.zmax == zmax && cyl.phimax == 2.0 * PI
    ensures cyl.r == 0.0
  {
    Cylinder(Identity(), DefaultMaterial, 0.0, zmin, zmax, 2.0 * PI)
  }

  /** `new Cylinder(material, zmin, zmax, r)`: as above, with the given material; R again stays 0. */
  function NewCylinderWithMaterial(material: Material, zmin: real := 0.0, zmax: real := 2.0, r: real := 1.0)
    : (cyl: Shape)
    ensures cyl.Cylinder? && cyl.transf == Identity() && cyl.material == material
    ensures cyl.zmin == zmin && cyl.zmax == zmax && cyl.phimax == 2.0 * PI
    ensures cyl.r == 0.0
  {
    Cylinder(Identity(), material, 0.0, zmin, zmax, 2.0 * PI)
  }

  /** `new Cylinder(transf, material, zmin, zmax, r)`: a full sweep of radius r. */
  function NewTransformedCylinder(transf: Transformation, material: Material,
                                  zmin: real := 0.0, zmax: real := 2.0, r: real := 1.0): (cyl: Shape)
    ensures cyl.Cylinder? && cyl.transf == transf && cyl.material == material
    ensures cyl.zmin == zmin && cyl.zmax == zmax && cyl.phimax == 2.0 * PI && cyl.r == r
  {
    Cylinder(transf, material, r, zmin, zmax, 2.0 * PI)
  }

  /** `new Cylinder(transf, material, zmin, zmax, phimax, r)`: a partial sweep. */
  function NewSweptCylinder(transf: Transformation, material: Material,
                            zmin: real, zmax: real, phimax: real, r: real := 1.0): (cyl: Shape)
    ensures cyl.Cylinder? && cyl.transf == transf && cyl.material == material
    ensures cyl.zmin == zmin && cyl.zmax == zmax && cyl.phimax == phimax && cyl.r == r
  {
    Cylinder(transf, material, r, zmin, zmax, phimax)
  }

  /**
   * The radius the first two constructors were evidently meant to store: the
   * same cylinder as `NewTransformedCylinder` with the identity transformation.
   */
  function NewCylinderIntended(zmin: real := 0.0, zmax: real := 2.0, r: real := 1.0): (cyl: Shape)
    ensures cyl == NewTransformedCylinder(Identity(), DefaultMaterial, zmin, zmax, r)
    ensures cyl.r == r
  {
    Cylinder(Identity(), DefaultMaterial, r, zmin, zmax, 2.0 * PI)
  }

  //==========================================================================
  // Shape dispatch: RayIntersection and QuickRayIntersection
  //==========================================================================

  /** The object-space hit of each shape, for the ray carried into object space by Transf's inverse. */
  function ObjectSpaceHit(m: MathLib, shape: Shape, ray: Ray): Option<LocalHit>
  {
    var invRay := shape.transf.toObjectRay(ray);
    match shape
    case Sphere(_, _) => SphereLocalHit(m, invRay, ray.dir)
    case XyPlane(_, _) => PlaneLocalHit(invRay)
    case Cylinder(_, _, _, _, _, _) => CylinderLocalHit(m, shape, invRay)
  }

  /**
   * Shape.RayIntersection: the object-space hit, with its point and normal
   * carried back to world space by Transf, the caller's (untransformed) ray
   * and the shape's material.
   */
  function RayIntersection(m: MathLib, shape: Shape, ray: Ray): (hit: Option<HitRecord>)
    ensures hit.Some? <==> ObjectSpaceHit(m, shape, ray).Some?
    ensures hit.Some? ==>
              var local := ObjectSpaceHit(m, shape, ray).value;
              && hit.value.worldPoint == shape.transf.toWorldPoint(local.point)
              && hit.value.normal == shape.transf.toWorldNormal(local.normal)
              && hit.value.surfacePoint == local.uv
              && hit.value.t == local.t
              && hit.value.ray == ray
              && hit.value.material == shape.material
  {
    match ObjectSpaceHit(m, shape, ray)
    case None => None
    case Some(local) =>
      Some(HitRecord(shape.transf.toWorldPoint(local.point), shape.transf.toWorldNormal(local.normal),
                     local.uv, local.t, ray, shape.material))
  }

  /** Shape.QuickRayIntersection. */
  function QuickRayIntersection(m: MathLib, shape: Shape, ray: Ray): bool
  {
    var invRay := shape.transf.toObjectRay(ray);
    match shape
    case Sphere(_, _) => SphereQuickHit(m, invRay)
    case XyPlane(_, _) => PlaneQuickHit(invRay)
    case Cylinder(_, _, _, _, _, _) => CylinderQuickHit(m, shape, invRay)
  }

  /**
   * For spheres and planes the quick test answers exactly whether the full
   * test finds a hit. For cylinders every full hit is a quick hit, and the
   * quick test's extra answers come only from rays whose discriminant is zero.
   */
  lemma QuickAgreesWithFull(m: MathLib, shape: Shape, ray: Ray)
    ensures !shape.Cylinder? ==> QuickRayIntersection(m, shape, ray) == RayIntersection(m, shape, ray).Some?
    ensures shape.Cylinder? && RayIntersection(m, shape, ray).Some? ==> QuickRayIntersection(m, shape, ray)
    ensures shape.Cylinder? && QuickRayIntersection(m, shape, ray) && RayIntersection(m, shape, ray).None? ==>
              CylinderEquation(shape, shape.transf.toObjectRay(ray)).Delta() == 0.0
  {
    var invRay := shape.transf.toObjectRay(ray);
    match shape
    case Sphere(_, _) => SphereQuickAgrees(m, invRay, ray.dir);
    case XyPlane(_, _) => PlaneQuickAgrees(invRay);
    case Cylinder(_, _, _, _, _, _) => CylinderQuickFollowsHit(m, shape, invRay);
  }

  /**
   * A ray grazing the default-radius cylinder (built with the third
   * constructor) passes the quick test but is rejected by the full one.
   */
  lemma GrazingRayDisagreement(m: MathLib)
    requires m.Lawful()
    ensures var cyl := NewTransformedCylinder(Identity(), DefaultMaterial);
            var ray := Ray(Point(-2.0, 1.0, 1.0), Vec(1.0, 0.0, 0.0), 0.00001, 10.0);
            QuickRayIntersection(m, cyl, ray) && RayIntersection(m, cyl, ray).None?
  {
    var cyl := NewTransformedCylinder(Identity(), DefaultMaterial);
    var ray := Ray(Point(-2.0, 1.0, 1.0), Vec(1.0, 0.0, 0.0), 0.00001, 10.0);
    var q := CylinderEquation(cyl, ray);
    assert q == Quadratic(1.0, -4.0, 4.0);
    SqrtOfSquare(m, 0.0);
    assert q.Near(m) == 2.0 && q.Far(m) == 2.0;
    assert ray.At(2.0) == Point(0.0, 1.0, 1.0);
  }

  /**
   * A cylinder built by either of the first two constructors is invisible:
   * no ray, under any transformation of the ray, hits it.
   */
  lemma UnassignedRadiusHidesCylinder(m: MathLib, material: Material, zmin: real, zmax: real, r: real, ray: Ray)
    ensures RayIntersection(m, NewCylinder(zmin, zmax, r), ray).None?
    ensures RayIntersection(m, NewCylinderWithMaterial(material, zmin, zmax, r), ray).None?
  {
    var c1 := NewCylinder(zmin, zmax, r);
    var c2 := NewCylinderWithMaterial(material, zmin, zmax, r);
    ZeroRadiusNeverHits(m, c1, c1.transf.toObjectRay(ray));
    ZeroRadiusNeverHits(m, c2, c2.transf.toObjectRay(ray));
  }

  /**
   * The quick test still answers true for a cylinder built by the first
   * constructor: the ray from (-2, 0, 1) along +x passes through its axis,
   * where delta = 0 with a != 0.
   */
  lemma UnassignedRadiusQuickHit(m: MathLib)
    requires m.Lawful()
    ensures var ray := Ray(Point(-2.0, 0.0, 1.0), Vec(1.0, 0.0, 0.0), 0.00001, 10.0);
            QuickRayIntersection(m, NewCylinder(), ray) && RayIntersection(m, NewCylinder(), ray).None?
  {
    var cyl := NewCylinder();
    var ray := Ray(Point(-2.0, 0.0, 1.0), Vec(1.0, 0.0, 0.0), 0.00001, 10.0);
    var q := CylinderEquation(cyl, ray);
    assert q == Quadratic(1.0, -4.0, 4.0);
    SqrtOfSquare(m, 0.0);
    assert q.Near(m) == 2.0 && q.Far(m) == 2.0;
    assert ray.At(2.0) == Point(0.0, 0.0, 1.0);
  }

  /**
   * The ray from (-2, 0, 1) along +x crosses the unit cylinder at (-1, 0, 1):
   * the intended default cylinder reports that hit at t = 1, while the
   * cylinder the first constructor actually builds reports none.
   */
  lemma CrossingRayWitness(m: MathLib)
    requires m.Lawful()
    ensures var ray := Ray(Point(-2.0, 0.0, 1.0), Vec(1.0, 0.0, 0.0), 0.00001, 10.0);
            var hit := RayIntersection(m, NewCylinderIntended(), ray);
            && hit.Some? && hit.value.t == 1.0 && hit.value.worldPoint == Point(-1.0, 0.0, 1.0)
            && RayIntersection(m, NewCylinder(), ray).None?
  {
    var cyl := NewCylinderIntended();
    var ray := Ray(Point(-2.0, 0.0, 1.0), Vec(1.0, 0.0, 0.0), 0.00001, 10.0);
    var q := CylinderEquation(cyl, ray);
    assert q == Quadratic(1.0, -4.0, 3.0);
    assert q.Delta() == 2.0 * 2.0;
    SqrtOfSquare(m, 2.0);
    assert q.Near(m) == 1.0 && q.Far(m) == 3.0;
    assert ray.At(1.0) == Point(-1.0, 0.0, 1.0);
    UnassignedRadiusHidesCylinder(m, DefaultMaterial, 0.0, 2.0, 1.0, ray);
  }
}
