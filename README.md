# PhotoGENius shapes and HDR pixel buffer in Dafny

PhotoGENius is a small ray tracer in C#. This project models two of its
components and proves properties of the model.

- **Ray/shape intersection** (`PGENLib/Shape.cs`). A ray is tested against
  three analytic shapes: the unit sphere, the plane z = 0 and a clipped, swept
  cylinder around the z axis. Each shape has a full test (`RayIntersection`),
  which returns a hit record, and a yes/no test (`QuickRayIntersection`). The
  tests are pure functions of the shape and the ray, so they are modelled as
  Dafny functions (module `Shapes`). They work on the ray already carried into
  object space. The sphere and the cylinder both solve a quadratic, and the
  shared algebra of its two roots is in module `Quadratics`.
- **The HDR pixel buffer** (`PGENLib/HdrImage.cs`). An image keeps a
  row-major array of colours. Its width and height are *static* fields in the
  source. Here they live in an object of class `ImageDimensions` that the
  constructor receives. The model does not force every image to share one
  such object: sharing it is a convention of the caller, which
  `SharedDimensions` follows. The constructor blanks the caller's array in a
  loop, and `SetPixel` writes one slot. Both are methods over the `array`, proved
  against their specifications. `ValidCoord`, `PixelOffset`, `GetPixel` and
  `ParseEndianness` are functions (module `HdrImages`).

Files: `numerics.dfy` (absolute value, the math library, small real-arithmetic
lemmas), `geometry.dfy` (vectors, points, normals, rays, transformations, hit
records), `quadratic.dfy`, `shape.dfy` and `hdr_image.dfy`.

`Math.Sqrt`, `Math.Atan2` and `Math.Acos` are the library calls the shapes
make. They are the three fields of a `MathLib` value passed to every function
that needs them. The `MathLib.Lawful()` predicate states the only facts the
proofs use:
- `sqrt(x) >= 0` and `sqrt(x)^2 = x` for `x >= 0`;
- `atan2` lies in `[-pi, pi]`;
- `acos` lies in `[0, pi]` on `[-1, 1]`.

A shape's `Transformation` is known only through three mappings:
- the ray into object space (`ray.Transform(Transf.Inverse())`);
- a point back to the world (`Transf * point`);
- a normal back to the world (`Transf * normal`).

Where the code and its documentation or tests disagree, the model follows the
code:
- `ValidCoord` is modelled as written. It requires `x > 0` and `y > 0`, and it
  bounds `y` by the width, not the height. The method's own documentation
  promises coordinates between 0 and the number of rows or columns.
  `GetPixel` and `SetPixel` therefore also require the offset to lie inside
  the array. `PixelOffset` needs only `ValidCoord`, because it computes the
  offset without indexing the array.
- The constructor overwrites the first `width * height` slots of the array it
  is given. An image built over a filled array therefore reads black there,
  not the colours the caller supplied (`BlankImageReadsBlack`).
- The cylinder's quick test rejects only a negative discriminant, while the
  full test rejects a zero one too. For a ray that grazes the cylinder the two
  tests disagree (`GrazingRayDisagreement`). Their documentation describes
  them as the same test.
- Building an image rewrites the dimensions that every earlier image built
  on the same `ImageDimensions` object reads (`SharedDimensions`).

## Model

| member | source | states |
|---|---|---|
| Geometry.Identity | PGENLib/Shape.cs:63 | the default transformation leaves rays, points and normals unchanged |
| Quadratics.NearBeforeFar | PGENLib/Shape.cs:104-106 | with a positive leading coefficient the root (-b - sqrt delta)/2a is not after (-b + sqrt delta)/2a |
| Quadratics.RootsSolve | PGENLib/Shape.cs:104-106 | when delta >= 0 both computed roots make a t^2 + b t + c vanish |
| Quadratics.OnlyRoots | PGENLib/Shape.cs:104-106 | every solution of the equation is one of the two computed roots, and a solution exists only if delta >= 0 |
| Shapes.ChooseRoot | PGENLib/Shape.cs:107-120 | a parameter is chosen iff one of the two roots lies strictly inside (tmin, tmax); the chosen one is such a root; the first root is preferred |
| Shapes.SphereEquation | PGENLib/Shape.cs:94-98 | a = abs(d)^2 >= 0, and a = 0 forces b = 0 and delta = 0, so the root division happens only with a != 0 |
| Shapes.SphereEquationMeaning | PGENLib/Shape.cs:94-98 | the equation's value at t is abs(At(t))^2 - 1, so its roots are exactly the ray's points on the unit sphere |
| Shapes.SphereNormal | PGENLib/Shape.cs:165-178 | the normal is the point or its negation, and its scalar product with the ray direction is <= 0 |
| Shapes.SpherePointToUv | PGENLib/Shape.cs:185-194 | u lies in [0, 1) after a negative u is shifted by 1; v lies in [0, 1] for points with -1 <= z <= 1 |
| Shapes.SphereLocalHit | PGENLib/Shape.cs:90-126 | the full sphere test, in object space: a hit needs delta > 0, and its t is one of the two roots, strictly inside the interval, with the point At(t) |
| Shapes.SphereRootPreference | PGENLib/Shape.cs:100-120 | delta <= 0 is a miss; otherwise the smaller root if inside the open interval, else the larger if inside, else a miss |
| Shapes.SphereHitIsNearest | PGENLib/Shape.cs:90-125 | a hit lies on the unit sphere at At(t) with t inside the interval, and no point of the sphere is reached earlier inside the interval; a miss means no such point or delta <= 0 |
| Shapes.SphereHitFrame | PGENLib/Shape.cs:121-124 | a hit has u in [0, 1), v in [0, 1] and an object-space normal that is plus or minus the hit point, chosen so that its scalar product with the world ray direction is <= 0 (the object-space normal is compared with the world direction, so after Transf the world normal need not face the ray) |
| Shapes.SphereQuickAgrees | PGENLib/Shape.cs:134-156 | SphereQuickHit, the sphere's quick test, is true exactly when the full test returns a hit |
| Shapes.PlaneLocalHit | PGENLib/Shape.cs:230-255 | a hit iff abs(dz) >= 1e-5 and -oz/dz lies strictly inside the interval; the hit point has z = 0, the normal is (0, 0, plus or minus 1) with normal.z * dz < 0, and (u, v) are the fractional parts of x and y, in [0, 1) |
| Shapes.PlaneQuickAgrees | PGENLib/Shape.cs:263-273 | PlaneQuickHit, the plane's quick test, is true exactly when the full test returns a hit |
| Shapes.PlaneHitIsOnlyCrossing | PGENLib/Shape.cs:239-244 | the hit parameter is the only t at which the ray meets z = 0 |
| Shapes.CylinderEquation | PGENLib/Shape.cs:362-366 | a = dx^2 + dy^2 >= 0, and a = 0 forces b = 0 and delta = 0 |
| Shapes.CylinderEquationMeaning | PGENLib/Shape.cs:362-366 | the equation's value at t is x(t)^2 + y(t)^2 - R^2 |
| Shapes.OrderedRoots | PGENLib/Shape.cs:377-381 | after the swap the two roots are in order and are the two computed roots |
| Shapes.NormalizedPhi | PGENLib/Shape.cs:400-405 | the azimuth is moved into [0, 2pi) |
| Shapes.CylinderSelect | PGENLib/Shape.cs:383-428 | the chosen t is one of the two roots, with tmin < t <= tmax, at a point within [zmin, zmax] and phi <= phimax. Every case is settled: no root inside the open interval gives a miss; the near root is kept when it is inside the interval and the clip; when only the far root is inside the interval it is taken iff its point is inside the clip; when the near root is inside the interval but clipped, the far root is taken iff the roots differ by at least 1e-5, the far root is at most tmax and its point is inside the clip, else a miss |
| Shapes.CylinderHitIsNearest | PGENLib/Shape.cs:356-434 | CylinderLocalHit, the full cylinder test: if some t strictly inside the interval reaches the clipped surface, the test hits at a t no later than it, unless delta = 0 or the two roots lie within 1e-5 of each other |
| Shapes.CylinderHitBounds | PGENLib/Shape.cs:356-433 | a hit has delta > 0, t a root with tmin < t <= tmax, its point on the lateral surface x^2 + y^2 = R^2 within [zmin, zmax] and 0 <= phi <= phimax, normal (x, y, 0) and (u, v) in [0, 1] |
| Shapes.CylinderQuickFollowsHit | PGENLib/Shape.cs:441-515 | CylinderQuickHit, the cylinder's quick test, is true for every full hit; a quick hit without a full hit has delta = 0 |
| Shapes.ZeroRadiusNeverHits | PGENLib/Shape.cs:362-371 | with R = 0 the discriminant is never positive, so the full test never hits |
| Shapes.NewCylinder | PGENLib/Shape.cs:294-301 | identity transformation, default material, given z range, full sweep 2pi, and R = 0 because the radius argument is not stored |
| Shapes.NewCylinderWithMaterial | PGENLib/Shape.cs:306-313 | as the parameterless constructor but with the given material; R again 0 |
| Shapes.NewTransformedCylinder | PGENLib/Shape.cs:323-331 | stores the transformation, material, z range and radius, with a full sweep |
| Shapes.NewSweptCylinder | PGENLib/Shape.cs:342-350 | stores the transformation, material, z range, sweep and radius |
| Shapes.NewCylinderIntended | PGENLib/Shape.cs:294-301 | the parameterless constructor with the radius stored: the same cylinder as the transformed constructor with the identity |
| Shapes.RayIntersection | PGENLib/Shape.cs:121-125 | a hit record exists iff the object-space test hits; it carries the caller's ray, the shape's material, the object-space t and (u, v), and the point and normal mapped by Transf (the same for the plane at 251-255 and the cylinder at 429-433) |
| Shapes.QuickAgreesWithFull | PGENLib/Shape.cs:134-155 | QuickRayIntersection: for spheres and planes it answers exactly whether RayIntersection hits; for cylinders every full hit is a quick hit and the extra quick hits have delta = 0 (the plane at 263-273, the cylinder at 441-515) |
| Shapes.GrazingRayDisagreement | PGENLib/Shape.cs:449-453 | the ray from (-2, 1, 1) along +x grazes the default cylinder: quick test true, full test no hit |
| Shapes.UnassignedRadiusHidesCylinder | PGENLib/Shape.cs:294-313 | RayIntersection returns no hit for any ray on a cylinder built by either of the first two constructors |
| Shapes.UnassignedRadiusQuickHit | PGENLib/Shape.cs:294-301 | QuickRayIntersection still answers true on such a cylinder for the ray from (-2, 0, 1) along +x, which passes through its axis (delta = 0), while RayIntersection returns no hit |
| Shapes.CrossingRayWitness | PGENLib/Shape.cs:294-301 | the ray from (-2, 0, 1) along +x hits the intended default cylinder at t = 1, point (-1, 0, 1), but misses the cylinder actually built |
| HdrImages.RowMajorInverse | PGENLib/HdrImage.cs:39-43 | from y * width + x, with 0 <= x < width, the quotient by width gives back y and the remainder gives back x |
| HdrImages.RowMajorInjective | PGENLib/HdrImage.cs:39-43 | distinct in-row coordinates have distinct row-major positions |
| HdrImages.RowMajorBounds | PGENLib/HdrImage.cs:39-43 | for 0 <= x < width and 0 <= y < height the position lies in [0, width * height) |
| HdrImages.ImageDimensions.constructor | PGENLib/HdrImage.cs:10-11 | the shared static width and height start at 0 |
| HdrImages.HdrImage.constructor | PGENLib/HdrImage.cs:15-26 | needs pixels.Length >= width * height; the image keeps the caller's array and the shared dimensions; afterwards the shared width and height are the given ones, slots below width * height hold the default colour and the others are unchanged |
| HdrImages.HdrImage.PixelOffset | PGENLib/HdrImage.cs:39-43 | the offset is positive, its quotient and remainder by width give back y and x, and it is below width * height when y is below the height |
| HdrImages.HdrImage.PixelOffsetInjective | PGENLib/HdrImage.cs:39-43 | two accepted coordinates share an offset only if they are equal |
| HdrImages.HdrImage.InBoundsOffsetFits | PGENLib/HdrImage.cs:28-34 | coordinates inside the documented bounds have an offset inside the first width * height slots |
| HdrImages.HdrImage.ValidCoordAdmitsMissingRow | PGENLib/HdrImage.cs:31-34 | ValidCoord, modelled as written: on a 3 x 2 image the check accepts (1, 2), whose offset 7 is past the 6 slots, and rejects the existing pixels (0, 0) and (1, 0) |
| HdrImages.HdrImage.BlankImageReadsBlack | PGENLib/HdrImage.cs:56-60 | GetPixel reads the slot at PixelOffset: after construction every accepted pixel on a real row reads the default colour |
| HdrImages.HdrImage.SetPixel | PGENLib/HdrImage.cs:48-60 | only the slot at PixelOffset(x, y) changes; GetPixel(x, y) then returns the new colour and every other accepted pixel reads as before; the dimensions are untouched |
| HdrImages.SharedDimensions | PGENLib/HdrImage.cs:10-18 | after a 2 x 2 image and then a 4 x 1 image, the first image sees width 4 and height 1 and accepts (3, 1) |
| HdrImages.ParseEndianness | PGENLib/HdrImage.cs:104-119 | for a non-zero input the result is 1 iff the input is positive and -1 iff it is negative; 0 is never returned |

## Left out

- Floating point: every `float` and `double` is a `real`. IEEE rounding, the
  `(float)` casts, NaN and infinities are not modelled. This includes the
  float/double mix in the sphere's quick test (`PGENLib/Shape.cs:143`), a ray
  whose `Tmax` is positive infinity, and the `(float)(2 * Math.PI)` rounding
  of the cylinder's sweep.
- Shapes.CylinderQuickHit: with a = 0 (hence delta = 0) the source divides 0
  by 0 and every comparison with the NaN roots fails. The model returns false
  there directly instead of computing NaN.
- Shapes.Quotient: in a degenerate cylinder (Phimax = 0 or Zmin = Zmax) the
  source stores a NaN surface coordinate. The model stores 0, so
  CylinderHitBounds' (u, v) in [0, 1] does not speak about NaN.
- The `Math` library is not modelled. `MathLib.Lawful()` is all the proofs
  know about `sqrt`, `atan2` and `acos`.
- The `Transformation`, `Ray`, `Vec`, `Point`, `Normal`, `Vec2d`, `Material`,
  `HitRecord` and `Color` types are not part of this model. They are reduced
  to the fields the core reads. The matrix algebra of transformations (the
  inverse, products, and points, normals and rays under a matrix) is left
  out. A transformation is just its three mappings.
- The abstract `Shape.RayIntersection` and `Shape.QuickRayIntersection`,
  which throw `NotImplementedException`: the closed `Shape` datatype
  dispatches on its variants instead.
- The four `Sphere` constructors and the two `XyPlane` constructors only
  store a transformation and a material, or their defaults. They are the
  datatype constructors `Sphere(...)` and `XyPlane(...)` with
  `Identity()` and `DefaultMaterial`.
- `new Color()` is taken to be black (0, 0, 0). `Color.cs` is not part of
  this model.
- PFM input and output: `ReadFloat` decodes a fixed byte array and ignores
  its stream, and `ReadLine` and `ParseImgSize` are unfinished and do not
  compile. No writer exists. All of these are stream I/O.
- HdrImages.HdrImage.constructor: requires `width * height <= pixels.Length`,
  so the source's IndexOutOfRangeException path is not modelled. In the
  source that exception is thrown only after the static width and height
  have already been overwritten for every image.
- 32-bit integers: `width * height` and `y * width + x` are unbounded
  integers, so overflow is not modelled.
- `Debug.Assert` is modelled as a precondition. A release build skips the
  assertion, and `ParseEndianness(0)` would then return 0 (0 / 0 is NaN).
  The model does not cover that call.
- The unit tests in `PGENLib.Tests/HdrImageTests.cs` call members that do not
  exist (a two-argument constructor, `WritePFMFile`). They are not modelled.

## Findings

| source | as written | input that shows it | evidently intended | confidence | as-written member | corrected member |
|---|---|---|---|---|---|---|
| PGENLib/Shape.cs:294-313 | the first two `Cylinder` constructors never assign `R`, which stays 0, so `RayIntersection` never reports a hit on the cylinder (the quick test still answers true for rays through its axis) | `new Cylinder()` and the ray from (-2, 0, 1) along +x over (1e-5, 10): no hit, though it crosses the unit cylinder at (-1, 0, 1) | store the radius argument, as the other two constructors do | not executed | Shapes.NewCylinder, Shapes.UnassignedRadiusHidesCylinder, Shapes.UnassignedRadiusQuickHit | Shapes.NewCylinderIntended, Shapes.CrossingRayWitness |
| PGENLib/HdrImage.cs:31-34 | `ValidCoord` demands x > 0 and y > 0 and bounds y by the width | on a 3 x 2 image it accepts (1, 2), offset 7, past the 6 pixels, and rejects (0, 0) | 0 <= x < width and 0 <= y < height | not executed | HdrImages.HdrImage.ValidCoord, HdrImages.HdrImage.ValidCoordAdmitsMissingRow | HdrImages.HdrImage.InBounds, HdrImages.HdrImage.InBoundsOffsetFits |

`GetPixel` and `SetPixel` keep the guard the code actually checks. They also
require the offset to lie inside the array. `InBoundsOffsetFits` shows that
the intended check alone keeps every access inside the blanked part of the
buffer.
