# GP1 ray tracer core in Dafny

This project models the core of a small CPU ray tracer (the `GP1_Raytracer`
sources). It covers three parts:

- the ray/primitive intersection tests of `GeometryUtils` in `Utils.h`: sphere, plane,
  Möller–Trumbore triangle, the axis-aligned bounding-box slab test, and the
  triangle-mesh closest-hit fold, each in its closest-hit and any-hit overload;
- the point-light helpers of `LightUtils` and the reflectance terms of `BRDFs.h`:
  Lambert, Phong, Schlick's Fresnel, GGX, Schlick-GGX and Smith;
- the per-pixel body of `Renderer::Render` in `Renderer.cpp`: the camera-space ray
  direction, the view ray, the hit or no-hit colour, the shadow loop and the
  buffer index of every pixel.

Every `float` is a Dafny `real`. The value of the model lies in the comparison
and selection discipline, not in rounding: which `t` a test accepts, when a hit
record is overwritten, which triangles a cull mode rejects, and what a pixel
ends up holding.

Files:

- `arith.dfy` (module `Arith`): sign and order facts about named products and
  quotients.
- `geometry.dfy` (module `Geometry`): vectors, colours, rays, hit records,
  primitives, and `Numerics`. `Numerics` holds the routines the tracer takes from
  its maths library (`sqrtf`, `Normalized`, `Reflect`, `std::pow`). They are
  function-valued parameters. The predicates `SqrtIsSound`,
  `NormalizeDividesByMagnitude` and `PowIsNonNegative` state what a lemma assumes
  of them.
- `primitives.dfy` (module `Primitives`): sphere, plane and triangle tests.
- `mesh.dfy` (module `Mesh`): the slab test and the mesh loop.
- `lights.dfy` (module `Lights`): `GetDirectionToLight` and `GetRadiance`.
- `brdf.dfy` (module `Brdf`): the reflectance terms.
- `render.dfy` (module `Render`): the per-pixel body and the two nested loops.
  The scene's `GetClosestHit` and `DoesHit` and each material's `Shade` are
  function-valued fields of `Scene`.

In a few places the code departs from the usual form of a step; the model
follows the code:

- The Schlick-GGX remapping is `k = (roughness² + 1)² / 8`, not Karis'
  `(roughness + 1)² / 8` for direct light.
- An occluded light halves the whole colour accumulated so far, instead of
  dropping only that light's contribution. The colour before the shadow loop is
  the material's `Shade()`; no radiance or cosine term is accumulated.
- The view direction is normalised before the camera-to-world transform and is
  not normalised again after it.
- The view ray's upper bound and the fresh record's `t` are taken to be the
  defaults of the ray and record types, assumed to be FLT_MAX (with a lower
  bound of 0.0001) rather than an infinity; the types' definitions are not part
  of this model.
- A sphere miss with a non-positive discriminant clears `didHit`, where the
  other primitives' misses leave the record alone (see Findings).
- The mesh test returns false on a slab miss even if the record already holds a
  hit. After a slab hit it returns the record's `didHit`, which an earlier
  primitive may have set.

## Model

| member | source | states |
|---|---|---|
| Primitives.HitTestSphere | GP1_Raytracer-main/source/Utils.h:13-50 | A non-positive discriminant gives false and a record equal to the old one except `didHit = false`. Otherwise the result is true exactly when the chosen root lies in the open ray interval. An in-interval root closer than the record is written as the hit at that root (point on the ray, normal from the centre, sphere's material); otherwise the record is unchanged, its `t` never grows, and an in-interval hit that is not closer still returns true with the record unchanged. |
| Primitives.SphereMissClearsPriorHit | GP1_Raytracer-main/source/Utils.h:25-29 | Counterexample: a sideways ray past a far sphere turns a recorded hit at t = 5 into "no hit" while keeping t = 5, which breaks the refinement discipline. |
| Primitives.SidewaysRayMissesFarSphere | GP1_Raytracer-main/source/Utils.h:17-25 | The discriminant for the counterexample's sphere and ray is negative. |
| Primitives.HitTestSphereKeepingRecord | GP1_Raytracer-main/source/Utils.h:25-29 | Corrected sphere test: it returns the same boolean as the original and agrees with it whenever the discriminant is positive, so a closer in-interval root is written as the hit. On a miss it leaves the record alone, so it never loses an earlier hit and always refines the record. |
| Primitives.SphereDoesHit | GP1_Raytracer-main/source/Utils.h:52-56 | The any-hit overload is true exactly when the discriminant is positive and the chosen root lies in the ray interval. |
| Primitives.PositiveDiscriminantHasDirection | GP1_Raytracer-main/source/Utils.h:19-31 | A positive discriminant implies `A > 0`, so the divisor `2A` of both roots is non-zero. |
| Primitives.ZeroDirectionZeroDiscriminant | GP1_Raytracer-main/source/Utils.h:19-23 | A ray without a direction has a zero discriminant and so takes the miss branch. |
| Primitives.RootsOrdered | GP1_Raytracer-main/source/Utils.h:31-36 | With a sound `sqrtf`, the first root tried, `(-B - √D)/2A`, is at most the fallback root `(-B + √D)/2A`. |
| Primitives.ChosenRootSolves | GP1_Raytracer-main/source/Utils.h:31-36 | Whichever root the test settles on solves `A t² + B t + C = 0`. |
| Primitives.SphereHitOnSurface | GP1_Raytracer-main/source/Utils.h:31-45 | Round trip: the point of an accepted sphere hit is at squared distance `radius²` from the centre. |
| Primitives.RootOnSurface | GP1_Raytracer-main/source/Utils.h:17-21 | Every root of the sphere's quadratic is a point of the sphere's surface. |
| Primitives.SphereHitIsNearest | GP1_Raytracer-main/source/Utils.h:31-37 | No root of the quadratic above `ray.min` is nearer than the root an accepted hit uses. |
| Primitives.SphereReportsRootInInterval | GP1_Raytracer-main/source/Utils.h:31-37 | Completeness: a root of the quadratic inside the open ray interval makes the any-hit test true, with the chosen root at or before it, provided the discriminant is positive and the near root is not exactly `ray.min`. |
| Primitives.OnlyTwoRoots | GP1_Raytracer-main/source/Utils.h:31-35 | Every solution of the quadratic is one of the two roots the code computes. |
| Primitives.HitTestPlane | GP1_Raytracer-main/source/Utils.h:60-78 | True exactly when the ray meets the plane inside the open interval (a parallel ray never does). The record is either unchanged or the hit at that `t` with the plane's normal and material, and it only changes for a closer `t`. An in-interval hit that is not closer returns true with the record unchanged. |
| Primitives.PlaneDoesHit | GP1_Raytracer-main/source/Utils.h:80-84 | The any-hit overload is true exactly when the crossing lies in the ray interval. |
| Primitives.PlaneHitOnPlane | GP1_Raytracer-main/source/Utils.h:62-70 | Round trip: the point at the computed `t` lies on the plane, i.e. `(p - origin)·n = 0`. |
| Primitives.PlaneCrossingIsReported | GP1_Raytracer-main/source/Utils.h:60-70 | Completeness: for a ray not parallel to the plane, every ray point on the plane is the crossing `t` the test computes, and it is reported when it lies in the ray interval. |
| Primitives.TriangleCandidate | GP1_Raytracer-main/source/Utils.h:101-139 | Every `t` that survives the cull switch and the barycentric and interval gates lies strictly inside the ray interval. |
| Primitives.HitTestTriangle | GP1_Raytracer-main/source/Utils.h:88-151 | True exactly when a candidate exists and is closer than the record, and then the record is the hit at that `t` with the triangle's normal and material. Otherwise the record is unchanged, so a valid hit that is not closer returns false. The record always refines. |
| Primitives.TriangleDoesHit | GP1_Raytracer-main/source/Utils.h:153-157 | The any-hit overload compares against FLT_MAX: it is true exactly when a candidate below FLT_MAX exists, which is every candidate for a ray bounded by FLT_MAX. |
| Primitives.TriangleGates | GP1_Raytracer-main/source/Utils.h:101-136 | An accepted triangle hit has a non-zero determinant, positive under front-face culling and negative under back-face culling, with `0 <= u <= 1`, `v >= 0`, `u + v <= 1`, and `t` is the Cramer solution. |
| Primitives.NoCullingIsUnionOfCullModes | GP1_Raytracer-main/source/Utils.h:101-115 | Without culling the test accepts what front-face culling accepts for a non-negative determinant and what back-face culling accepts for a negative one. |
| Primitives.TriangleHitInsideTriangle | GP1_Raytracer-main/source/Utils.h:117-134 | Round trip: the ray point at an accepted `t` equals the triangle point with barycentric weights `(1-u-v, u, v)`, all non-negative. |
| Primitives.SolutionOnTriangle | GP1_Raytracer-main/source/Utils.h:117-134 | For any non-zero determinant, the ray point at `t` equals the plane point `v0 + u·edge1 + v·edge2` (Cramer's rule read back). |
| Primitives.CrossingSolves | GP1_Raytracer-main/source/Utils.h:117-134 | Uniqueness, the converse of the read-back: for a non-zero determinant, any `u, v, t` at which the ray point equals `v0 + u·edge1 + v·edge2` are exactly the `u, v, t` the code computes. |
| Primitives.TriangleAcceptsEveryInteriorCrossing | GP1_Raytracer-main/source/Utils.h:101-139 | Completeness: a ray the cull mode admits that meets the triangle with non-negative barycentric weights inside its interval is reported at that `t`, with those weights. |
| Primitives.NormalRayDeterminant | GP1_Raytracer-main/source/Utils.h:94-98 | A ray along the normal `edge1 × edge2` of a non-degenerate triangle has a negative determinant: it sees the back face. |
| Primitives.CentroidRayHits | GP1_Raytracer-main/source/Utils.h:94-139 | A ray along the normal through the centroid of a non-degenerate triangle hits it unless front faces are culled, with `u = v = 1/3`: both positive and `u + v < 1`. |
| Primitives.FlipNegatesDeterminant | GP1_Raytracer-main/source/Utils.h:94-98 | Swapping `v1` and `v2` negates the determinant. |
| Primitives.FlipSwapsBarycentrics | GP1_Raytracer-main/source/Utils.h:117-134 | Swapping `v1` and `v2` swaps `u` and `v` and keeps `t`. |
| Primitives.FlipWithOppositeCullMode | GP1_Raytracer-main/source/Utils.h:94-139 | Reversing the winding together with the cull mode leaves the candidate unchanged: the same ray hits at the same `t`. |
| Mesh.AxisSlab | GP1_Raytracer-main/source/Utils.h:162-166 | After the swap the near bound of an axis is at most its far bound. |
| Mesh.SlabTest | GP1_Raytracer-main/source/Utils.h:160-188 | The test accepts exactly when the largest near bound of the three axes is at most the smallest far bound. |
| Mesh.SlabsContain | GP1_Raytracer-main/source/Utils.h:160-188 | The parameter interval between entry and exit is exactly the set of `t` whose ray point lies in the box. |
| Mesh.SlabAcceptsOnlyLinesThroughBox | GP1_Raytracer-main/source/Utils.h:160-188 | Soundness: when the test accepts, the line's entry point lies in the box. |
| Mesh.SlabAcceptsEveryLineThroughBox | GP1_Raytracer-main/source/Utils.h:160-188 | Completeness: every line through a point of the box is accepted, whatever the sign of that point's `t`. |
| Mesh.SlabTestAcceptsBoxBehindRay | GP1_Raytracer-main/source/Utils.h:160-188 | A box lying wholly behind the ray is accepted, because the sign of `t` is never consulted. |
| Mesh.TestMeshTriangle | GP1_Raytracer-main/source/Utils.h:200-203 | The triangle built from the k-th index triple, the k-th normal and the mesh's cull mode and material hits exactly when its candidate is closer than the scratch record. |
| Mesh.ScanOne | GP1_Raytracer-main/source/Utils.h:203-212 | One turn of the loop keeps the scan state. A closer scratch hit replaces the caller's record; a miss leaves it alone. Before any accepted triangle, the turn reports a hit exactly when it accepts one. |
| Mesh.ScanTriangles | GP1_Raytracer-main/source/Utils.h:196-216 | In any-hit mode the record is untouched and the result is true iff some triangle is accepted or the record already held a hit. Otherwise the final `t` is the minimum of the initial `t` and every accepted triangle `t`, the record is the initial one or some triangle's hit, the result is its `didHit`, and the record refines. |
| Mesh.HitTestTriangleMesh | GP1_Raytracer-main/source/Utils.h:189-218 | A slab miss returns false with the record unchanged. Otherwise the result is as for the loop above. |
| Mesh.TriangleMeshDoesHit | GP1_Raytracer-main/source/Utils.h:220-224 | The any-hit overload is true exactly when the slab test accepts and some triangle is accepted. |
| Mesh.MeshHitIsClosest | GP1_Raytracer-main/source/Utils.h:196-216 | The closest-hit result is no farther than the starting record and than any triangle of the mesh that passes its gates below FLT_MAX. |
| Lights.DirectionToLight | GP1_Raytracer-main/source/Utils.h:232-235 | Adding the result to the origin gives the light's position. |
| Lights.Radiance | GP1_Raytracer-main/source/Utils.h:237-240 | Each channel times the squared distance to the light equals the light's channel times its intensity, and that squared distance is positive. |
| Lights.RadianceNonNegative | GP1_Raytracer-main/source/Utils.h:237-240 | A light with a non-negative colour and intensity sends non-negative radiance. |
| Lights.InverseSquareLaw | GP1_Raytracer-main/source/Utils.h:237-240 | Twice as far from the light in the same direction receives a quarter of the radiance. |
| Brdf.Lambert | GP1_Raytracer-main/source/BRDFs.h:19-22 | Each channel times π is the diffuse channel times its coefficient. |
| Brdf.LambertScalar | GP1_Raytracer-main/source/BRDFs.h:14-17 | The scalar overload is the per-channel overload at a grey coefficient. |
| Brdf.LambertOfZeroIsBlack | GP1_Raytracer-main/source/BRDFs.h:14-22 | A zero coefficient gives black in both overloads. |
| Brdf.LambertIsLinear | GP1_Raytracer-main/source/BRDFs.h:19-22 | Lambert adds over sums of coefficients and commutes with scaling them. |
| Brdf.LambertBounded | GP1_Raytracer-main/source/BRDFs.h:19-22 | With coefficient and colour in [0, 1], every channel lies in [0, 1/π]. |
| Brdf.Phong | GP1_Raytracer-main/source/BRDFs.h:33-44 | The result is black when `reflect(n, l)·v < 0`, and it is always grey (three equal channels). |
| Brdf.PhongFacingViewer | GP1_Raytracer-main/source/BRDFs.h:41-43 | When the reflection faces the viewer every channel is `ks · pow(cosA, exp)`; at perfect alignment with `pow(1, e) = 1` it is `ks`. |
| Brdf.PhongNonNegative | GP1_Raytracer-main/source/BRDFs.h:33-44 | A non-negative `ks` and a `pow` that keeps non-negative bases non-negative give a non-negative colour. |
| Brdf.Fresnel | GP1_Raytracer-main/source/BRDFs.h:53-58 | `v·h = 1` gives exactly `f0`; `v·h = 0` gives white. |
| Brdf.FresnelBetweenBaseAndWhite | GP1_Raytracer-main/source/BRDFs.h:53-58 | For `v·h` in [0, 1] and `f0` in [0, 1], each channel lies between `f0` and 1. |
| Brdf.Ggx | GP1_Raytracer-main/source/BRDFs.h:67-78 | The distribution term is non-negative wherever its denominator is non-zero. |
| Brdf.GgxAlongNormal | GP1_Raytracer-main/source/BRDFs.h:67-78 | At `n·h = 1` with non-zero roughness the denominator is non-zero and the term equals `1/(π a²)`, with `a = roughness²`. |
| Brdf.GgxDefinedOnValidInputs | GP1_Raytracer-main/source/BRDFs.h:67-78 | For roughness in (0, 1] and `n·h` in [-1, 1] the denominator term is positive, so the distribution is defined and non-negative on every physically valid input. |
| Brdf.SchlickK | GP1_Raytracer-main/source/BRDFs.h:92-93 | `k = (roughness² + 1)² / 8` is at least 1/8. |
| Brdf.SchlickDenominatorBounds | GP1_Raytracer-main/source/BRDFs.h:99 | For a dot in [0, 1] the denominator `dot·(1-k) + k` is positive and at least the dot. |
| Brdf.SchlickGgx | GP1_Raytracer-main/source/BRDFs.h:88-100 | Zero when `n·v < 0`, in [0, 1] for `n·v` in [0, 1], and exactly 1 at `n·v = 1`. |
| Brdf.SchlickGgxDefinedOnUnitDots | GP1_Raytracer-main/source/BRDFs.h:88-100 | The term is defined for every direction whose dot with the normal is at most 1. |
| Brdf.Smith | GP1_Raytracer-main/source/BRDFs.h:110-114 | Zero when either direction faces away, in [0, 1] when both dots lie in [0, 1], and 1 when both are 1. |
| Render.AspectRatio | GP1_Raytracer-main/source/Renderer.cpp:30 | A non-empty screen has a positive aspect ratio. |
| Render.ScreenX | GP1_Raytracer-main/source/Renderer.cpp:40-44 | `2(px + 0.5)/W - 1` lies strictly inside (-1, 1) for every column. |
| Render.ScreenY | GP1_Raytracer-main/source/Renderer.cpp:41-45 | `1 - 2(py + 0.5)/H` lies strictly inside (-1, 1) for every row. |
| Render.ScreenXMirror | GP1_Raytracer-main/source/Renderer.cpp:44 | Mirrored columns get opposite screen coordinates. |
| Render.ScreenYMirror | GP1_Raytracer-main/source/Renderer.cpp:45 | Mirrored rows get opposite screen coordinates. |
| Render.CameraSpaceDirection | GP1_Raytracer-main/source/Renderer.cpp:43-46 | The camera-space direction has `z = 1` and is never zero, so it can be normalised. |
| Render.CameraDirectionInsideFrustum | GP1_Raytracer-main/source/Renderer.cpp:43-46 | With a positive `tan(fov/2)`, `|x| < ar · tan(fov/2)` and `|y| < tan(fov/2)`. |
| Render.SquareScreenIsSymmetric | GP1_Raytracer-main/source/Renderer.cpp:30-46 | On a square screen, swapping row and column turns `x` into `-y`. |
| Render.ViewDirectionIsUnit | GP1_Raytracer-main/source/Renderer.cpp:47-52 | The direction `Render.ViewRay` normalises before the camera transform has length one when `Normalized` divides by a sound square root. |
| Render.ShadowRayReachesLight | GP1_Raytracer-main/source/Renderer.cpp:65-69 | The shadow ray `Render.ShadowRay` builds (origin nudged along the normal, normalised direction to the light, `max` the light's distance) has a positive `max`, and its point at `max` is the light shifted by the same nudge along the normal as the ray's origin. |
| Render.OccludedCount | GP1_Raytracer-main/source/Renderer.cpp:63-75 | The number of blocked lights is at most the number of lights, and zero exactly when no shadow ray is blocked. |
| Render.ShadowPassClosedForm | GP1_Raytracer-main/source/Renderer.cpp:61-75 | The shadow loop `Render.ShadowPass`, which halves the colour for each blocked light in turn, yields the shaded colour times `0.5^k`, with `k` the number of blocked lights. |
| Render.ShadowPassOrderIndependent | GP1_Raytracer-main/source/Renderer.cpp:63-75 | Any reordering of the lights gives the same colour. |
| Render.FreeLightKeepsColor | GP1_Raytracer-main/source/Renderer.cpp:71-74 | A light whose shadow ray is free leaves the colour unchanged, wherever it sits in the list. |
| Render.BlockedLightHalvesColor | GP1_Raytracer-main/source/Renderer.cpp:71-74 | A blocked light halves the colour the other lights leave. |
| Render.ShadowsOnlyDarken | GP1_Raytracer-main/source/Renderer.cpp:61-75 | Each channel of a non-negative shade stays between zero and its unshadowed value. |
| Render.PixelColor | GP1_Raytracer-main/source/Renderer.cpp:52-77 | No hit gives black. A hit gives the material's shade times `0.5^k`, with `k` the lights whose shadow ray is blocked. |
| Render.PixelIndexDecomposes | GP1_Raytracer-main/source/Renderer.cpp:82 | The column and row are recovered from the index `px + py·W` by remainder and quotient. |
| Render.PixelIndexInjective | GP1_Raytracer-main/source/Renderer.cpp:82 | Two pixels share an index exactly when they are the same pixel. |
| Render.PixelIndexInRange | GP1_Raytracer-main/source/Renderer.cpp:82 | Every pixel's index lies in `[0, W·H)`. |
| Render.EveryIndexIsAPixel | GP1_Raytracer-main/source/Renderer.cpp:82 | Every index below `W·H` is the index of the pixel given by its remainder and quotient. |
| Render.ScheduleCoversColumns | GP1_Raytracer-main/source/Renderer.cpp:32-34 | After the first `c` columns the loops have written `c·H` distinct indices: all inside the buffer, all in those columns, and covering every pixel of them. |
| Render.RenderColumn | GP1_Raytracer-main/source/Renderer.cpp:34-86 | The inner loop paints every pixel of its column with that pixel's colour. It logs the column's indices top to bottom and leaves every other column alone. |
| Render.PaintColumns | GP1_Raytracer-main/source/Renderer.cpp:32-87 | The outer loop paints every pixel with its colour and logs its writes in column-major order. |
| Render.Render | GP1_Raytracer-main/source/Renderer.cpp:24-92 | Every pixel of the `W·H` buffer holds its colour. The logged writes number `W·H`, are distinct, lie inside the buffer and cover every index: each entry is written exactly once. |

## Left out

- IEEE-754 behaviour: rounding, NaN and the infinities are not modelled. The zero divisors the float code relies on become explicit branches or preconditions:
  - a ray parallel to a plane takes the miss branch (`None`);
  - a zero triangle determinant takes the miss branch;
  - the slab test requires every direction component to be non-zero.
- Mesh.SlabTest: requires a direction with no zero component, because the float code divides by each component and relies on the resulting infinities.
- Mesh.HitTestTriangleMesh: requires a direction with no zero component (same reason), whole index triples, in-range indices and a normal per triangle.
- Brdf.Phong: reads the one-value construction `ColorRGB{ resultPhong }` (BRDFs.h:43) as a grey colour with all three channels equal. ColorRGB is not part of this model; if it is a plain three-float aggregate, that construction fills only the red channel.
- Mesh.MeshTriangle: reads the four-argument `Triangle{ v0, v1, v2, normal }` construction (Utils.h:200-202) as storing the mesh's normal as given. DataTypes.h, which defines that constructor, is not part of this model; if the constructor normalises or recomputes the normal, a mesh hit's normal differs from `normals[k]`.
- Primitives.SphereReportsRootInInterval: requires a positive discriminant and a near root other than `ray.min`, because the code does not report the other cases. A tangent ray (discriminant zero) takes the miss branch at Utils.h:25. A near root exactly at `ray.min` is kept by the `t < ray.min` test at Utils.h:33 and then fails the open interval at line 37, and the far root is never tried. The model follows the code in both.
- Brdf.Ggx: requires a non-zero denominator, because the float code divides by zero for a perfectly smooth surface seen along its normal.
- Brdf.SchlickGgx: requires a non-zero denominator for non-negative dots; for dots in [0, 1] the denominator is always positive (Brdf.SchlickGgxDefinedOnUnitDots).
- Lights.Radiance: requires the target to differ from the light's position, where the float code divides by zero.
- `sqrtf`, `Normalized`, `Reflect` and `std::pow` are parameters, not definitions. The camera-to-world transform and `tan(fov/2)` are camera fields. Vector addition, dot and cross products get their textbook definitions. Math.h, Matrix.h and DataTypes.h are not part of this model.
- The ray defaults `min = 0.0001` and `max = FLT_MAX`, and the fresh record's `t = FLT_MAX`, are written as constants; DataTypes.h, which defines them, is not part of this model.
- `ColorRGB::MaxToOne` and the conversion through `uint8_t` and `SDL_MapRGB` are not modelled. The buffer holds each pixel's colour before clamping. ColorRGB is not part of this model, and `SDL_MapRGB` is a library call.
- `GetClosestHit`, `DoesHit` and the material's `Shade` are abstract functions of the scene; Scene.h and Material.h are not part of this model.
- The SDL plumbing of Renderer.cpp is left out: the constructor, `SDL_UpdateWindowSurface` and `SaveBufferToImage`. So is the unused `gradient` value at lines 36-38.
- `Utils::ParseOBJ` is left out: it is file and stream input followed by a float normal computation.
- Camera.h and Renderer.h are left out: keyboard and mouse input, matrix products and declarations only.
- The unused `ignoreHitRecord` parameter of the sphere, plane and triangle tests has no counterpart. Their any-hit overloads pass a fresh scratch record instead.
- Concurrency: the renderer is sequential.

## Findings

| source | as written | input that shows it | evidently intended | confidence | as-written member | corrected member |
|---|---|---|---|---|---|---|
| GP1_Raytracer-main/source/Utils.h:25-29 | A sphere the ray misses outright (`D <= 0`) sets `hitRecord.didHit = false` and returns false. | A unit sphere at (0, 0, 10), a ray from the origin along +y, and a record holding a hit at t = 5: afterwards the record says "no hit" but still holds t = 5, so the earlier hit is lost for the pixel. | A miss leaves the record as it was, like the other miss branches and the other primitives. | not executed | Primitives.SphereMissClearsPriorHit | Primitives.HitTestSphereKeepingRecord |
