/** Ray intersection tests for the analytic primitives (`GeometryUtils` in
    Utils.h): sphere, plane and Möller–Trumbore triangle, each in its
    closest-hit form (refining a hit record) and its any-hit form. */
module Primitives {
  import opened Arith
  import opened Geometry

  /** What a closest-hit test gives back: the boolean it returns and the hit
      record as the by-reference parameter holds it afterwards. */
  datatype HitResult = HitResult(hit: bool, record: HitRecord)

  // ================================================================= sphere

  /** Coefficients of `A t² + B t + C = 0` for the points of the ray at the
      sphere's radius. */
  function QuadA(ray: Ray): real {
    Dot(ray.direction, ray.direction)
  }

  function QuadB(sphere: Sphere, ray: Ray): real {
    Dot(Scale(ray.direction, 2.0), Sub(ray.origin, sphere.origin))
  }

  function QuadC(sphere: Sphere, ray: Ray): real {
    Dot(Sub(ray.origin, sphere.origin), Sub(ray.origin, sphere.origin)) - sphere.radius * sphere.radius
  }

  function Discriminant(sphere: Sphere, ray: Ray): real {
    QuadB(sphere, ray) * QuadB(sphere, ray) - 4.0 * QuadA(ray) * QuadC(sphere, ray)
  }

  lemma ZeroDirectionZeroDiscriminant(sphere: Sphere, ray: Ray)
    requires ray.direction == Zero
    ensures Discriminant(sphere, ray) == 0.0
  {
    ZeroDirectionCoefficients(sphere, ray);
    ZeroCoefficientsZeroDiscriminant(sphere, ray);
  }

  lemma ZeroCoefficientsZeroDiscriminant(sphere: Sphere, ray: Ray)
    requires QuadA(ray) == 0.0 && QuadB(sphere, ray) == 0.0
    ensures Discriminant(sphere, ray) == 0.0
  {
    QuadraticWithoutLeadingTerms(QuadA(ray), QuadB(sphere, ray), QuadC(sphere, ray), Discriminant(sphere, ray));
  }

  /** Without a direction the quadratic and linear coefficients vanish. */
  lemma ZeroDirectionCoefficients(sphere: Sphere, ray: Ray)
    requires ray.direction == Zero
    ensures QuadA(ray) == 0.0 && QuadB(sphere, ray) == 0.0
  {
    assert Scale(ray.direction, 2.0) == Zero;
  }

  lemma QuadraticWithoutLeadingTerms(a: real, b: real, c: real, d: real)
    requires d == b * b - 4.0 * a * c
    requires a == 0.0 && b == 0.0
    ensures d == 0.0
  {
  }

  /** A positive discriminant rules out a zero direction, so `2A` is a safe divisor. */
  lemma PositiveDiscriminantHasDirection(sphere: Sphere, ray: Ray)
    requires Discriminant(sphere, ray) > 0.0
    ensures QuadA(ray) > 0.0
  {
    if ray.direction == Zero {
      ZeroDirectionZeroDiscriminant(sphere, ray);
    } else {
      SelfDotSign(ray.direction);
    }
  }

  function NearRoot(sphere: Sphere, ray: Ray, lib: Numerics): real
    requires Discriminant(sphere, ray) > 0.0
  {
    PositiveDiscriminantHasDirection(sphere, ray);
    (-QuadB(sphere, ray) - lib.sqrt(Discriminant(sphere, ray))) / (2.0 * QuadA(ray))
  }

  function FarRoot(sphere: Sphere, ray: Ray, lib: Numerics): real
    requires Discriminant(sphere, ray) > 0.0
  {
    PositiveDiscriminantHasDirection(sphere, ray);
    (-QuadB(sphere, ray) + lib.sqrt(Discriminant(sphere, ray))) / (2.0 * QuadA(ray))
  }

  /** The root the sphere test settles on: the near one, unless it lies
      below the ray's lower bound. */
  function SphereT(sphere: Sphere, ray: Ray, lib: Numerics): real
    requires Discriminant(sphere, ray) > 0.0
  {
    var t := NearRoot(sphere, ray, lib);
    if t < ray.min then FarRoot(sphere, ray, lib) else t
  }

  function SphereNormal(sphere: Sphere, ray: Ray, t: real, lib: Numerics): Vec3 {
    lib.normalize(Sub(PointAt(ray, t), sphere.origin))
  }

  /** `HitTest_Sphere` with a hit record, as written: a ray that misses the
      sphere outright (discriminant not positive) clears `didHit`, whatever
      an earlier primitive left there. An in-interval hit that is not closer
      than the record still returns true. */
  function HitTestSphere(sphere: Sphere, ray: Ray, hr: HitRecord, lib: Numerics): (r: HitResult)
    ensures Discriminant(sphere, ray) <= 0.0 ==> !r.hit && r.record == hr.(didHit := false)
    ensures Discriminant(sphere, ray) > 0.0 ==>
              (r.hit <==> InInterval(ray, SphereT(sphere, ray, lib)))
              && Refines(ray, hr, r.record)
              && (r.record != hr ==> r.record == Accept(ray, SphereT(sphere, ray, lib),
                                                        SphereNormal(sphere, ray, SphereT(sphere, ray, lib), lib),
                                                        sphere.materialIndex))
    ensures r.record.t <= hr.t
    ensures r.hit && !(r.record.t < hr.t) ==> r.record == hr
    ensures Discriminant(sphere, ray) > 0.0 && r.hit && SphereT(sphere, ray, lib) < hr.t ==>
              r.record == Accept(ray, SphereT(sphere, ray, lib),
                                 SphereNormal(sphere, ray, SphereT(sphere, ray, lib), lib),
                                 sphere.materialIndex)
  {
    if Discriminant(sphere, ray) <= 0.0 then
      HitResult(false, hr.(didHit := false))
    else
      var t := SphereT(sphere, ray, lib);
      if ray.min < t && t < ray.max then
        if t < hr.t then
          HitResult(true, Accept(ray, t, SphereNormal(sphere, ray, t, lib), sphere.materialIndex))
        else
          HitResult(true, hr)
      else
        HitResult(false, hr)
  }

  /** The sphere test with the miss branch leaving the record alone, as the
      closest-hit bookkeeping across several primitives needs. */
  function HitTestSphereKeepingRecord(sphere: Sphere, ray: Ray, hr: HitRecord, lib: Numerics): (r: HitResult)
    ensures Refines(ray, hr, r.record)
    ensures r.hit == HitTestSphere(sphere, ray, hr, lib).hit
    ensures hr.didHit ==> r.record.didHit
    ensures Discriminant(sphere, ray) <= 0.0 ==> r.record == hr
    ensures Discriminant(sphere, ray) > 0.0 ==> r == HitTestSphere(sphere, ray, hr, lib)
    ensures r.hit && SphereT(sphere, ray, lib) < hr.t ==>
              r.record == Accept(ray, SphereT(sphere, ray, lib),
                                 SphereNormal(sphere, ray, SphereT(sphere, ray, lib), lib),
                                 sphere.materialIndex)
  {
    if Discriminant(sphere, ray) <= 0.0 then HitResult(false, hr)
    else HitTestSphere(sphere, ray, hr, lib)
  }

  /** A sphere ten units down the z axis and a ray along the y axis from
      the origin: the ray passes it by. */
  const FarSphere := Sphere(Vec3(0.0, 0.0, 10.0), 1.0, 0)
  const SidewaysRay := Ray(Zero, Vec3(0.0, 1.0, 0.0), DefaultRayMin, FarT)

  lemma SidewaysRayMissesFarSphere()
    ensures Discriminant(FarSphere, SidewaysRay) < 0.0
  {
    SidewaysCoefficients(FarSphere, SidewaysRay);
    NoLinearTermMisses(FarSphere, SidewaysRay);
  }

  /** The coefficients for a unit sphere centred at (0, 0, 10) and a ray
      from the origin along the y axis. Each coefficient has a lemma of its
      own over symbolic components: one combined calculation over the
      literals is too costly for the solver. */
  lemma SidewaysCoefficients(sphere: Sphere, ray: Ray)
    requires ray.origin.x == 0.0 && ray.origin.y == 0.0 && ray.origin.z == 0.0
    requires ray.direction.x == 0.0 && ray.direction.y == 1.0 && ray.direction.z == 0.0
    requires sphere.origin.x == 0.0 && sphere.origin.y == 0.0 && sphere.origin.z == 10.0
    requires sphere.radius == 1.0
    ensures QuadA(ray) == 1.0 && QuadB(sphere, ray) == 0.0 && QuadC(sphere, ray) == 99.0
  {
    UnitYDirection(ray);
    SidewaysLinearCoefficient(sphere, ray);
    SidewaysConstantCoefficient(sphere, ray);
  }

  lemma UnitYDirection(ray: Ray)
    requires ray.direction.x == 0.0 && ray.direction.y == 1.0 && ray.direction.z == 0.0
    ensures QuadA(ray) == 1.0
  {
  }

  lemma SidewaysLinearCoefficient(sphere: Sphere, ray: Ray)
    requires ray.origin.y == 0.0 && sphere.origin.y == 0.0
    requires ray.direction.x == 0.0 && ray.direction.z == 0.0
    ensures QuadB(sphere, ray) == 0.0
  {
    PerpendicularNoLinearTerm(sphere, ray);
  }

  lemma SidewaysConstantCoefficient(sphere: Sphere, ray: Ray)
    requires ray.origin.x == 0.0 && ray.origin.y == 0.0 && ray.origin.z == 0.0
    requires sphere.origin.x == 0.0 && sphere.origin.y == 0.0 && sphere.origin.z == 10.0
    requires sphere.radius == 1.0
    ensures QuadC(sphere, ray) == 99.0
  {
    var w := Sub(ray.origin, sphere.origin);
    assert w.x == 0.0 && w.y == 0.0 && w.z == -10.0;
  }

  /** A direction square to the offset from the centre has no linear term. */
  lemma PerpendicularNoLinearTerm(sphere: Sphere, ray: Ray)
    requires Dot(ray.direction, Sub(ray.origin, sphere.origin)) == 0.0
    ensures QuadB(sphere, ray) == 0.0
  {
    var d, w := ray.direction, Sub(ray.origin, sphere.origin);
    assert Dot(Scale(d, 2.0), w) == 2.0 * Dot(d, w);
  }

  /** A ray whose direction is square to the offset from the sphere's
      centre, starting outside the sphere, has no real root. */
  lemma NoLinearTermMisses(sphere: Sphere, ray: Ray)
    requires QuadA(ray) > 0.0 && QuadB(sphere, ray) == 0.0 && QuadC(sphere, ray) > 0.0
    ensures Discriminant(sphere, ray) < 0.0
  {
    NegativeDiscriminant(QuadA(ray), QuadB(sphere, ray), QuadC(sphere, ray), Discriminant(sphere, ray));
  }

  lemma NegativeDiscriminant(a: real, b: real, c: real, d: real)
    requires d == b * b - 4.0 * a * c
    requires a > 0.0 && b == 0.0 && c > 0.0
    ensures d < 0.0
  {
    var ac := a * c;
    PositiveProduct(a, c, ac);
  }

  /** The as-written test breaks the refinement discipline: a ray that hits
      nothing turns a recorded hit at t = 5 into a record that says "no hit"
      while still holding t = 5. */
  lemma SphereMissClearsPriorHit(lib: Numerics)
    ensures var hr := HitRecord(Vec3(0.0, 0.0, 5.0), Vec3(0.0, 0.0, -1.0), 5.0, true, 1);
            var r := HitTestSphere(FarSphere, SidewaysRay, hr, lib);
            !r.record.didHit && r.record.t == 5.0 && !Refines(SidewaysRay, hr, r.record)
  {
    SidewaysRayMissesFarSphere();
  }

  /** `HitTest_Sphere(sphere, ray)`: the any-hit overload, run against a
      default record. */
  function SphereDoesHit(sphere: Sphere, ray: Ray, lib: Numerics): (r: bool)
    ensures r <==> Discriminant(sphere, ray) > 0.0 && InInterval(ray, SphereT(sphere, ray, lib))
  {
    HitTestSphere(sphere, ray, DefaultHit, lib).hit
  }

  /** A root of the quadratic obtained from the quadratic formula solves it. */
  lemma QuadraticFormula(a: real, b: real, c: real, s: real, t: real)
    requires a != 0.0 && s * s == b * b - 4.0 * a * c
    requires t == (-b - s) / (2.0 * a) || t == (-b + s) / (2.0 * a)
    ensures a * t * t + b * t + c == 0.0
  {
    assert 2.0 * a * t + b == s || 2.0 * a * t + b == -s;
    assert (2.0 * a * t + b) * (2.0 * a * t + b) == s * s;
    assert 4.0 * a * (a * t * t + b * t + c) == 0.0;
  }

  lemma RootsOrdered(sphere: Sphere, ray: Ray, lib: Numerics)
    requires SqrtIsSound(lib) && Discriminant(sphere, ray) > 0.0
    ensures NearRoot(sphere, ray, lib) <= FarRoot(sphere, ray, lib)
  {
    PositiveDiscriminantHasDirection(sphere, ray);
    var s := lib.sqrt(Discriminant(sphere, ray));
    var a2 := 2.0 * QuadA(ray);
    var b := QuadB(sphere, ray);
    assert s >= 0.0;
    assert (-b - s) / a2 <= (-b + s) / a2;
  }

  lemma ChosenRootSolves(sphere: Sphere, ray: Ray, lib: Numerics)
    requires SqrtIsSound(lib) && Discriminant(sphere, ray) > 0.0
    ensures var t := SphereT(sphere, ray, lib);
            QuadA(ray) * t * t + QuadB(sphere, ray) * t + QuadC(sphere, ray) == 0.0
  {
    PositiveDiscriminantHasDirection(sphere, ray);
    var s := lib.sqrt(Discriminant(sphere, ray));
    QuadraticFormula(QuadA(ray), QuadB(sphere, ray), QuadC(sphere, ray), s, SphereT(sphere, ray, lib));
  }

  lemma SquaredDistanceAlongRay(sphere: Sphere, ray: Ray, t: real)
    ensures SqrMagnitude(Sub(PointAt(ray, t), sphere.origin))
            == QuadA(ray) * t * t + QuadB(sphere, ray) * t + QuadC(sphere, ray) + sphere.radius * sphere.radius
  {
    var d := ray.direction;
    var w := Sub(ray.origin, sphere.origin);
    assert Sub(PointAt(ray, t), sphere.origin) == Add(w, Scale(d, t));
  }

  /** Round trip: an accepted sphere hit lies on the sphere's surface. */
  lemma SphereHitOnSurface(sphere: Sphere, ray: Ray, hr: HitRecord, lib: Numerics)
    requires SqrtIsSound(lib)
    requires HitTestSphere(sphere, ray, hr, lib).hit
    ensures SqrMagnitude(Sub(PointAt(ray, SphereT(sphere, ray, lib)), sphere.origin)) == sphere.radius * sphere.radius
  {
    SphereHitOnSurfaceAt(sphere, ray, lib);
  }

  /** The chosen root of a sphere whose quadratic has two roots is a point
      of its surface. */
  lemma SphereHitOnSurfaceAt(sphere: Sphere, ray: Ray, lib: Numerics)
    requires SqrtIsSound(lib) && Discriminant(sphere, ray) > 0.0
    ensures SqrMagnitude(Sub(PointAt(ray, SphereT(sphere, ray, lib)), sphere.origin)) == sphere.radius * sphere.radius
  {
    ChosenRootSolves(sphere, ray, lib);
    RootOnSurface(sphere, ray, SphereT(sphere, ray, lib));
  }

  /** Every root of the sphere's quadratic is a point of its surface. */
  lemma RootOnSurface(sphere: Sphere, ray: Ray, t: real)
    requires QuadA(ray) * t * t + QuadB(sphere, ray) * t + QuadC(sphere, ray) == 0.0
    ensures SqrMagnitude(Sub(PointAt(ray, t), sphere.origin)) == sphere.radius * sphere.radius
  {
    SquaredDistanceAlongRay(sphere, ray, t);
  }

  /** A quadratic with positive leading coefficient has no solutions
      besides the two the formula gives. */
  lemma QuadraticHasTwoRoots(a: real, b: real, c: real, s: real, x: real)
    requires a > 0.0 && s * s == b * b - 4.0 * a * c
    requires a * x * x + b * x + c == 0.0
    ensures x == (-b - s) / (2.0 * a) || x == (-b + s) / (2.0 * a)
  {
    var y := 2.0 * a * x + b;
    assert y * y == 4.0 * a * (a * x * x + b * x + c) + b * b - 4.0 * a * c;
    assert (y - s) * (y + s) == 0.0;
    if y == s {
      assert x == (-b + s) / (2.0 * a);
    } else {
      assert y == -s;
      assert x == (-b - s) / (2.0 * a);
    }
  }

  /** Every solution of the sphere's quadratic is one of the two roots. */
  lemma OnlyTwoRoots(sphere: Sphere, ray: Ray, lib: Numerics, x: real)
    requires SqrtIsSound(lib) && Discriminant(sphere, ray) > 0.0
    requires QuadA(ray) * x * x + QuadB(sphere, ray) * x + QuadC(sphere, ray) == 0.0
    ensures x == NearRoot(sphere, ray, lib) || x == FarRoot(sphere, ray, lib)
  {
    PositiveDiscriminantHasDirection(sphere, ray);
    var s := lib.sqrt(Discriminant(sphere, ray));
    QuadraticHasTwoRoots(QuadA(ray), QuadB(sphere, ray), QuadC(sphere, ray), s, x);
  }

  /** An accepted sphere hit is the nearest point of the sphere beyond the
      ray's lower bound: no root of the quadratic lies strictly between. */
  lemma SphereHitIsNearest(sphere: Sphere, ray: Ray, hr: HitRecord, lib: Numerics, x: real)
    requires SqrtIsSound(lib)
    requires HitTestSphere(sphere, ray, hr, lib).hit
    requires QuadA(ray) * x * x + QuadB(sphere, ray) * x + QuadC(sphere, ray) == 0.0
    requires x > ray.min
    ensures SphereT(sphere, ray, lib) <= x
  {
    OnlyTwoRoots(sphere, ray, lib, x);
    RootsOrdered(sphere, ray, lib);
  }

  /** Completeness of the sphere test: a root of the quadratic inside the
      ray interval is reported, at that root or a nearer one, unless the
      near root sits exactly on `ray.min` (then the code keeps the near root
      and rejects it, without trying the far one). */
  lemma SphereReportsRootInInterval(sphere: Sphere, ray: Ray, lib: Numerics, x: real)
    requires SqrtIsSound(lib) && Discriminant(sphere, ray) > 0.0
    requires QuadA(ray) * x * x + QuadB(sphere, ray) * x + QuadC(sphere, ray) == 0.0
    requires InInterval(ray, x)
    requires NearRoot(sphere, ray, lib) != ray.min
    ensures SphereDoesHit(sphere, ray, lib) && SphereT(sphere, ray, lib) <= x
  {
    OnlyTwoRoots(sphere, ray, lib, x);
    RootsOrdered(sphere, ray, lib);
  }

  // ================================================================== plane

  function PlaneDenominator(plane: Plane, ray: Ray): real {
    Dot(ray.direction, plane.normal)
  }

  /** The ray parameter where the ray meets the plane; `None` for a ray
      parallel to the plane, whose float quotient is infinite or NaN and
      fails the interval test. */
  function PlaneT(plane: Plane, ray: Ray): Option<real> {
    var denominator := PlaneDenominator(plane, ray);
    if denominator == 0.0 then None
    else Some(Dot(Sub(plane.origin, ray.origin), plane.normal) / denominator)
  }

  /** `HitTest_Plane` with a hit record. */
  function HitTestPlane(plane: Plane, ray: Ray, hr: HitRecord): (r: HitResult)
    ensures r.hit <==> PlaneT(plane, ray).Some? && InInterval(ray, PlaneT(plane, ray).value)
    ensures Refines(ray, hr, r.record)
    ensures r.record != hr ==> PlaneT(plane, ray).Some? && r.record == Accept(ray, PlaneT(plane, ray).value, plane.normal, plane.materialIndex)
    ensures r.hit && PlaneT(plane, ray).value < hr.t ==> r.record.t == PlaneT(plane, ray).value
    ensures r.hit && !(PlaneT(plane, ray).value < hr.t) ==> r.record == hr
  {
    match PlaneT(plane, ray)
    case None => HitResult(false, hr)
    case Some(t) =>
      if ray.min < t && t < ray.max then
        if t < hr.t then HitResult(true, Accept(ray, t, plane.normal, plane.materialIndex))
        else HitResult(true, hr)
      else HitResult(false, hr)
  }

  /** `HitTest_Plane(plane, ray)`: the any-hit overload. */
  function PlaneDoesHit(plane: Plane, ray: Ray): (r: bool)
    ensures r <==> PlaneT(plane, ray).Some? && InInterval(ray, PlaneT(plane, ray).value)
  {
    HitTestPlane(plane, ray, DefaultHit).hit
  }

  /** Round trip: the point found lies on the plane. */
  lemma PlaneHitOnPlane(plane: Plane, ray: Ray)
    requires PlaneT(plane, ray).Some?
    ensures Dot(Sub(PointAt(ray, PlaneT(plane, ray).value), plane.origin), plane.normal) == 0.0
  {
    var t := PlaneT(plane, ray).value;
    var denominator := PlaneDenominator(plane, ray);
    var numerator := Dot(Sub(plane.origin, ray.origin), plane.normal);
    assert t * denominator == numerator;
    assert Dot(Sub(PointAt(ray, t), plane.origin), plane.normal)
        == t * denominator - numerator;
  }

  /** Completeness of the plane test: every point of the ray on the plane,
      for a ray not parallel to it, is the crossing the test computes, and
      it is reported whenever it lies inside the ray interval. */
  lemma PlaneCrossingIsReported(plane: Plane, ray: Ray, t: real)
    requires PlaneDenominator(plane, ray) != 0.0
    requires Dot(Sub(PointAt(ray, t), plane.origin), plane.normal) == 0.0
    ensures PlaneT(plane, ray) == Some(t)
    ensures InInterval(ray, t) ==> PlaneDoesHit(plane, ray)
  {
    var denominator := PlaneDenominator(plane, ray);
    var numerator := Dot(Sub(plane.origin, ray.origin), plane.normal);
    assert Dot(Sub(PointAt(ray, t), plane.origin), plane.normal) == t * denominator - numerator;
    assert numerator / denominator == t;
  }

  // =============================================================== triangle

  /** `dotEdge1H`, the Möller–Trumbore determinant of the triangle with
      corners `v0, v1, v2`; its sign tells which face the ray sees. */
  function Determinant(v0: Vec3, v1: Vec3, v2: Vec3, ray: Ray): real {
    Dot(Sub(v1, v0), Cross(ray.direction, Sub(v2, v0)))
  }

  datatype Solution = Solution(u: real, v: real, t: real)

  /** Barycentric coordinates `u, v` and ray parameter `t` by Cramer's rule. */
  function Solve(v0: Vec3, v1: Vec3, v2: Vec3, ray: Ray): Solution
    requires Determinant(v0, v1, v2, ray) != 0.0
  {
    var f := 1.0 / Determinant(v0, v1, v2, ray);
    var s := Sub(ray.origin, v0);
    var q := Cross(s, Sub(v1, v0));
    Solution(f * Dot(s, Cross(ray.direction, Sub(v2, v0))), f * Dot(ray.direction, q), f * Dot(Sub(v2, v0), q))
  }

  /** The cull-mode switch: whether the mode rejects a determinant of this sign. */
  predicate CullRejects(mode: CullMode, det: real) {
    match mode
    case FrontFaceCulling => det < 0.0
    case BackFaceCulling => det > 0.0
    case NoCulling => false
  }

  predicate InsideTriangle(s: Solution) {
    0.0 <= s.u <= 1.0 && 0.0 <= s.v && s.u + s.v <= 1.0
  }

  /** The gates after the cull switch: a zero determinant (whose float
      reciprocal is infinite) rejects, then the barycentric bounds, then the
      open ray interval. */
  function UnculledCandidate(v0: Vec3, v1: Vec3, v2: Vec3, ray: Ray): Option<real> {
    if Determinant(v0, v1, v2, ray) == 0.0 then None
    else
      var sol := Solve(v0, v1, v2, ray);
      if sol.u < 0.0 || sol.u > 1.0 then None
      else if sol.v < 0.0 || sol.u + sol.v > 1.0 then None
      else if sol.t <= ray.min || sol.t >= ray.max then None
      else Some(sol.t)
  }

  /** The `t` of a triangle hit that passes every gate of the test, before
      the comparison against the record. */
  function TriangleCandidate(tri: Triangle, ray: Ray): (r: Option<real>)
    ensures r.Some? ==> InInterval(ray, r.value)
  {
    if CullRejects(tri.cullMode, Determinant(tri.v0, tri.v1, tri.v2, ray)) then None
    else UnculledCandidate(tri.v0, tri.v1, tri.v2, ray)
  }

  /** `HitTest_Triangle` with a hit record. Unlike the sphere and the plane,
      a hit that is not closer than the record returns false. */
  function HitTestTriangle(tri: Triangle, ray: Ray, hr: HitRecord): (r: HitResult)
    ensures r.hit <==> TriangleCandidate(tri, ray).Some? && TriangleCandidate(tri, ray).value < hr.t
    ensures r.hit ==> r.record == Accept(ray, TriangleCandidate(tri, ray).value, tri.normal, tri.materialIndex)
    ensures !r.hit ==> r.record == hr
    ensures Refines(ray, hr, r.record)
  {
    match TriangleCandidate(tri, ray)
    case None => HitResult(false, hr)
    case Some(t) =>
      if t < hr.t then HitResult(true, Accept(ray, t, tri.normal, tri.materialIndex))
      else HitResult(false, hr)
  }

  /** `HitTest_Triangle(triangle, ray)`: the any-hit overload; the default
      record makes it compare against FLT_MAX. */
  function TriangleDoesHit(tri: Triangle, ray: Ray): (r: bool)
    ensures r <==> TriangleCandidate(tri, ray).Some? && TriangleCandidate(tri, ray).value < FarT
    ensures ray.max <= FarT ==> (r <==> TriangleCandidate(tri, ray).Some?)
  {
    HitTestTriangle(tri, ray, DefaultHit).hit
  }

  /** The gates an accepted triangle hit has passed. */
  lemma TriangleGates(tri: Triangle, ray: Ray)
    requires TriangleCandidate(tri, ray).Some?
    ensures var det := Determinant(tri.v0, tri.v1, tri.v2, ray);
            det != 0.0
            && (tri.cullMode == FrontFaceCulling ==> det > 0.0)
            && (tri.cullMode == BackFaceCulling ==> det < 0.0)
            && InsideTriangle(Solve(tri.v0, tri.v1, tri.v2, ray))
            && TriangleCandidate(tri, ray).value == Solve(tri.v0, tri.v1, tri.v2, ray).t
  {
  }

  /** Without culling a triangle accepts exactly what front-face culling
      accepts for a positive determinant and back-face culling for a
      negative one. */
  lemma NoCullingIsUnionOfCullModes(tri: Triangle, ray: Ray)
    ensures var det := Determinant(tri.v0, tri.v1, tri.v2, ray);
            TriangleCandidate(tri.(cullMode := NoCulling), ray)
            == if det >= 0.0 then TriangleCandidate(tri.(cullMode := FrontFaceCulling), ray)
               else TriangleCandidate(tri.(cullMode := BackFaceCulling), ray)
  {
  }

  /** One coordinate of Cramer's rule for `s = u·e1 + v·e2 - t·d`, scaled by
      the determinant, over plain scalars. */
  lemma CramerCoordinate(dx: real, dy: real, dz: real, ax: real, ay: real, az: real,
                         cx: real, cy: real, cz: real, sx: real, sy: real, sz: real)
    ensures
      var det := ax * (dy * cz - dz * cy) + ay * (dz * cx - dx * cz) + az * (dx * cy - dy * cx);
      var qx := sy * az - sz * ay;
      var qy := sz * ax - sx * az;
      var qz := sx * ay - sy * ax;
      var u := sx * (dy * cz - dz * cy) + sy * (dz * cx - dx * cz) + sz * (dx * cy - dy * cx);
      var v := dx * qx + dy * qy + dz * qz;
      var t := cx * qx + cy * qy + cz * qz;
      sx * det == ax * u + cx * v - dx * t
  {
  }

  /** Cramer's rule for `s = u·e1 + v·e2 - t·d`, each coordinate scaled by
      the determinant; one lemma per coordinate. */
  lemma CramerX(d: Vec3, e1: Vec3, e2: Vec3, s: Vec3, det: real, u: real, v: real, t: real)
    requires det == Dot(e1, Cross(d, e2))
    requires u == Dot(s, Cross(d, e2))
    requires v == Dot(d, Cross(s, e1)) && t == Dot(e2, Cross(s, e1))
    ensures s.x * det == e1.x * u + e2.x * v - d.x * t
  {
    CramerCoordinate(d.x, d.y, d.z, e1.x, e1.y, e1.z, e2.x, e2.y, e2.z, s.x, s.y, s.z);
  }

  lemma CramerY(d: Vec3, e1: Vec3, e2: Vec3, s: Vec3, det: real, u: real, v: real, t: real)
    requires det == Dot(e1, Cross(d, e2))
    requires u == Dot(s, Cross(d, e2))
    requires v == Dot(d, Cross(s, e1)) && t == Dot(e2, Cross(s, e1))
    ensures s.y * det == e1.y * u + e2.y * v - d.y * t
  {
    CramerCoordinate(d.y, d.z, d.x, e1.y, e1.z, e1.x, e2.y, e2.z, e2.x, s.y, s.z, s.x);
  }

  lemma CramerZ(d: Vec3, e1: Vec3, e2: Vec3, s: Vec3, det: real, u: real, v: real, t: real)
    requires det == Dot(e1, Cross(d, e2))
    requires u == Dot(s, Cross(d, e2))
    requires v == Dot(d, Cross(s, e1)) && t == Dot(e2, Cross(s, e1))
    ensures s.z * det == e1.z * u + e2.z * v - d.z * t
  {
    CramerCoordinate(d.z, d.x, d.y, e1.z, e1.x, e1.y, e2.z, e2.x, e2.y, s.z, s.x, s.y);
  }

  /** Dividing one scaled coordinate of Cramer's rule by the determinant:
      `o - p = s` with `s · det = a u + c v - d t` gives
      `o + d (t / det) = p + a (u / det) + c (v / det)`. */
  lemma DivideByDeterminant(o: real, p: real, s: real, a: real, c: real, d: real, det: real, u: real, v: real, t: real,
                            fu: real, fv: real, ft: real)
    requires det != 0.0 && s == o - p
    requires s * det == a * u + c * v - d * t
    requires fu == (1.0 / det) * u && fv == (1.0 / det) * v && ft == (1.0 / det) * t
    ensures o + d * ft == p + a * fu + c * fv
  {
    var f := 1.0 / det;
    assert s * det * f == (a * u + c * v - d * t) * f;
    assert det * f == 1.0;
  }

  /** A point of the ray equals a point of the triangle's plane when it does
      so in every coordinate. */
  lemma MeetingPoint(ray: Ray, v0: Vec3, v1: Vec3, v2: Vec3, t: real, u: real, v: real)
    requires ray.origin.x + ray.direction.x * t == v0.x + (v1.x - v0.x) * u + (v2.x - v0.x) * v
    requires ray.origin.y + ray.direction.y * t == v0.y + (v1.y - v0.y) * u + (v2.y - v0.y) * v
    requires ray.origin.z + ray.direction.z * t == v0.z + (v1.z - v0.z) * u + (v2.z - v0.z) * v
    ensures PointAt(ray, t) == Add(v0, Add(Scale(Sub(v1, v0), u), Scale(Sub(v2, v0), v)))
  {
    var p, q := PointAt(ray, t), Add(v0, Add(Scale(Sub(v1, v0), u), Scale(Sub(v2, v0), v)));
    assert p.x == q.x && p.y == q.y && p.z == q.z;
    assert p == Vec3(p.x, p.y, p.z) && q == Vec3(q.x, q.y, q.z);
  }

  /** `Solve` spelled out over the determinant and the three scaled
      coordinates. */
  lemma SolveByCramer(v0: Vec3, v1: Vec3, v2: Vec3, ray: Ray, det: real, u: real, v: real, t: real)
    requires det == Determinant(v0, v1, v2, ray) && det != 0.0
    requires u == Dot(Sub(ray.origin, v0), Cross(ray.direction, Sub(v2, v0)))
    requires v == Dot(ray.direction, Cross(Sub(ray.origin, v0), Sub(v1, v0)))
    requires t == Dot(Sub(v2, v0), Cross(Sub(ray.origin, v0), Sub(v1, v0)))
    ensures Solve(v0, v1, v2, ray) == Solution((1.0 / det) * u, (1.0 / det) * v, (1.0 / det) * t)
  {
  }

  /** The determinant and the three scaled coordinates of Cramer's rule for
      a triangle and a ray, with the equations they satisfy. */
  lemma CramerTerms(v0: Vec3, v1: Vec3, v2: Vec3, ray: Ray) returns (det: real, u: real, v: real, t: real)
    requires Determinant(v0, v1, v2, ray) != 0.0
    ensures det != 0.0
    ensures Solve(v0, v1, v2, ray) == Solution((1.0 / det) * u, (1.0 / det) * v, (1.0 / det) * t)
    ensures Sub(ray.origin, v0).x * det == Sub(v1, v0).x * u + Sub(v2, v0).x * v - ray.direction.x * t
    ensures Sub(ray.origin, v0).y * det == Sub(v1, v0).y * u + Sub(v2, v0).y * v - ray.direction.y * t
    ensures Sub(ray.origin, v0).z * det == Sub(v1, v0).z * u + Sub(v2, v0).z * v - ray.direction.z * t
  {
    det := Determinant(v0, v1, v2, ray);
    var d, e1, e2, s := ray.direction, Sub(v1, v0), Sub(v2, v0), Sub(ray.origin, v0);
    u := Dot(s, Cross(d, e2));
    v := Dot(d, Cross(s, e1));
    t := Dot(e2, Cross(s, e1));
    SolveByCramer(v0, v1, v2, ray, det, u, v, t);
    CramerX(d, e1, e2, s, det, u, v, t);
    CramerY(d, e1, e2, s, det, u, v, t);
    CramerZ(d, e1, e2, s, det, u, v, t);
  }

  /** Cramer's equations divided through by the determinant: the ray point
      at `t / det` is the plane point at `u / det, v / det` along the two
      edges. */
  lemma ReadBack(v0: Vec3, v1: Vec3, v2: Vec3, ray: Ray, det: real, u: real, v: real, t: real,
                 fu: real, fv: real, ft: real)
    requires det != 0.0
    requires Sub(ray.origin, v0).x * det == Sub(v1, v0).x * u + Sub(v2, v0).x * v - ray.direction.x * t
    requires Sub(ray.origin, v0).y * det == Sub(v1, v0).y * u + Sub(v2, v0).y * v - ray.direction.y * t
    requires Sub(ray.origin, v0).z * det == Sub(v1, v0).z * u + Sub(v2, v0).z * v - ray.direction.z * t
    requires fu == (1.0 / det) * u && fv == (1.0 / det) * v && ft == (1.0 / det) * t
    ensures PointAt(ray, ft) == Add(v0, Add(Scale(Sub(v1, v0), fu), Scale(Sub(v2, v0), fv)))
  {
    var d, o := ray.direction, ray.origin;
    DivideByDeterminant(o.x, v0.x, o.x - v0.x, v1.x - v0.x, v2.x - v0.x, d.x, det, u, v, t, fu, fv, ft);
    DivideByDeterminant(o.y, v0.y, o.y - v0.y, v1.y - v0.y, v2.y - v0.y, d.y, det, u, v, t, fu, fv, ft);
    DivideByDeterminant(o.z, v0.z, o.z - v0.z, v1.z - v0.z, v2.z - v0.z, d.z, det, u, v, t, fu, fv, ft);
    MeetingPoint(ray, v0, v1, v2, ft, fu, fv);
  }

  /** The solution of Cramer's rule, read back: the ray point at `t` is the
      plane point with coordinates `u, v` along the two edges. */
  lemma SolutionOnTriangle(v0: Vec3, v1: Vec3, v2: Vec3, ray: Ray)
    requires Determinant(v0, v1, v2, ray) != 0.0
    ensures var sol := Solve(v0, v1, v2, ray);
            PointAt(ray, sol.t) == Add(v0, Add(Scale(Sub(v1, v0), sol.u), Scale(Sub(v2, v0), sol.v)))
  {
    var det, u, v, t := CramerTerms(v0, v1, v2, ray);
    ReadBack(v0, v1, v2, ray, det, u, v, t, (1.0 / det) * u, (1.0 / det) * v, (1.0 / det) * t);
  }

  /** Round trip: an accepted triangle hit is the point of the triangle with
      barycentric weights (1-u-v, u, v), all of them non-negative. */
  lemma TriangleHitInsideTriangle(tri: Triangle, ray: Ray)
    requires TriangleCandidate(tri, ray).Some?
    ensures var sol := Solve(tri.v0, tri.v1, tri.v2, ray);
            0.0 <= sol.u && 0.0 <= sol.v && 0.0 <= 1.0 - sol.u - sol.v
            && PointAt(ray, TriangleCandidate(tri, ray).value)
               == Add(tri.v0, Add(Scale(Sub(tri.v1, tri.v0), sol.u), Scale(Sub(tri.v2, tri.v0), sol.v)))
  {
    TriangleGates(tri, ray);
    SolutionOnTriangle(tri.v0, tri.v1, tri.v2, ray);
  }

  /** Cramer's rule run backwards, one scaled coordinate at a time: when
      `s = u·e1 + v·e2 - t·d`, the scaled coordinate `s·(d × e2)` is `u`
      times the determinant. */
  lemma InverseU(dx: real, dy: real, dz: real, ax: real, ay: real, az: real,
                 cx: real, cy: real, cz: real, sx: real, sy: real, sz: real, u: real, v: real, t: real)
    requires sx == ax * u + cx * v - dx * t
    requires sy == ay * u + cy * v - dy * t
    requires sz == az * u + cz * v - dz * t
    ensures sx * (dy * cz - dz * cy) + sy * (dz * cx - dx * cz) + sz * (dx * cy - dy * cx)
            == u * (ax * (dy * cz - dz * cy) + ay * (dz * cx - dx * cz) + az * (dx * cy - dy * cx))
  {
  }

  /** The same for `d·(s × e1)`, which is `v` times the determinant. */
  lemma InverseV(dx: real, dy: real, dz: real, ax: real, ay: real, az: real,
                 cx: real, cy: real, cz: real, sx: real, sy: real, sz: real, u: real, v: real, t: real)
    requires sx == ax * u + cx * v - dx * t
    requires sy == ay * u + cy * v - dy * t
    requires sz == az * u + cz * v - dz * t
    ensures dx * (sy * az - sz * ay) + dy * (sz * ax - sx * az) + dz * (sx * ay - sy * ax)
            == v * (ax * (dy * cz - dz * cy) + ay * (dz * cx - dx * cz) + az * (dx * cy - dy * cx))
  {
  }

  /** The same for `e2·(s × e1)`, which is `t` times the determinant. */
  lemma InverseT(dx: real, dy: real, dz: real, ax: real, ay: real, az: real,
                 cx: real, cy: real, cz: real, sx: real, sy: real, sz: real, u: real, v: real, t: real)
    requires sx == ax * u + cx * v - dx * t
    requires sy == ay * u + cy * v - dy * t
    requires sz == az * u + cz * v - dz * t
    ensures cx * (sy * az - sz * ay) + cy * (sz * ax - sx * az) + cz * (sx * ay - sy * ax)
            == t * (ax * (dy * cz - dz * cy) + ay * (dz * cx - dx * cz) + az * (dx * cy - dy * cx))
  {
  }

  /** A multiple of a non-zero determinant, divided by it. */
  lemma DivideOut(det: real, x: real, scaled: real)
    requires det != 0.0 && scaled == x * det
    ensures (1.0 / det) * scaled == x
  {
    var f := 1.0 / det;
    assert f * scaled == x * (f * det);
  }

  /** A meeting point of the ray and the triangle's plane, in coordinates:
      the offset `s = origin - v0` is `u·e1 + v·e2 - t·d`. */
  lemma OffsetCoordinates(v0: Vec3, v1: Vec3, v2: Vec3, ray: Ray, u: real, v: real, t: real)
    requires PointAt(ray, t) == Add(v0, Add(Scale(Sub(v1, v0), u), Scale(Sub(v2, v0), v)))
    ensures Sub(ray.origin, v0).x == Sub(v1, v0).x * u + Sub(v2, v0).x * v - ray.direction.x * t
    ensures Sub(ray.origin, v0).y == Sub(v1, v0).y * u + Sub(v2, v0).y * v - ray.direction.y * t
    ensures Sub(ray.origin, v0).z == Sub(v1, v0).z * u + Sub(v2, v0).z * v - ray.direction.z * t
  {
    assert PointAt(ray, t).x == ray.origin.x + ray.direction.x * t;
    assert PointAt(ray, t).y == ray.origin.y + ray.direction.y * t;
    assert PointAt(ray, t).z == ray.origin.z + ray.direction.z * t;
  }

  /** Uniqueness, the converse of `SolutionOnTriangle`: for a non-zero
      determinant, any `u, v, t` at which the ray point equals the plane
      point `v0 + u·e1 + v·e2` are exactly what Cramer's rule computes. */
  lemma CrossingSolves(v0: Vec3, v1: Vec3, v2: Vec3, ray: Ray, u: real, v: real, t: real)
    requires Determinant(v0, v1, v2, ray) != 0.0
    requires PointAt(ray, t) == Add(v0, Add(Scale(Sub(v1, v0), u), Scale(Sub(v2, v0), v)))
    ensures Solve(v0, v1, v2, ray) == Solution(u, v, t)
  {
    OffsetCoordinates(v0, v1, v2, ray, u, v, t);
    ScaledFromOffset(v0, v1, v2, ray, u, v, t);
    SolveScaled(v0, v1, v2, ray, u, v, t);
  }

  /** Cramer's three scaled coordinates of an offset `u·e1 + v·e2 - t·d`. */
  lemma ScaledFromOffset(v0: Vec3, v1: Vec3, v2: Vec3, ray: Ray, u: real, v: real, t: real)
    requires Sub(ray.origin, v0).x == Sub(v1, v0).x * u + Sub(v2, v0).x * v - ray.direction.x * t
    requires Sub(ray.origin, v0).y == Sub(v1, v0).y * u + Sub(v2, v0).y * v - ray.direction.y * t
    requires Sub(ray.origin, v0).z == Sub(v1, v0).z * u + Sub(v2, v0).z * v - ray.direction.z * t
    ensures Dot(Sub(ray.origin, v0), Cross(ray.direction, Sub(v2, v0))) == u * Determinant(v0, v1, v2, ray)
    ensures Dot(ray.direction, Cross(Sub(ray.origin, v0), Sub(v1, v0))) == v * Determinant(v0, v1, v2, ray)
    ensures Dot(Sub(v2, v0), Cross(Sub(ray.origin, v0), Sub(v1, v0))) == t * Determinant(v0, v1, v2, ray)
  {
    var d, e1, e2, s := ray.direction, Sub(v1, v0), Sub(v2, v0), Sub(ray.origin, v0);
    ScaledU(d, e1, e2, s, u, v, t);
    ScaledV(d, e1, e2, s, u, v, t);
    ScaledT(d, e1, e2, s, u, v, t);
  }

  /** Cramer's scaled coordinates that are `u, v, t` times the determinant
      give the solution `u, v, t`. */
  lemma SolveScaled(v0: Vec3, v1: Vec3, v2: Vec3, ray: Ray, u: real, v: real, t: real)
    requires Determinant(v0, v1, v2, ray) != 0.0
    requires Dot(Sub(ray.origin, v0), Cross(ray.direction, Sub(v2, v0))) == u * Determinant(v0, v1, v2, ray)
    requires Dot(ray.direction, Cross(Sub(ray.origin, v0), Sub(v1, v0))) == v * Determinant(v0, v1, v2, ray)
    requires Dot(Sub(v2, v0), Cross(Sub(ray.origin, v0), Sub(v1, v0))) == t * Determinant(v0, v1, v2, ray)
    ensures Solve(v0, v1, v2, ray) == Solution(u, v, t)
  {
    var d, e1, e2, s := ray.direction, Sub(v1, v0), Sub(v2, v0), Sub(ray.origin, v0);
    var det := Determinant(v0, v1, v2, ray);
    var su, sv, st := Dot(s, Cross(d, e2)), Dot(d, Cross(s, e1)), Dot(e2, Cross(s, e1));
    SolveByCramer(v0, v1, v2, ray, det, su, sv, st);
    DivideOut(det, u, su);
    DivideOut(det, v, sv);
    DivideOut(det, t, st);
  }

  /** `InverseU` over vectors. */
  lemma ScaledU(d: Vec3, e1: Vec3, e2: Vec3, s: Vec3, u: real, v: real, t: real)
    requires s.x == e1.x * u + e2.x * v - d.x * t
    requires s.y == e1.y * u + e2.y * v - d.y * t
    requires s.z == e1.z * u + e2.z * v - d.z * t
    ensures Dot(s, Cross(d, e2)) == u * Dot(e1, Cross(d, e2))
  {
    InverseU(d.x, d.y, d.z, e1.x, e1.y, e1.z, e2.x, e2.y, e2.z, s.x, s.y, s.z, u, v, t);
  }

  /** `InverseV` over vectors. */
  lemma ScaledV(d: Vec3, e1: Vec3, e2: Vec3, s: Vec3, u: real, v: real, t: real)
    requires s.x == e1.x * u + e2.x * v - d.x * t
    requires s.y == e1.y * u + e2.y * v - d.y * t
    requires s.z == e1.z * u + e2.z * v - d.z * t
    ensures Dot(d, Cross(s, e1)) == v * Dot(e1, Cross(d, e2))
  {
    InverseV(d.x, d.y, d.z, e1.x, e1.y, e1.z, e2.x, e2.y, e2.z, s.x, s.y, s.z, u, v, t);
  }

  /** `InverseT` over vectors. */
  lemma ScaledT(d: Vec3, e1: Vec3, e2: Vec3, s: Vec3, u: real, v: real, t: real)
    requires s.x == e1.x * u + e2.x * v - d.x * t
    requires s.y == e1.y * u + e2.y * v - d.y * t
    requires s.z == e1.z * u + e2.z * v - d.z * t
    ensures Dot(e2, Cross(s, e1)) == t * Dot(e1, Cross(d, e2))
  {
    InverseT(d.x, d.y, d.z, e1.x, e1.y, e1.z, e2.x, e2.y, e2.z, s.x, s.y, s.z, u, v, t);
  }

  /** Completeness of the triangle test: a ray that the cull mode admits and
      that meets the triangle (barycentric weights `1-u-v, u, v` all
      non-negative) inside its interval is reported at that `t`. */
  lemma TriangleAcceptsEveryInteriorCrossing(tri: Triangle, ray: Ray, u: real, v: real, t: real)
    requires Determinant(tri.v0, tri.v1, tri.v2, ray) != 0.0
    requires !CullRejects(tri.cullMode, Determinant(tri.v0, tri.v1, tri.v2, ray))
    requires 0.0 <= u && 0.0 <= v && u + v <= 1.0 && InInterval(ray, t)
    requires PointAt(ray, t) == Add(tri.v0, Add(Scale(Sub(tri.v1, tri.v0), u), Scale(Sub(tri.v2, tri.v0), v)))
    ensures TriangleCandidate(tri, ray) == Some(t)
    ensures Solve(tri.v0, tri.v1, tri.v2, ray) == Solution(u, v, t)
  {
    CrossingSolves(tri.v0, tri.v1, tri.v2, ray, u, v, t);
  }

  /** The centroid of a triangle. */
  function Centroid(tri: Triangle): Vec3 {
    Scale(Add(Add(tri.v0, tri.v1), tri.v2), 1.0 / 3.0)
  }

  /** The centroid is the plane point with `u = v = 1/3`. */
  lemma CentroidIsBarycentric(tri: Triangle)
    ensures Centroid(tri) == Add(tri.v0, Add(Scale(Sub(tri.v1, tri.v0), 1.0 / 3.0), Scale(Sub(tri.v2, tri.v0), 1.0 / 3.0)))
  {
  }

  /** One coordinate of `e1·((e1 × e2) × e2) = -|e1 × e2|²`. */
  lemma NormalDeterminantCoordinates(ax: real, ay: real, az: real, cx: real, cy: real, cz: real,
                                     dx: real, dy: real, dz: real)
    requires dx == ay * cz - az * cy && dy == az * cx - ax * cz && dz == ax * cy - ay * cx
    ensures ax * (dy * cz - dz * cy) + ay * (dz * cx - dx * cz) + az * (dx * cy - dy * cx)
            == -(dx * dx + dy * dy + dz * dz)
  {
  }

  /** A ray along the normal `e1 × e2` of a non-degenerate triangle sees a
      negative determinant: its back face. */
  lemma NormalRayDeterminant(v0: Vec3, v1: Vec3, v2: Vec3, ray: Ray)
    requires ray.direction == Cross(Sub(v1, v0), Sub(v2, v0)) && ray.direction != Zero
    ensures Determinant(v0, v1, v2, ray) < 0.0
  {
    var e1, e2, d := Sub(v1, v0), Sub(v2, v0), ray.direction;
    NormalDeterminant(e1, e2, d);
    SelfDotSign(d);
  }

  lemma NormalDeterminant(e1: Vec3, e2: Vec3, d: Vec3)
    requires d == Cross(e1, e2)
    ensures Dot(e1, Cross(d, e2)) == -Dot(d, d)
  {
    NormalDeterminantCoordinates(e1.x, e1.y, e1.z, e2.x, e2.y, e2.z, d.x, d.y, d.z);
  }

  /** A ray through the centroid along the normal of a non-degenerate
      triangle hits it unless front faces are culled, with `u = v = 1/3`:
      both positive, and `u + v < 1`. */
  lemma CentroidRayHits(tri: Triangle, ray: Ray, t: real)
    requires ray.direction == Cross(Sub(tri.v1, tri.v0), Sub(tri.v2, tri.v0)) && ray.direction != Zero
    requires tri.cullMode != FrontFaceCulling
    requires InInterval(ray, t) && PointAt(ray, t) == Centroid(tri)
    ensures TriangleCandidate(tri, ray) == Some(t)
    ensures var sol := Solve(tri.v0, tri.v1, tri.v2, ray);
            0.0 < sol.u && 0.0 < sol.v && sol.u + sol.v < 1.0
  {
    NormalRayDeterminant(tri.v0, tri.v1, tri.v2, ray);
    CentroidIsBarycentric(tri);
    TriangleAcceptsEveryInteriorCrossing(tri, ray, 1.0 / 3.0, 1.0 / 3.0, t);
  }

  /** The triangle with its winding reversed. */
  function Flip(tri: Triangle): Triangle {
    tri.(v1 := tri.v2, v2 := tri.v1)
  }

  function Opposite(mode: CullMode): CullMode {
    match mode
    case NoCulling => NoCulling
    case FrontFaceCulling => BackFaceCulling
    case BackFaceCulling => FrontFaceCulling
  }

  /** Swapping the first two factors of a scalar triple product negates it. */
  lemma TripleProductSwap(a: Vec3, b: Vec3, c: Vec3)
    ensures Dot(a, Cross(b, c)) == -Dot(b, Cross(a, c))
  {
  }

  /** Exchanging the outer factors of a scalar triple product negates it. */
  lemma TripleProductReverse(a: Vec3, b: Vec3, c: Vec3)
    ensures Dot(a, Cross(b, c)) == -Dot(c, Cross(b, a))
  {
  }

  lemma FlipNegatesDeterminant(v0: Vec3, v1: Vec3, v2: Vec3, ray: Ray)
    ensures Determinant(v0, v2, v1, ray) == -Determinant(v0, v1, v2, ray)
  {
    TripleProductSwap(Sub(v2, v0), ray.direction, Sub(v1, v0));
    TripleProductSwap(ray.direction, Sub(v1, v0), Sub(v2, v0));
  }

  lemma FlipSwapsBarycentrics(v0: Vec3, v1: Vec3, v2: Vec3, ray: Ray)
    requires Determinant(v0, v1, v2, ray) != 0.0
    ensures Determinant(v0, v2, v1, ray) != 0.0
            && Solve(v0, v2, v1, ray) == Solution(Solve(v0, v1, v2, ray).v, Solve(v0, v1, v2, ray).u, Solve(v0, v1, v2, ray).t)
  {
    FlipNegatesDeterminant(v0, v1, v2, ray);
    var d, s, e1, e2 := ray.direction, Sub(ray.origin, v0), Sub(v1, v0), Sub(v2, v0);
    var det := Determinant(v0, v1, v2, ray);
    var u, v, t := Dot(s, Cross(d, e2)), Dot(d, Cross(s, e1)), Dot(e2, Cross(s, e1));
    var u', v', t' := Dot(s, Cross(d, e1)), Dot(d, Cross(s, e2)), Dot(e1, Cross(s, e2));
    SolveByCramer(v0, v1, v2, ray, det, u, v, t);
    SolveByCramer(v0, v2, v1, ray, -det, u', v', t');
    TripleProductSwap(s, d, e1);
    TripleProductSwap(d, s, e2);
    TripleProductReverse(e1, s, e2);
    NegatedQuotient(det, v);
    NegatedQuotient(det, u);
    NegatedQuotient(det, t);
  }

  /** Negating both the determinant and a scaled coordinate leaves their
      quotient unchanged. */
  lemma NegatedQuotient(det: real, x: real)
    requires det != 0.0
    ensures (1.0 / -det) * -x == (1.0 / det) * x
  {
  }

  lemma FlipPreservesUnculledCandidate(v0: Vec3, v1: Vec3, v2: Vec3, ray: Ray)
    ensures UnculledCandidate(v0, v2, v1, ray) == UnculledCandidate(v0, v1, v2, ray)
  {
    FlipNegatesDeterminant(v0, v1, v2, ray);
    if Determinant(v0, v1, v2, ray) != 0.0 {
      FlipSwapsBarycentrics(v0, v1, v2, ray);
    }
  }

  /** Reversing the winding and the cull mode together changes nothing: the
      same ray hits at the same `t`. So a triangle seen from its front is
      rejected under front-face culling once its winding is flipped. */
  lemma FlipWithOppositeCullMode(tri: Triangle, ray: Ray)
    ensures TriangleCandidate(Flip(tri).(cullMode := Opposite(tri.cullMode)), ray) == TriangleCandidate(tri, ray)
  {
    FlipNegatesDeterminant(tri.v0, tri.v1, tri.v2, ray);
    FlipPreservesUnculledCandidate(tri.v0, tri.v1, tri.v2, ray);
  }
}
