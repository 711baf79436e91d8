/** Value types shared by the intersection, reflectance and render modules:
    vectors, colours, rays, hit records, the primitives, and the foreign
    numeric routines the tracer calls but does not define.

    Every float of the tracer is modelled as a `real`; rounding, NaN and the
    infinities are not part of the model. */
module Geometry {
  import opened Arith

  datatype Option<+T> = None | Some(value: T)

  // ---------------------------------------------------------------- vectors

  datatype Vec3 = Vec3(x: real, y: real, z: real)

  const Zero := Vec3(0.0, 0.0, 0.0)

  function Add(a: Vec3, b: Vec3): Vec3 {
    Vec3(a.x + b.x, a.y + b.y, a.z + b.z)
  }

  function Sub(a: Vec3, b: Vec3): Vec3 {
    Vec3(a.x - b.x, a.y - b.y, a.z - b.z)
  }

  lemma SubVanishesOnlyOnEqual(a: Vec3, b: Vec3)
    ensures Sub(a, b) == Zero <==> a == b
  {
    assert a == Vec3(a.x, a.y, a.z) && b == Vec3(b.x, b.y, b.z);
  }

  function Scale(a: Vec3, s: real): Vec3 {
    Vec3(a.x * s, a.y * s, a.z * s)
  }

  function Dot(a: Vec3, b: Vec3): real {
    a.x * b.x + a.y * b.y + a.z * b.z
  }

  function Cross(a: Vec3, b: Vec3): Vec3 {
    Vec3(a.y * b.z - a.z * b.y, a.z * b.x - a.x * b.z, a.x * b.y - a.y * b.x)
  }

  function SqrMagnitude(a: Vec3): real {
    Dot(a, a)
  }

  /** `v·v` is never negative and vanishes only for the zero vector. */
  lemma SelfDotSign(v: Vec3)
    ensures Dot(v, v) >= 0.0
    ensures v != Zero ==> Dot(v, v) > 0.0
  {
    assert v == Vec3(v.x, v.y, v.z);
    var sx, sy, sz := v.x * v.x, v.y * v.y, v.z * v.z;
    assert Dot(v, v) == sx + sy + sz;
    SquareSign(v.x, sx);
    SquareSign(v.y, sy);
    SquareSign(v.z, sz);
  }

  // ----------------------------------------------------------------- colours

  datatype Color = Color(r: real, g: real, b: real)

  const Black := Color(0.0, 0.0, 0.0)
  const White := Color(1.0, 1.0, 1.0)

  /** `ColorRGB{ v }`: all three channels set to one value. */
  function Gray(v: real): Color {
    Color(v, v, v)
  }

  function ScaleColor(c: Color, s: real): Color {
    Color(c.r * s, c.g * s, c.b * s)
  }

  function MulColor(a: Color, b: Color): Color {
    Color(a.r * b.r, a.g * b.g, a.b * b.b)
  }

  function AddColor(a: Color, b: Color): Color {
    Color(a.r + b.r, a.g + b.g, a.b + b.b)
  }

  predicate NonNegative(c: Color) {
    0.0 <= c.r && 0.0 <= c.g && 0.0 <= c.b
  }

  predicate InUnitRange(c: Color) {
    0.0 <= c.r <= 1.0 && 0.0 <= c.g <= 1.0 && 0.0 <= c.b <= 1.0
  }

  // --------------------------------------------------- rays and hit records

  /** The defaults of a freshly constructed ray and hit record: the lower ray
      bound is the float literal 0.0001, the upper ray bound and the initial
      hit distance are FLT_MAX. */
  const DefaultRayMin: real := 0.0001
  const FarT: real := 340282346638528859811704183484516925440.0

  datatype Ray = Ray(origin: Vec3, direction: Vec3, min: real, max: real)

  function PointAt(ray: Ray, t: real): Vec3 {
    Add(ray.origin, Scale(ray.direction, t))
  }

  /** The open parameter interval a hit must fall into. */
  predicate InInterval(ray: Ray, t: real) {
    ray.min < t < ray.max
  }

  datatype HitRecord = HitRecord(origin: Vec3, normal: Vec3, t: real, didHit: bool, materialIndex: nat)

  const DefaultHit := HitRecord(Zero, Zero, FarT, false, 0)

  /** The record a primitive writes when it accepts a closer hit at `t`. */
  function Accept(ray: Ray, t: real, normal: Vec3, materialIndex: nat): HitRecord {
    HitRecord(PointAt(ray, t), normal, t, true, materialIndex)
  }

  /** The discipline every closest-hit test should keep: the record either
      stays as it was, or is replaced by a hit inside the ray interval that is
      strictly closer than the old one. */
  predicate Refines(ray: Ray, before: HitRecord, after: HitRecord) {
    after == before
    || (after.t < before.t && InInterval(ray, after.t) && after.didHit
        && after.origin == PointAt(ray, after.t))
  }

  // -------------------------------------------------------------- primitives

  datatype Sphere = Sphere(origin: Vec3, radius: real, materialIndex: nat)

  datatype Plane = Plane(origin: Vec3, normal: Vec3, materialIndex: nat)

  datatype CullMode = NoCulling | FrontFaceCulling | BackFaceCulling

  datatype Triangle = Triangle(v0: Vec3, v1: Vec3, v2: Vec3, normal: Vec3, cullMode: CullMode, materialIndex: nat)

  datatype TriangleMesh = TriangleMesh(
    positions: seq<Vec3>,
    normals: seq<Vec3>,
    indices: seq<nat>,
    cullMode: CullMode,
    materialIndex: nat,
    minAABB: Vec3,
    maxAABB: Vec3)

  datatype Light = Light(origin: Vec3, color: Color, intensity: real)

  // ------------------------------------------------------ foreign numerics

  /** The numeric routines the tracer takes from its maths library, kept
      uninterpreted: `sqrtf`, `Vector3::Normalized`, `Vector3::Reflect` and
      `std::pow`. What the proofs need of them is stated by the predicates
      below and assumed only where a lemma says so. */
  datatype Numerics = Numerics(
    sqrt: real -> real,
    normalize: Vec3 -> Vec3,
    reflect: (Vec3, Vec3) -> Vec3,
    pow: (real, real) -> real)

  ghost predicate SqrtIsSound(lib: Numerics) {
    forall x :: 0.0 <= x ==> 0.0 <= lib.sqrt(x) && lib.sqrt(x) * lib.sqrt(x) == x
  }

  ghost predicate PowIsNonNegative(lib: Numerics) {
    forall a, e :: 0.0 <= a ==> 0.0 <= lib.pow(a, e)
  }

  /** `v.Normalized()` divides by the magnitude `sqrtf(v.SqrMagnitude())`. */
  ghost predicate NormalizeDividesByMagnitude(lib: Numerics) {
    forall v :: v != Zero ==> lib.sqrt(SqrMagnitude(v)) != 0.0 && lib.normalize(v) == Scale(v, 1.0 / lib.sqrt(SqrMagnitude(v)))
  }

  /** `Vector3::Magnitude`. */
  function Magnitude(lib: Numerics, v: Vec3): real {
    lib.sqrt(SqrMagnitude(v))
  }
}
