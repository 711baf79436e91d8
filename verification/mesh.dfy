/** The triangle-mesh test of Utils.h: the axis-aligned bounding-box slab
    test that guards it, and the closest-hit fold over the mesh's index
    triples. The mesh's position and normal arrays and its box are the
    world-space ("transformed") ones the test reads. */
module Mesh {
  import opened Arith
  import opened Geometry
  import opened Primitives

  // ================================================================ slab test

  function Min(a: real, b: real): real {
    if a < b then a else b
  }

  function Max(a: real, b: real): real {
    if a < b then b else a
  }

  /** `p` lies between the two bounds, taken in whichever order they come. */
  predicate Between(lo: real, hi: real, p: real) {
    Min(lo, hi) <= p <= Max(lo, hi)
  }

  /** The point lies in the mesh's bounding box (boundary included). */
  predicate InBox(mesh: TriangleMesh, p: Vec3) {
    Between(mesh.minAABB.x, mesh.maxAABB.x, p.x)
    && Between(mesh.minAABB.y, mesh.maxAABB.y, p.y)
    && Between(mesh.minAABB.z, mesh.maxAABB.z, p.z)
  }

  /** The parameter interval in which the ray's line lies between two
      parallel bounding planes of one axis. */
  datatype Slab = Slab(near: real, far: real)

  /** One axis of the slab test: the two plane crossings, multiplied by the
      reciprocal of the direction component and swapped into order. */
  function AxisSlab(lo: real, hi: real, o: real, d: real): (s: Slab)
    requires d != 0.0
    ensures s.near <= s.far
  {
    var inverse := 1.0 / d;
    var a := (lo - o) * inverse;
    var b := (hi - o) * inverse;
    if a > b then Slab(b, a) else Slab(a, b)
  }

  predicate InSlab(s: Slab, t: real) {
    s.near <= t <= s.far
  }

  predicate NoZeroComponent(v: Vec3) {
    v.x != 0.0 && v.y != 0.0 && v.z != 0.0
  }

  function SlabX(mesh: TriangleMesh, ray: Ray): Slab
    requires NoZeroComponent(ray.direction)
  {
    AxisSlab(mesh.minAABB.x, mesh.maxAABB.x, ray.origin.x, ray.direction.x)
  }

  function SlabY(mesh: TriangleMesh, ray: Ray): Slab
    requires NoZeroComponent(ray.direction)
  {
    AxisSlab(mesh.minAABB.y, mesh.maxAABB.y, ray.origin.y, ray.direction.y)
  }

  function SlabZ(mesh: TriangleMesh, ray: Ray): Slab
    requires NoZeroComponent(ray.direction)
  {
    AxisSlab(mesh.minAABB.z, mesh.maxAABB.z, ray.origin.z, ray.direction.z)
  }

  /** Where the ray's line enters and leaves the box, if it meets it at all. */
  function Entry(mesh: TriangleMesh, ray: Ray): real
    requires NoZeroComponent(ray.direction)
  {
    Max(Max(SlabX(mesh, ray).near, SlabY(mesh, ray).near), SlabZ(mesh, ray).near)
  }

  function Exit(mesh: TriangleMesh, ray: Ray): real
    requires NoZeroComponent(ray.direction)
  {
    Min(Min(SlabX(mesh, ray).far, SlabY(mesh, ray).far), SlabZ(mesh, ray).far)
  }

  /** `SlabTest_TriangleMesh`: the x and y intervals are checked for overlap
      and intersected, then the z interval is checked against the result.
      Accepting means the three intervals have a common point; the sign of
      that point is never looked at. */
  function SlabTest(mesh: TriangleMesh, ray: Ray): (r: bool)
    requires NoZeroComponent(ray.direction)
    ensures r <==> Entry(mesh, ray) <= Exit(mesh, ray)
  {
    var x := SlabX(mesh, ray);
    var y := SlabY(mesh, ray);
    if x.near > y.far || y.near > x.far then false
    else
      var tmin := if y.near > x.near then y.near else x.near;
      var tmax := if y.far < x.far then y.far else x.far;
      var z := SlabZ(mesh, ray);
      !(tmin > z.far || z.near > tmax)
  }

  /** One bound of one axis: the crossing parameter splits the line into the
      part on each side of the bounding plane. */
  lemma CrossingSplitsLine(bound: real, o: real, d: real, t: real)
    requires d != 0.0
    ensures var a := (bound - o) * (1.0 / d);
            (d > 0.0 ==> (a <= t <==> bound <= o + d * t) && (t <= a <==> o + d * t <= bound))
            && (d < 0.0 ==> (a <= t <==> o + d * t <= bound) && (t <= a <==> bound <= o + d * t))
  {
    var a := (bound - o) * (1.0 / d);
    var da, dt := d * a, d * t;
    assert da == bound - o;
    ScaleOrder(d, a, t, da, dt);
    ScaleOrder(d, t, a, dt, da);
  }

  /** The slab of one axis is exactly the set of parameters whose point lies
      between that axis's two bounds. */
  lemma AxisSlabContains(lo: real, hi: real, o: real, d: real, t: real, p: real)
    requires d != 0.0
    requires p == o + d * t
    ensures InSlab(AxisSlab(lo, hi, o, d), t) <==> Between(lo, hi, p)
  {
    CrossingSplitsLine(lo, o, d, t);
    CrossingSplitsLine(hi, o, d, t);
  }

  /** The entry-to-exit interval is the intersection of the three slabs. */
  lemma EntryExitIsIntersection(mesh: TriangleMesh, ray: Ray, t: real)
    requires NoZeroComponent(ray.direction)
    ensures Entry(mesh, ray) <= t <= Exit(mesh, ray)
            <==> InSlab(SlabX(mesh, ray), t) && InSlab(SlabY(mesh, ray), t) && InSlab(SlabZ(mesh, ray), t)
  {
  }

  /** The three slabs together are the part of the line inside the box. */
  lemma SlabsContain(mesh: TriangleMesh, ray: Ray, t: real)
    requires NoZeroComponent(ray.direction)
    ensures Entry(mesh, ray) <= t <= Exit(mesh, ray) <==> InBox(mesh, PointAt(ray, t))
  {
    EntryExitIsIntersection(mesh, ray, t);
    SlabXContains(mesh, ray, t);
    SlabYContains(mesh, ray, t);
    SlabZContains(mesh, ray, t);
  }

  lemma SlabXContains(mesh: TriangleMesh, ray: Ray, t: real)
    requires NoZeroComponent(ray.direction)
    ensures InSlab(SlabX(mesh, ray), t) <==> Between(mesh.minAABB.x, mesh.maxAABB.x, PointAt(ray, t).x)
  {
    AxisSlabContains(mesh.minAABB.x, mesh.maxAABB.x, ray.origin.x, ray.direction.x, t, PointAt(ray, t).x);
  }

  lemma SlabYContains(mesh: TriangleMesh, ray: Ray, t: real)
    requires NoZeroComponent(ray.direction)
    ensures InSlab(SlabY(mesh, ray), t) <==> Between(mesh.minAABB.y, mesh.maxAABB.y, PointAt(ray, t).y)
  {
    AxisSlabContains(mesh.minAABB.y, mesh.maxAABB.y, ray.origin.y, ray.direction.y, t, PointAt(ray, t).y);
  }

  lemma SlabZContains(mesh: TriangleMesh, ray: Ray, t: real)
    requires NoZeroComponent(ray.direction)
    ensures InSlab(SlabZ(mesh, ray), t) <==> Between(mesh.minAABB.z, mesh.maxAABB.z, PointAt(ray, t).z)
  {
    AxisSlabContains(mesh.minAABB.z, mesh.maxAABB.z, ray.origin.z, ray.direction.z, t, PointAt(ray, t).z);
  }

  /** Soundness of the slab test: when it accepts, the line's entry point
      lies in the box. */
  lemma SlabAcceptsOnlyLinesThroughBox(mesh: TriangleMesh, ray: Ray)
    requires NoZeroComponent(ray.direction)
    requires SlabTest(mesh, ray)
    ensures InBox(mesh, PointAt(ray, Entry(mesh, ray)))
  {
    SlabsContain(mesh, ray, Entry(mesh, ray));
  }

  /** Completeness of the slab test: a line through any point of the box is
      accepted, whatever the sign of the parameter of that point. */
  lemma SlabAcceptsEveryLineThroughBox(mesh: TriangleMesh, ray: Ray, t: real)
    requires NoZeroComponent(ray.direction)
    requires InBox(mesh, PointAt(ray, t))
    ensures SlabTest(mesh, ray)
  {
    SlabsContain(mesh, ray, t);
  }

  /** A unit box centred on (-5, -5, -5) and a ray leaving the origin along
      (1, 1, 1): the box lies wholly behind the ray. */
  const BoxBehind := TriangleMesh([], [], [], NoCulling, 0, Vec3(-6.0, -6.0, -6.0), Vec3(-4.0, -4.0, -4.0))
  const DiagonalRay := Ray(Zero, Vec3(1.0, 1.0, 1.0), DefaultRayMin, FarT)

  /** The slab test accepts a box that only the backward extension of the
      ray passes through: no point of the box has a positive parameter. */
  lemma SlabTestAcceptsBoxBehindRay(t: real)
    ensures SlabTest(BoxBehind, DiagonalRay)
    ensures InBox(BoxBehind, PointAt(DiagonalRay, t)) ==> t < 0.0
  {
    assert PointAt(DiagonalRay, -5.0) == Vec3(-5.0, -5.0, -5.0);
    SlabAcceptsEveryLineThroughBox(BoxBehind, DiagonalRay, -5.0);
  }

  // ============================================================ triangle fold

  /** What the triangle loop needs to stay inside its arrays: whole index
      triples, every index naming a position, a normal per triple. */
  predicate WellFormed(mesh: TriangleMesh) {
    |mesh.indices| % 3 == 0
    && (forall i :: 0 <= i < |mesh.indices| ==> mesh.indices[i] < |mesh.positions|)
    && |mesh.indices| / 3 <= |mesh.normals|
  }

  function TriangleCount(mesh: TriangleMesh): nat {
    |mesh.indices| / 3
  }

  /** The `k`-th triangle as the loop builds it: three indexed positions,
      the `k`-th normal, and the mesh's cull mode and material. */
  function MeshTriangle(mesh: TriangleMesh, k: nat): (tri: Triangle)
    requires WellFormed(mesh) && k < TriangleCount(mesh)
    ensures tri.normal == mesh.normals[k]
    ensures tri.cullMode == mesh.cullMode && tri.materialIndex == mesh.materialIndex
  {
    Triangle(mesh.positions[mesh.indices[3 * k]],
             mesh.positions[mesh.indices[3 * k + 1]],
             mesh.positions[mesh.indices[3 * k + 2]],
             mesh.normals[k], mesh.cullMode, mesh.materialIndex)
  }

  /** What each triangle of the mesh offers the loop, in loop order: the
      `t` at which it passes its gates, if it does. */
  function Candidates(mesh: TriangleMesh, ray: Ray): (cs: seq<Option<real>>)
    requires WellFormed(mesh)
    ensures |cs| == TriangleCount(mesh)
  {
    seq(TriangleCount(mesh), k requires 0 <= k < TriangleCount(mesh) => TriangleCandidate(MeshTriangle(mesh, k), ray))
  }

  /** Entry `k` of the candidate list is the `k`-th triangle's own
      candidate. */
  lemma CandidateOfTriangle(mesh: TriangleMesh, ray: Ray, k: nat)
    requires WellFormed(mesh) && k < TriangleCount(mesh)
    ensures Candidates(mesh, ray)[k] == TriangleCandidate(MeshTriangle(mesh, k), ray)
  {
  }

  /** The candidates among the first `n` that beat the scratch record's
      starting distance FLT_MAX, in loop order. For a ray whose upper bound
      is at most FLT_MAX that is every candidate. */
  function Accepted(cs: seq<Option<real>>, n: nat): (ts: seq<real>)
    requires n <= |cs|
    ensures |ts| <= n
    ensures forall i :: 0 <= i < |ts| ==> ts[i] < FarT
  {
    if n == 0 then []
    else
      var c := cs[n - 1];
      if c.Some? && c.value < FarT then Accepted(cs, n - 1) + [c.value]
      else Accepted(cs, n - 1)
  }

  /** Looking at more triangles never loses an accepted one. */
  lemma {:induction false} AcceptedGrows(cs: seq<Option<real>>, n: nat, m: nat)
    requires n <= m <= |cs|
    ensures |Accepted(cs, n)| <= |Accepted(cs, m)|
  {
    if n < m {
      AcceptedGrows(cs, n, m - 1);
    }
  }

  /** The smallest of `init` and the values in `ts`. */
  function MinT(init: real, ts: seq<real>): (m: real)
    ensures m <= init
    ensures forall i :: 0 <= i < |ts| ==> m <= ts[i]
    ensures m == init || exists i :: 0 <= i < |ts| && m == ts[i]
  {
    if |ts| == 0 then init
    else
      var rest := MinT(init, ts[..|ts| - 1]);
      assert ts[..|ts| - 1] + [ts[|ts| - 1]] == ts;
      Min(rest, ts[|ts| - 1])
  }

  lemma MinTAppend(init: real, ts: seq<real>, t: real)
    ensures MinT(init, ts + [t]) == Min(MinT(init, ts), t)
  {
    assert (ts + [t])[..|ts|] == ts;
  }

  /** Over a non-empty list of values all below `bound`, the minimum from
      any start is at most the minimum from `bound`, which is below `bound`. */
  lemma MinTBelowBound(init: real, bound: real, ts: seq<real>)
    requires |ts| > 0
    requires forall i :: 0 <= i < |ts| ==> ts[i] < bound
    ensures MinT(init, ts) <= MinT(bound, ts) < bound
  {
    assert MinT(bound, ts) <= ts[0];
  }

  /** The record triangle `k` writes when it is accepted at its own `t`. */
  predicate IsTriangleHit(ray: Ray, cs: seq<Option<real>>, normals: seq<Vec3>, materialIndex: nat, n: nat, rec: HitRecord)
    requires n <= |cs| && n <= |normals|
  {
    exists k :: 0 <= k < n && cs[k].Some? && rec == Accept(ray, cs[k].value, normals[k], materialIndex)
  }

  /** What holds after the first `n` triangles of the loop: the scratch
      record is at the nearest accepted `t` (or still at FLT_MAX), the
      caller's record at the nearest of its own `t` and those, and the
      caller's record is either untouched or some triangle's hit. */
  predicate ScanState(ray: Ray, cs: seq<Option<real>>, normals: seq<Vec3>, materialIndex: nat,
                      hr: HitRecord, n: nat, current: HitRecord, rec: HitRecord)
  {
    n <= |cs| && n <= |normals|
    && current.t == MinT(FarT, Accepted(cs, n))
    && rec.t == MinT(hr.t, Accepted(cs, n))
    && (rec == hr || IsTriangleHit(ray, cs, normals, materialIndex, n, rec))
    && Refines(ray, hr, rec)
  }

  /** The distances after one turn of the loop, when triangle `n` reports a
      hit exactly when its candidate is closer than the scratch record and
      then becomes the scratch record. */
  lemma ScanStepDistances(cs: seq<Option<real>>, hrT: real, n: nat, currentT: real, recT: real, hit: bool, scratchT: real)
    requires n < |cs|
    requires currentT == MinT(FarT, Accepted(cs, n)) && recT == MinT(hrT, Accepted(cs, n))
    requires hit == (cs[n].Some? && cs[n].value < currentT)
    requires scratchT == if hit then cs[n].value else currentT
    ensures scratchT == MinT(FarT, Accepted(cs, n + 1))
    ensures (if hit && scratchT < recT then scratchT else recT) == MinT(hrT, Accepted(cs, n + 1))
    ensures |Accepted(cs, n)| == 0 ==> (hit <==> |Accepted(cs, n + 1)| > 0)
  {
    var accepted := Accepted(cs, n);
    if |accepted| > 0 {
      MinTBelowBound(hrT, FarT, accepted);
    }
    if cs[n].Some? && cs[n].value < FarT {
      MinTAppend(FarT, accepted, cs[n].value);
      MinTAppend(hrT, accepted, cs[n].value);
    }
  }

  /** One turn of the loop keeps the scan state. */
  lemma ScanStep(ray: Ray, cs: seq<Option<real>>, normals: seq<Vec3>, materialIndex: nat,
                 hr: HitRecord, n: nat, current: HitRecord, rec: HitRecord, result: HitResult)
    requires n < |cs| && n < |normals|
    requires ScanState(ray, cs, normals, materialIndex, hr, n, current, rec)
    requires cs[n].Some? ==> InInterval(ray, cs[n].value)
    requires result.hit == (cs[n].Some? && cs[n].value < current.t)
    requires result.record == if result.hit then Accept(ray, cs[n].value, normals[n], materialIndex) else current
    ensures ScanState(ray, cs, normals, materialIndex, hr, n + 1, result.record,
                      if result.hit && result.record.t < rec.t then result.record else rec)
    ensures |Accepted(cs, n)| == 0 ==> (result.hit <==> |Accepted(cs, n + 1)| > 0)
  {
    ScanStepDistances(cs, hr.t, n, current.t, rec.t, result.hit, result.record.t);
    var next := if result.hit && result.record.t < rec.t then result.record else rec;
    if next != rec {
      assert IsTriangleHit(ray, cs, normals, materialIndex, n + 1, next);
    } else if rec != hr {
      var k :| 0 <= k < n && cs[k].Some? && rec == Accept(ray, cs[k].value, normals[k], materialIndex);
      assert IsTriangleHit(ray, cs, normals, materialIndex, n + 1, next);
    }
  }

  /** The triangle test on the `k`-th triangle of the mesh, in terms of its
      candidate. */
  lemma MeshTriangleTest(mesh: TriangleMesh, ray: Ray, k: nat, current: HitRecord)
    requires WellFormed(mesh) && k < TriangleCount(mesh)
    ensures var c := Candidates(mesh, ray)[k];
            var hit := c.Some? && c.value < current.t;
            HitTestTriangle(MeshTriangle(mesh, k), ray, current)
            == HitResult(hit, if hit then Accept(ray, c.value, mesh.normals[k], mesh.materialIndex) else current)
  {
    CandidateOfTriangle(mesh, ray, k);
  }

  /** The loop's call of the triangle test on the `k`-th triangle, with its
      outcome stated through the triangle's candidate. It is a method so that
      the loop's proof sees only this contract and not the test's
      definition, which keeps each loop obligation small. */
  method TestMeshTriangle(mesh: TriangleMesh, ray: Ray, k: nat, current: HitRecord) returns (result: HitResult)
    requires WellFormed(mesh) && k < TriangleCount(mesh)
    ensures var c := Candidates(mesh, ray)[k];
            (c.Some? ==> InInterval(ray, c.value))
            && result.hit == (c.Some? && c.value < current.t)
            && result.record == if result.hit then Accept(ray, c.value, mesh.normals[k], mesh.materialIndex) else current
  {
    MeshTriangleTest(mesh, ray, k, current);
    result := HitTestTriangle(MeshTriangle(mesh, k), ray, current);
  }

  /** One turn of the triangle loop: triangle `k` is checked against the
      scratch record, and a hit closer than the caller's record replaces
      it. */
  method ScanOne(mesh: TriangleMesh, ray: Ray, hr: HitRecord, k: nat, current: HitRecord, rec: HitRecord)
    returns (found: bool, scratch: HitRecord, closer: HitRecord)
    requires WellFormed(mesh) && k < TriangleCount(mesh)
    requires ScanState(ray, Candidates(mesh, ray), mesh.normals, mesh.materialIndex, hr, k, current, rec)
    ensures ScanState(ray, Candidates(mesh, ray), mesh.normals, mesh.materialIndex, hr, k + 1, scratch, closer)
    ensures !found ==> closer == rec
    ensures |Accepted(Candidates(mesh, ray), k)| == 0 ==> (found <==> |Accepted(Candidates(mesh, ray), k + 1)| > 0)
  {
    var result := TestMeshTriangle(mesh, ray, k, current);
    ScanStep(ray, Candidates(mesh, ray), mesh.normals, mesh.materialIndex, hr, k, current, rec, result);
    found, scratch := result.hit, result.record;
    closer := rec;
    if found && scratch.t < rec.t {
      closer := scratch;
    }
  }

  /** The triangle loop of `HitTest_TriangleMesh`. A scratch record that
      starts at the default (`t` = FLT_MAX) is refined by every triangle in
      turn; the caller's record takes each scratch hit closer than itself.
      In any-hit mode the first triangle hit returns true at once and the
      caller's record is never written. After the loop the result is the
      record's `didHit`, which an earlier primitive may have set. */
  method ScanTriangles(mesh: TriangleMesh, ray: Ray, hr: HitRecord, ignoreHitRecord: bool)
    returns (hit: bool, rec: HitRecord)
    requires WellFormed(mesh)
    ensures ignoreHitRecord ==> rec == hr
    ensures ignoreHitRecord ==> (hit <==> |Accepted(Candidates(mesh, ray), TriangleCount(mesh))| > 0 || hr.didHit)
    ensures !ignoreHitRecord ==>
              var cs := Candidates(mesh, ray);
              rec.t == MinT(hr.t, Accepted(cs, TriangleCount(mesh)))
              && (rec == hr || IsTriangleHit(ray, cs, mesh.normals, mesh.materialIndex, TriangleCount(mesh), rec))
              && hit == rec.didHit
    ensures Refines(ray, hr, rec)
  {
    var cs := Candidates(mesh, ray);
    var current := DefaultHit;
    rec := hr;
    var i, k := 0, 0;
    while i < |mesh.indices|
      invariant i == 3 * k && i <= |mesh.indices|
      invariant ScanState(ray, cs, mesh.normals, mesh.materialIndex, hr, k, current, rec)
      invariant ignoreHitRecord ==> rec == hr && |Accepted(cs, k)| == 0
    {
      var found, closer;
      found, current, closer := ScanOne(mesh, ray, hr, k, current, rec);
      if found && ignoreHitRecord {
        AcceptedGrows(cs, k + 1, TriangleCount(mesh));
        return true, hr;
      }
      rec := closer;
      i, k := i + 3, k + 1;
    }
    assert k == TriangleCount(mesh);
    hit := rec.didHit;
  }

  /** `HitTest_TriangleMesh` with a hit record: nothing happens unless the
      ray's line meets the bounding box. A slab miss returns false even when
      the record holds a hit from an earlier primitive, while a slab hit
      returns the record's `didHit`. */
  method HitTestTriangleMesh(mesh: TriangleMesh, ray: Ray, hr: HitRecord, ignoreHitRecord: bool)
    returns (hit: bool, rec: HitRecord)
    requires WellFormed(mesh)
    requires NoZeroComponent(ray.direction)
    ensures !SlabTest(mesh, ray) ==> !hit && rec == hr
    ensures ignoreHitRecord ==> rec == hr
    ensures ignoreHitRecord && SlabTest(mesh, ray) ==>
              (hit <==> |Accepted(Candidates(mesh, ray), TriangleCount(mesh))| > 0 || hr.didHit)
    ensures !ignoreHitRecord && SlabTest(mesh, ray) ==>
              var cs := Candidates(mesh, ray);
              rec.t == MinT(hr.t, Accepted(cs, TriangleCount(mesh)))
              && (rec == hr || IsTriangleHit(ray, cs, mesh.normals, mesh.materialIndex, TriangleCount(mesh), rec))
              && hit == rec.didHit
    ensures Refines(ray, hr, rec)
  {
    if !SlabTest(mesh, ray) {
      return false, hr;
    }
    hit, rec := ScanTriangles(mesh, ray, hr, ignoreHitRecord);
  }

  /** `HitTest_TriangleMesh(mesh, ray)`: the any-hit overload, against a
      default record. */
  method TriangleMeshDoesHit(mesh: TriangleMesh, ray: Ray) returns (hit: bool)
    requires WellFormed(mesh)
    requires NoZeroComponent(ray.direction)
    ensures hit <==> SlabTest(mesh, ray) && |Accepted(Candidates(mesh, ray), TriangleCount(mesh))| > 0
  {
    var rec;
    hit, rec := HitTestTriangleMesh(mesh, ray, DefaultHit, true);
  }

  /** Every candidate below FLT_MAX among the first `n` is accepted. */
  lemma {:induction false} AcceptedListsEveryCandidate(cs: seq<Option<real>>, n: nat, k: nat)
    requires k < n <= |cs|
    requires cs[k].Some? && cs[k].value < FarT
    ensures cs[k].value in Accepted(cs, n)
  {
    if k < n - 1 {
      AcceptedListsEveryCandidate(cs, n - 1, k);
    }
  }

  /** The closest-hit mesh test ends no farther than any triangle of the mesh
      that passes its own gates below FLT_MAX, and no farther than the record
      it started from. */
  lemma MeshHitIsClosest(mesh: TriangleMesh, ray: Ray, hr: HitRecord, rec: HitRecord, k: nat)
    requires WellFormed(mesh) && k < TriangleCount(mesh)
    requires rec.t == MinT(hr.t, Accepted(Candidates(mesh, ray), TriangleCount(mesh)))
    requires TriangleCandidate(MeshTriangle(mesh, k), ray).Some?
    requires TriangleCandidate(MeshTriangle(mesh, k), ray).value < FarT
    ensures rec.t <= hr.t
    ensures rec.t <= TriangleCandidate(MeshTriangle(mesh, k), ray).value
  {
    AcceptedListsEveryCandidate(Candidates(mesh, ray), TriangleCount(mesh), k);
  }
}
