/** The per-pixel body of `Renderer::Render` (Renderer.cpp): the camera-space
    ray direction of a pixel, the view ray, the closest-hit decision, the
    shadow pass over the lights, and the buffer index the colour is written
    to. The scene queries `GetClosestHit`, `DoesHit` and the material's
    `Shade` are kept abstract as function-valued fields of `Scene`. */
module Render {
  import opened Arith
  import opened Geometry

  /** The camera fields the loop reads: the eye point, `tan(fov / 2)`, and
      the direction part of the camera-to-world matrix. */
  datatype Camera = Camera(origin: Vec3, halfFovTan: real, toWorld: Vec3 -> Vec3)

  /** `GetClosestHit`, `DoesHit`, the shading of the material with a given
      index, and the scene's lights in iteration order. */
  datatype Scene = Scene(
    closestHit: Ray -> HitRecord,
    doesHit: Ray -> bool,
    shade: nat -> Color,
    lights: seq<Light>)

  // ------------------------------------------------------ camera-space ray

  /** `ar`: the screen width over its height, positive for a non-empty
      screen. */
  function AspectRatio(width: nat, height: nat): (ar: real)
    requires height > 0
    ensures width > 0 ==> ar > 0.0
  {
    var q := width as real / height as real;
    QuotientBetween(width as real, height as real, q, 0.0, 0.0, 0.0, 0.0);
    q
  }

  /** The horizontal screen coordinate of the centre of column `px`, mapped
      from [0, width] onto [-1, 1]: strictly inside, never on the border. */
  function ScreenX(px: nat, width: nat): (f: real)
    requires px < width
    ensures -1.0 < f < 1.0
  {
    var pxc := px as real + 0.5;
    var w := width as real;
    var q := (2.0 * pxc) / w;
    QuotientBetween(2.0 * pxc, w, q, 0.0, 2.0, 0.0, 2.0 * w);
    q - 1.0
  }

  /** The vertical screen coordinate of the centre of row `py`: row 0 is at
      the top, so the mapping is flipped. */
  function ScreenY(py: nat, height: nat): (f: real)
    requires py < height
    ensures -1.0 < f < 1.0
  {
    var pyc := py as real + 0.5;
    var h := height as real;
    var q := (2.0 * pyc) / h;
    QuotientBetween(2.0 * pyc, h, q, 0.0, 2.0, 0.0, 2.0 * h);
    1.0 - q
  }

  /** The ray direction in camera space before normalisation: only x is
      stretched by the aspect ratio, both x and y by `tan(fov / 2)`, and z is
      one. */
  function CameraSpaceDirection(px: nat, py: nat, width: nat, height: nat, halfFovTan: real): (d: Vec3)
    requires px < width && py < height
    ensures d.z == 1.0 && d != Zero
  {
    Vec3(ScreenX(px, width) * AspectRatio(width, height) * halfFovTan,
         ScreenY(py, height) * halfFovTan,
         1.0)
  }

  /** Mirrored columns have opposite screen coordinates. */
  lemma ScreenXMirror(px: nat, width: nat)
    requires px < width
    ensures ScreenX(width - 1 - px, width) == -ScreenX(px, width)
  {
    var w := width as real;
    var a, b := 2.0 * (px as real + 0.5), 2.0 * ((width - 1 - px) as real + 0.5);
    var qa, qb := a / w, b / w;
    assert a + b == 2.0 * w;
    var wa, wb, ws := w * qa, w * qb, w * (qa + qb);
    assert wa == a && wb == b;
    assert ws == wa + wb;
    CancelFactor(qa + qb, 2.0, w, ws, 2.0 * w);
  }

  /** Mirrored rows have opposite screen coordinates. */
  lemma ScreenYMirror(py: nat, height: nat)
    requires py < height
    ensures ScreenY(height - 1 - py, height) == -ScreenY(py, height)
  {
    var h := height as real;
    var a, b := 2.0 * (py as real + 0.5), 2.0 * ((height - 1 - py) as real + 0.5);
    var qa, qb := a / h, b / h;
    assert a + b == 2.0 * h;
    var ha, hb, hs := h * qa, h * qb, h * (qa + qb);
    assert ha == a && hb == b;
    assert hs == ha + hb;
    CancelFactor(qa + qb, 2.0, h, hs, 2.0 * h);
  }

  /** With a positive field of view the direction stays strictly inside the
      viewing pyramid: |x| below `ar * tan(fov / 2)`, |y| below
      `tan(fov / 2)`. */
  lemma CameraDirectionInsideFrustum(px: nat, py: nat, width: nat, height: nat, halfFovTan: real)
    requires px < width && py < height
    requires halfFovTan > 0.0
    ensures var d := CameraSpaceDirection(px, py, width, height, halfFovTan);
            var s := AspectRatio(width, height) * halfFovTan;
            -s < d.x < s && -halfFovTan < d.y < halfFovTan
  {
    var d := CameraSpaceDirection(px, py, width, height, halfFovTan);
    var fx, fy := ScreenX(px, width), ScreenY(py, height);
    var ar := AspectRatio(width, height);
    var s := ar * halfFovTan;
    PositiveProduct(ar, halfFovTan, s);
    var sx := s * fx;
    assert d.x == sx;
    ScaleOrder(s, 1.0, fx, s * 1.0, sx);
    ScaleOrder(s, fx, -1.0, sx, s * -1.0);
    var ty := halfFovTan * fy;
    assert d.y == ty;
    ScaleOrder(halfFovTan, 1.0, fy, halfFovTan * 1.0, ty);
    ScaleOrder(halfFovTan, fy, -1.0, ty, halfFovTan * -1.0);
  }

  /** On a square screen the aspect ratio is one, and swapping row and column
      turns x into minus y. */
  lemma SquareScreenIsSymmetric(a: nat, b: nat, size: nat, halfFovTan: real)
    requires a < size && b < size
    ensures CameraSpaceDirection(a, b, size, size, halfFovTan).x
            == -CameraSpaceDirection(b, a, size, size, halfFovTan).y
  {
    var s := size as real;
    var one := s / s;
    var sOne := s * one;
    assert sOne == s;
    CancelFactor(one, 1.0, s, sOne, s * 1.0);
    assert AspectRatio(size, size) == 1.0;
  }

  // ------------------------------------------------------------ view ray

  /** The view ray of a pixel: the normalised camera-space direction carried
      to world space, from the camera origin, with the default bounds. The
      transformed direction is not normalised again. */
  function ViewRay(lib: Numerics, camera: Camera, px: nat, py: nat, width: nat, height: nat): Ray
    requires px < width && py < height
  {
    var d := CameraSpaceDirection(px, py, width, height, camera.halfFovTan);
    Ray(camera.origin, camera.toWorld(lib.normalize(d)), DefaultRayMin, FarT)
  }

  /** Scaling a vector by `k` scales its squared length by `k * k`. */
  lemma ScaledSqrMagnitude(v: Vec3, k: real, k2: real)
    requires k2 == k * k
    ensures SqrMagnitude(Scale(v, k)) == k2 * SqrMagnitude(v)
  {
    var x, y, z := v.x * k, v.y * k, v.z * k;
    assert x * x == k2 * (v.x * v.x);
    assert y * y == k2 * (v.y * v.y);
    assert z * z == k2 * (v.z * v.z);
  }

  /** A square divided by the square of its root is one. */
  lemma InverseSquare(m: real, s: real, inv: real)
    requires m * m == s && m != 0.0 && inv == 1.0 / m
    ensures (inv * inv) * s == 1.0
  {
    var one := inv * m;
    assert one == 1.0;
    assert (inv * inv) * (m * m) == one * one;
  }

  /** A sound `Normalized` yields a vector of length one. */
  lemma NormalizedIsUnit(lib: Numerics, v: Vec3)
    requires SqrtIsSound(lib) && NormalizeDividesByMagnitude(lib)
    requires v != Zero
    ensures SqrMagnitude(lib.normalize(v)) == 1.0
  {
    SelfDotSign(v);
    var s := SqrMagnitude(v);
    var m := lib.sqrt(s);
    assert m * m == s && m != 0.0;
    var inv := 1.0 / m;
    assert lib.normalize(v) == Scale(v, inv);
    ScaledSqrMagnitude(v, inv, inv * inv);
    InverseSquare(m, s, inv);
  }

  /** The camera-space view direction, normalised before the camera
      transform, has length one. */
  lemma ViewDirectionIsUnit(lib: Numerics, camera: Camera, px: nat, py: nat, width: nat, height: nat)
    requires SqrtIsSound(lib) && NormalizeDividesByMagnitude(lib)
    requires px < width && py < height
    ensures SqrMagnitude(lib.normalize(CameraSpaceDirection(px, py, width, height, camera.halfFovTan))) == 1.0
  {
    NormalizedIsUnit(lib, CameraSpaceDirection(px, py, width, height, camera.halfFovTan));
  }

  // ---------------------------------------------------------- shadow rays

  /** The float literal `0.0000001f` that lifts a shadow ray off the
      surface, and the factor an occluded light multiplies the colour by. */
  const ShadowBias: real := 0.0000001
  const Dimming: real := 0.5

  /** The shadow ray towards a light: from the hit point nudged along the
      normal, along the normalised direction to the light, ending at the
      light's distance. */
  function ShadowRay(lib: Numerics, hit: HitRecord, light: Light): Ray {
    var toLight := Sub(light.origin, hit.origin);
    Ray(Add(hit.origin, Scale(hit.normal, ShadowBias)), lib.normalize(toLight), DefaultRayMin, Magnitude(lib, toLight))
  }

  /** The far end of a shadow ray is the light, shifted by the same nudge
      along the normal as the ray's origin. */
  lemma ShadowRayReachesLight(lib: Numerics, hit: HitRecord, light: Light)
    requires SqrtIsSound(lib) && NormalizeDividesByMagnitude(lib)
    requires hit.origin != light.origin
    ensures var r := ShadowRay(lib, hit, light);
            r.max > 0.0 && PointAt(r, r.max) == Add(light.origin, Scale(hit.normal, ShadowBias))
  {
    var w := Sub(light.origin, hit.origin);
    SubVanishesOnlyOnEqual(light.origin, hit.origin);
    SelfDotSign(w);
    var s := SqrMagnitude(w);
    var m := lib.sqrt(s);
    assert m * m == s && m != 0.0 && m >= 0.0;
    var inv := 1.0 / m;
    assert lib.normalize(w) == Scale(w, inv);
    var one := inv * m;
    assert one == 1.0;
    var sx, sy, sz := w.x * inv, w.y * inv, w.z * inv;
    assert sx * m == w.x * one;
    assert sy * m == w.y * one;
    assert sz * m == w.z * one;
    assert Scale(Scale(w, inv), m) == w;
  }

  /** Whether the scene blocks the shadow ray towards `light`. */
  predicate Occluded(scene: Scene, lib: Numerics, hit: HitRecord, light: Light) {
    scene.doesHit(ShadowRay(lib, hit, light))
  }

  /** The shadow loop: every light whose shadow ray is blocked halves the
      colour accumulated so far. */
  function ShadowPass(scene: Scene, lib: Numerics, hit: HitRecord, lights: seq<Light>, c: Color): Color
    decreases |lights|
  {
    if |lights| == 0 then c
    else
      var dimmed := if Occluded(scene, lib, hit, lights[0]) then ScaleColor(c, Dimming) else c;
      ShadowPass(scene, lib, hit, lights[1..], dimmed)
  }

  /** The number of lights whose shadow ray is blocked. */
  function OccludedCount(scene: Scene, lib: Numerics, hit: HitRecord, lights: seq<Light>): (k: nat)
    ensures k <= |lights|
    ensures k == 0 <==> forall i :: 0 <= i < |lights| ==> !Occluded(scene, lib, hit, lights[i])
    decreases |lights|
  {
    if |lights| == 0 then 0
    else
      var rest := OccludedCount(scene, lib, hit, lights[1..]);
      assert forall i :: 1 <= i < |lights| ==> lights[i] == lights[1..][i - 1];
      (if Occluded(scene, lib, hit, lights[0]) then 1 else 0) + rest
  }

  function Power(x: real, k: nat): real
    decreases k
  {
    if k == 0 then 1.0 else x * Power(x, k - 1)
  }

  /** Each further halving keeps the factor in (0, 1]. */
  lemma {:induction false} DimmingFactorBounds(k: nat)
    ensures 0.0 < Power(Dimming, k) <= 1.0
    decreases k
  {
    if k > 0 {
      DimmingFactorBounds(k - 1);
    }
  }

  /** Scaling twice is scaling once by the product. */
  lemma ScaleColorTwice(c: Color, a: real, b: real)
    ensures ScaleColor(ScaleColor(c, a), b) == ScaleColor(c, a * b)
  {
    var rab, gab, bab := c.r * a * b, c.g * a * b, c.b * a * b;
    assert rab == c.r * (a * b) && gab == c.g * (a * b) && bab == c.b * (a * b);
  }

  /** The shadow loop in closed form: the starting colour times one half to
      the power of the number of occluded lights. */
  lemma {:induction false} ShadowPassClosedForm(scene: Scene, lib: Numerics, hit: HitRecord, lights: seq<Light>, c: Color)
    ensures ShadowPass(scene, lib, hit, lights, c)
            == ScaleColor(c, Power(Dimming, OccludedCount(scene, lib, hit, lights)))
    decreases |lights|
  {
    if |lights| == 0 {
      assert ScaleColor(c, 1.0) == c;
    } else {
      var rest := lights[1..];
      var k := OccludedCount(scene, lib, hit, rest);
      if Occluded(scene, lib, hit, lights[0]) {
        ShadowPassClosedForm(scene, lib, hit, rest, ScaleColor(c, Dimming));
        ScaleColorTwice(c, Dimming, Power(Dimming, k));
      } else {
        ShadowPassClosedForm(scene, lib, hit, rest, c);
      }
    }
  }

  lemma {:induction false} OccludedCountAppend(scene: Scene, lib: Numerics, hit: HitRecord, a: seq<Light>, b: seq<Light>)
    ensures OccludedCount(scene, lib, hit, a + b)
            == OccludedCount(scene, lib, hit, a) + OccludedCount(scene, lib, hit, b)
    decreases |a|
  {
    if |a| > 0 {
      assert (a + b)[1..] == a[1..] + b;
      OccludedCountAppend(scene, lib, hit, a[1..], b);
    } else {
      assert a + b == b;
    }
  }

  /** Taking one light out of a list takes out its share of the count. */
  lemma OccludedCountRemove(scene: Scene, lib: Numerics, hit: HitRecord, b: seq<Light>, i: nat)
    requires i < |b|
    ensures OccludedCount(scene, lib, hit, b)
            == OccludedCount(scene, lib, hit, [b[i]]) + OccludedCount(scene, lib, hit, b[..i] + b[i + 1..])
  {
    var x := b[i];
    assert b[..i] + ([x] + b[i + 1..]) == b;
    OccludedCountAppend(scene, lib, hit, b[..i], [x] + b[i + 1..]);
    OccludedCountAppend(scene, lib, hit, [x], b[i + 1..]);
    OccludedCountAppend(scene, lib, hit, b[..i], b[i + 1..]);
  }

  lemma MultisetRemove<T>(b: seq<T>, i: nat)
    requires i < |b|
    ensures multiset(b[..i] + b[i + 1..]) == multiset(b) - multiset{b[i]}
  {
    assert b == b[..i] + [b[i]] + b[i + 1..];
  }

  /** Removing the first element of one list and an equal element of a
      permutation of it leaves permutations of each other. */
  lemma RemoveMatching<T>(a: seq<T>, b: seq<T>, i: nat)
    requires multiset(a) == multiset(b)
    requires 0 < |a| && i < |b| && b[i] == a[0]
    ensures multiset(a[1..]) == multiset(b[..i] + b[i + 1..])
  {
    assert a == [a[0]] + a[1..];
    MultisetRemove(b, i);
  }

  /** The count depends only on which lights there are, not on their
      order. */
  lemma {:induction false} OccludedCountPermutation(scene: Scene, lib: Numerics, hit: HitRecord, a: seq<Light>, b: seq<Light>)
    requires multiset(a) == multiset(b)
    ensures OccludedCount(scene, lib, hit, a) == OccludedCount(scene, lib, hit, b)
    decreases |a|
  {
    if |a| == 0 {
      assert |b| == |multiset(b)| == 0;
    } else {
      var x, rest := a[0], a[1..];
      assert x in multiset(b);
      var i :| 0 <= i < |b| && b[i] == x;
      var others := b[..i] + b[i + 1..];
      assert a[..0] + a[1..] == rest;
      RemoveMatching(a, b, i);
      OccludedCountPermutation(scene, lib, hit, rest, others);
      OccludedCountRemove(scene, lib, hit, a, 0);
      OccludedCountRemove(scene, lib, hit, b, i);
    }
  }

  /** Reordering the lights does not change the shaded colour. */
  lemma ShadowPassOrderIndependent(scene: Scene, lib: Numerics, hit: HitRecord, a: seq<Light>, b: seq<Light>, c: Color)
    requires multiset(a) == multiset(b)
    ensures ShadowPass(scene, lib, hit, a, c) == ShadowPass(scene, lib, hit, b, c)
  {
    ShadowPassClosedForm(scene, lib, hit, a, c);
    ShadowPassClosedForm(scene, lib, hit, b, c);
    OccludedCountPermutation(scene, lib, hit, a, b);
  }

  /** Inserting a light raises the count by one exactly when its shadow ray
      is blocked. */
  lemma OccludedCountInsert(scene: Scene, lib: Numerics, hit: HitRecord, a: seq<Light>, light: Light, b: seq<Light>)
    ensures OccludedCount(scene, lib, hit, a + [light] + b)
            == OccludedCount(scene, lib, hit, a + b) + if Occluded(scene, lib, hit, light) then 1 else 0
  {
    OccludedCountAppend(scene, lib, hit, a + [light], b);
    OccludedCountAppend(scene, lib, hit, a, [light]);
    OccludedCountAppend(scene, lib, hit, a, b);
    assert [light][1..] == [];
  }

  /** A light whose shadow ray is free leaves the colour unchanged, wherever
      it sits in the list. */
  lemma FreeLightKeepsColor(scene: Scene, lib: Numerics, hit: HitRecord, a: seq<Light>, light: Light, b: seq<Light>, c: Color)
    requires !Occluded(scene, lib, hit, light)
    ensures ShadowPass(scene, lib, hit, a + [light] + b, c) == ShadowPass(scene, lib, hit, a + b, c)
  {
    OccludedCountInsert(scene, lib, hit, a, light, b);
    ShadowPassClosedForm(scene, lib, hit, a + [light] + b, c);
    ShadowPassClosedForm(scene, lib, hit, a + b, c);
  }

  /** A light whose shadow ray is blocked halves the colour the other lights
      leave, rather than removing a contribution of its own. */
  lemma BlockedLightHalvesColor(scene: Scene, lib: Numerics, hit: HitRecord, a: seq<Light>, light: Light, b: seq<Light>, c: Color)
    requires Occluded(scene, lib, hit, light)
    ensures ShadowPass(scene, lib, hit, a + [light] + b, c)
            == ScaleColor(ShadowPass(scene, lib, hit, a + b, c), Dimming)
  {
    var k := OccludedCount(scene, lib, hit, a + b);
    OccludedCountInsert(scene, lib, hit, a, light, b);
    ShadowPassClosedForm(scene, lib, hit, a + [light] + b, c);
    ShadowPassClosedForm(scene, lib, hit, a + b, c);
    assert Power(Dimming, k + 1) == Dimming * Power(Dimming, k);
    ScaleColorTwice(c, Power(Dimming, k), Dimming);
  }

  /** Scaling a non-negative colour by a factor in [0, 1] keeps each channel
      between zero and its old value. */
  lemma ScaleColorShrinks(c: Color, f: real)
    requires NonNegative(c) && 0.0 <= f <= 1.0
    ensures var s := ScaleColor(c, f);
            0.0 <= s.r <= c.r && 0.0 <= s.g <= c.g && 0.0 <= s.b <= c.b
  {
    var sr, sg, sb := c.r * f, c.g * f, c.b * f;
    ShrinkingProduct(c.r, f, sr);
    ShrinkingProduct(c.g, f, sg);
    ShrinkingProduct(c.b, f, sb);
  }

  /** Shadows only darken: each channel of a non-negative colour stays
      between zero and its unshadowed value. */
  lemma ShadowsOnlyDarken(scene: Scene, lib: Numerics, hit: HitRecord, lights: seq<Light>, c: Color)
    requires NonNegative(c)
    ensures var s := ShadowPass(scene, lib, hit, lights, c);
            0.0 <= s.r <= c.r && 0.0 <= s.g <= c.g && 0.0 <= s.b <= c.b
  {
    var k := OccludedCount(scene, lib, hit, lights);
    ShadowPassClosedForm(scene, lib, hit, lights, c);
    DimmingFactorBounds(k);
    ScaleColorShrinks(c, Power(Dimming, k));
  }

  // ---------------------------------------------------------- pixel colour

  /** The colour of one pixel before clamping: black when the view ray hits
      nothing, otherwise the material's shade halved once per occluded
      light. */
  function PixelColor(scene: Scene, lib: Numerics, camera: Camera, px: nat, py: nat, width: nat, height: nat): (c: Color)
    requires px < width && py < height
    ensures var hit := scene.closestHit(ViewRay(lib, camera, px, py, width, height));
            (!hit.didHit ==> c == Black)
            && (hit.didHit ==> c == ScaleColor(scene.shade(hit.materialIndex),
                                               Power(Dimming, OccludedCount(scene, lib, hit, scene.lights))))
  {
    var hit := scene.closestHit(ViewRay(lib, camera, px, py, width, height));
    if !hit.didHit then Black
    else
      var shaded := scene.shade(hit.materialIndex);
      ShadowPassClosedForm(scene, lib, hit, scene.lights, shaded);
      ShadowPass(scene, lib, hit, scene.lights, shaded)
  }

  // ---------------------------------------------------------- buffer index

  /** `px + (py * m_Width)`: the row-major buffer index of a pixel. */
  function PixelIndex(px: nat, py: nat, width: nat): nat {
    px + py * width
  }

  /** The column and row are recovered from the index by remainder and
      quotient. */
  lemma PixelIndexDecomposes(px: nat, py: nat, width: nat)
    requires px < width
    ensures PixelIndex(px, py, width) % width == px
    ensures PixelIndex(px, py, width) / width == py
  {
    var i := PixelIndex(px, py, width);
    var q, r := i / width, i % width;
    var qw, pw := q * width, py * width;
    assert i == qw + r && 0 <= r < width;
    if q > py {
      var next := (py + 1) * width;
      assert next == pw + width;
      IntScaleOrder(py + 1, q, width, next, qw);
    } else if q < py {
      var next := (q + 1) * width;
      assert next == qw + width;
      IntScaleOrder(q + 1, py, width, next, pw);
    }
  }

  /** Different pixels are written to different buffer entries. */
  lemma PixelIndexInjective(ax: nat, ay: nat, bx: nat, bY: nat, width: nat)
    requires ax < width && bx < width
    ensures PixelIndex(ax, ay, width) == PixelIndex(bx, bY, width) <==> ax == bx && ay == bY
  {
    PixelIndexDecomposes(ax, ay, width);
    PixelIndexDecomposes(bx, bY, width);
  }

  /** Every pixel's index lies inside a `width * height` buffer. */
  lemma PixelIndexInRange(px: nat, py: nat, width: nat, height: nat)
    requires px < width && py < height
    ensures PixelIndex(px, py, width) < width * height
  {
    var pw, next, all := py * width, (py + 1) * width, height * width;
    assert next == pw + width;
    IntScaleOrder(py + 1, height, width, next, all);
  }

  /** Every entry of a `width * height` buffer belongs to exactly one
      pixel. */
  lemma EveryIndexIsAPixel(i: nat, width: nat, height: nat)
    requires i < width * height
    ensures width > 0 && i % width < width && i / width < height
    ensures PixelIndex(i % width, i / width, width) == i
  {
    var q := i / width;
    var qw, all := q * width, height * width;
    assert qw + i % width == i;
    if q >= height {
      IntScaleOrder(height, q, width, all, qw);
    }
  }

  // ----------------------------------------------------------- render loop

  /** The indices written for column `px`, top row first. */
  function Column(px: nat, width: nat, height: nat): seq<nat> {
    seq(height, py requires 0 <= py < height => PixelIndex(px, py, width))
  }

  /** The write order of the nested loops: columns left to right, each
      column top to bottom. */
  function Schedule(columns: nat, width: nat, height: nat): seq<nat>
    decreases columns
  {
    if columns == 0 then [] else Schedule(columns - 1, width, height) + Column(columns - 1, width, height)
  }

  predicate Distinct(s: seq<nat>) {
    forall i, j :: 0 <= i < j < |s| ==> s[i] != s[j]
  }

  /** After the first `columns` columns, exactly the pixels of those columns
      have been written, each once, all inside the buffer. */
  lemma {:induction false} ScheduleCoversColumns(columns: nat, width: nat, height: nat)
    requires columns <= width
    ensures var s := Schedule(columns, width, height);
            |s| == columns * height
            && Distinct(s)
            && (forall j :: 0 <= j < |s| ==> s[j] < width * height && s[j] % width < columns)
            && (forall px: nat, py: nat :: px < columns && py < height ==> PixelIndex(px, py, width) in s)
    decreases columns
  {
    if columns > 0 {
      var px := columns - 1;
      ScheduleCoversColumns(px, width, height);
      var before, col := Schedule(px, width, height), Column(px, width, height);
      var s := before + col;
      assert |s| == columns * height;
      forall py | 0 <= py < height
        ensures col[py] < width * height && col[py] % width == px
      {
        PixelIndexInRange(px, py, width, height);
        PixelIndexDecomposes(px, py, width);
      }
      forall i, j | 0 <= i < j < |s|
        ensures s[i] != s[j]
      {
        if j >= |before| && i >= |before| {
          PixelIndexInjective(px, i - |before|, px, j - |before|, width);
        }
      }
      forall qx: nat, qy: nat | qx < columns && qy < height
        ensures PixelIndex(qx, qy, width) in s
      {
        if qx == px {
          assert s[|before| + qy] == PixelIndex(qx, qy, width);
        }
      }
    }
  }

  /** Paints one column, returning the new buffer and the indices written in
      order. */
  method RenderColumn(scene: Scene, lib: Numerics, camera: Camera, px: nat, width: nat, height: nat, pixels: seq<Color>)
    returns (buffer: seq<Color>, written: seq<nat>)
    requires px < width && |pixels| == width * height
    ensures |buffer| == |pixels|
    ensures written == Column(px, width, height)
    ensures forall py: nat :: py < height
              ==> PixelIndex(px, py, width) < |buffer|
                  && buffer[PixelIndex(px, py, width)] == PixelColor(scene, lib, camera, px, py, width, height)
    ensures forall i :: 0 <= i < |buffer| && i % width != px ==> buffer[i] == pixels[i]
  {
    buffer, written := pixels, [];
    var py := 0;
    while py < height
      invariant py <= height
      invariant |buffer| == |pixels|
      invariant written == Column(px, width, height)[..py]
      invariant forall qy: nat :: qy < py
                  ==> PixelIndex(px, qy, width) < |buffer|
                      && buffer[PixelIndex(px, qy, width)] == PixelColor(scene, lib, camera, px, qy, width, height)
      invariant forall i :: 0 <= i < |buffer| && i % width != px ==> buffer[i] == pixels[i]
    {
      var index := PixelIndex(px, py, width);
      PixelIndexInRange(px, py, width, height);
      PixelIndexDecomposes(px, py, width);
      forall qy: nat | qy < py
        ensures PixelIndex(px, qy, width) != index
      {
        PixelIndexInjective(px, qy, px, py, width);
      }
      buffer := buffer[index := PixelColor(scene, lib, camera, px, py, width, height)];
      written := written + [index];
      py := py + 1;
    }
  }

  /** The outer loop: paints the columns left to right and logs the indices
      in the order they are written. */
  method PaintColumns(scene: Scene, lib: Numerics, camera: Camera, width: nat, height: nat, surface: seq<Color>)
    returns (buffer: seq<Color>, writes: seq<nat>)
    requires |surface| == width * height
    ensures |buffer| == width * height
    ensures writes == Schedule(width, width, height)
    ensures forall px: nat, py: nat :: px < width && py < height
              ==> PixelIndex(px, py, width) < |buffer|
                  && buffer[PixelIndex(px, py, width)] == PixelColor(scene, lib, camera, px, py, width, height)
  {
    buffer, writes := surface, [];
    var px := 0;
    while px < width
      invariant px <= width
      invariant |buffer| == width * height
      invariant writes == Schedule(px, width, height)
      invariant forall qx: nat, qy: nat :: qx < px && qy < height
                  ==> PixelIndex(qx, qy, width) < |buffer|
                      && buffer[PixelIndex(qx, qy, width)] == PixelColor(scene, lib, camera, qx, qy, width, height)
    {
      var before := buffer;
      var column;
      buffer, column := RenderColumn(scene, lib, camera, px, width, height, buffer);
      forall qx: nat, qy: nat | qx < px && qy < height
        ensures buffer[PixelIndex(qx, qy, width)] == before[PixelIndex(qx, qy, width)]
      {
        PixelIndexInRange(qx, qy, width, height);
        PixelIndexDecomposes(qx, qy, width);
      }
      writes := writes + column;
      px := px + 1;
    }
  }

  /** `Renderer::Render` without the clamping and the conversion to the
      surface's pixel format: every pixel of the `width * height` buffer is
      painted with its colour, and the log of written indices visits every
      entry exactly once. */
  method Render(scene: Scene, lib: Numerics, camera: Camera, width: nat, height: nat, surface: seq<Color>)
    returns (buffer: seq<Color>, writes: seq<nat>)
    requires |surface| == width * height
    ensures |buffer| == width * height
    ensures forall px: nat, py: nat :: px < width && py < height
              ==> PixelIndex(px, py, width) < |buffer|
                  && buffer[PixelIndex(px, py, width)] == PixelColor(scene, lib, camera, px, py, width, height)
    ensures |writes| == width * height && Distinct(writes)
    ensures forall j :: 0 <= j < |writes| ==> writes[j] < width * height
    ensures forall i: nat :: i < width * height ==> i in writes
  {
    buffer, writes := PaintColumns(scene, lib, camera, width, height, surface);
    ScheduleCoversColumns(width, width, height);
    forall i: nat | i < width * height
      ensures i in writes
    {
      EveryIndexIsAPixel(i, width, height);
    }
  }
}
