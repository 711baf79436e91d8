/** The reflectance terms of BRDFs.h: Lambert diffuse, Phong specular, and
    the Cook-Torrance ingredients (Schlick's Fresnel approximation, the
    Trowbridge-Reitz GGX normal distribution, and the Schlick-GGX and Smith
    geometry terms). */
module Brdf {
  import opened Arith
  import opened Geometry

  /** `static_cast<float>(M_PI)`: the float nearest to π, exactly. */
  const Pi: real := 3.1415927410125732421875

  function DivideColor(c: Color, s: real): Color
    requires s != 0.0
  {
    Color(c.r / s, c.g / s, c.b / s)
  }

  // ================================================================ Lambert

  /** `Lambert(kd, cd)` with a per-channel reflection coefficient: each
      channel of the diffuse colour, weighted by its coefficient, over π. */
  function Lambert(kd: Color, cd: Color): (r: Color)
    ensures r.r * Pi == cd.r * kd.r && r.g * Pi == cd.g * kd.g && r.b * Pi == cd.b * kd.b
  {
    DivideColor(MulColor(cd, kd), Pi)
  }

  /** `Lambert(kd, cd)` with one coefficient for all channels: the
      per-channel overload at a grey coefficient. */
  function LambertScalar(kd: real, cd: Color): (r: Color)
    ensures r == Lambert(Gray(kd), cd)
  {
    DivideColor(ScaleColor(cd, kd), Pi)
  }

  /** No diffuse coefficient, no diffuse light. */
  lemma LambertOfZeroIsBlack(cd: Color)
    ensures Lambert(Black, cd) == Black
    ensures LambertScalar(0.0, cd) == Black
  {
    var r := Lambert(Black, cd);
    var zr, zg, zb := cd.r * 0.0, cd.g * 0.0, cd.b * 0.0;
    assert zr == 0.0 && zg == 0.0 && zb == 0.0;
    assert r == Color(zr / Pi, zg / Pi, zb / Pi);
  }

  /** Lambert is linear in the coefficient: it adds over sums and commutes
      with scaling. */
  lemma LambertIsLinear(kd1: Color, kd2: Color, s: real, cd: Color)
    ensures Lambert(AddColor(kd1, kd2), cd) == AddColor(Lambert(kd1, cd), Lambert(kd2, cd))
    ensures Lambert(ScaleColor(kd1, s), cd) == ScaleColor(Lambert(kd1, cd), s)
  {
    LambertAdds(kd1, kd2, cd);
    LambertScales(kd1, s, cd);
  }

  lemma LambertAdds(kd1: Color, kd2: Color, cd: Color)
    ensures Lambert(AddColor(kd1, kd2), cd) == AddColor(Lambert(kd1, cd), Lambert(kd2, cd))
  {
    var sum, a, b := Lambert(AddColor(kd1, kd2), cd), Lambert(kd1, cd), Lambert(kd2, cd);
    ChannelAdds(cd.r, kd1.r, kd2.r, Pi, sum.r, a.r, b.r);
    ChannelAdds(cd.g, kd1.g, kd2.g, Pi, sum.g, a.g, b.g);
    ChannelAdds(cd.b, kd1.b, kd2.b, Pi, sum.b, a.b, b.b);
  }

  lemma LambertScales(kd: Color, s: real, cd: Color)
    ensures Lambert(ScaleColor(kd, s), cd) == ScaleColor(Lambert(kd, cd), s)
  {
    var scaled, a := Lambert(ScaleColor(kd, s), cd), Lambert(kd, cd);
    ChannelScales(cd.r, kd.r, s, Pi, scaled.r, a.r);
    ChannelScales(cd.g, kd.g, s, Pi, scaled.g, a.g);
    ChannelScales(cd.b, kd.b, s, Pi, scaled.b, a.b);
  }

  /** One channel of a weighted colour over a divisor adds over its weights. */
  lemma ChannelAdds(c: real, k1: real, k2: real, p: real, sum: real, a: real, b: real)
    requires p != 0.0
    requires sum == c * (k1 + k2) / p && a == c * k1 / p && b == c * k2 / p
    ensures sum == a + b
  {
    assert c * (k1 + k2) == c * k1 + c * k2;
  }

  /** One channel of a weighted colour over a divisor commutes with scaling
      its weight. */
  lemma ChannelScales(c: real, k: real, s: real, p: real, scaled: real, a: real)
    requires p != 0.0
    requires scaled == c * (k * s) / p && a == c * k / p
    ensures scaled == a * s
  {
    var ck := c * k;
    assert c * (k * s) == ck * s;
    assert ck * s / p == ck / p * s;
  }

  /** With coefficient and colour in [0, 1] every channel lies in [0, 1/π]:
      a diffuse surface never reflects more than it receives. */
  lemma LambertBounded(kd: Color, cd: Color)
    requires InUnitRange(kd) && InUnitRange(cd)
    ensures var r := Lambert(kd, cd);
            0.0 <= r.r <= 1.0 / Pi && 0.0 <= r.g <= 1.0 / Pi && 0.0 <= r.b <= 1.0 / Pi
  {
    var pr, pg, pb := cd.r * kd.r, cd.g * kd.g, cd.b * kd.b;
    ShrinkingProduct(1.0, cd.r, cd.r * 1.0);
    ShrinkingProduct(cd.r, kd.r, pr);
    ShrinkingProduct(cd.g, kd.g, pg);
    ShrinkingProduct(cd.b, kd.b, pb);
    assert Lambert(kd, cd) == Color(pr / Pi, pg / Pi, pb / Pi);
  }

  // ================================================================== Phong

  /** The cosine Phong raises to its exponent: the reflected light direction
      against the view direction. */
  function PhongCosine(lib: Numerics, l: Vec3, v: Vec3, n: Vec3): real {
    Dot(lib.reflect(n, l), v)
  }

  /** `Phong`: black when the reflection points away from the viewer,
      otherwise a grey of `ks · cos^exp`. */
  function Phong(lib: Numerics, ks: real, exp: real, l: Vec3, v: Vec3, n: Vec3): (r: Color)
    ensures PhongCosine(lib, l, v, n) < 0.0 ==> r == Black
    ensures r.r == r.g == r.b
  {
    var cosA := PhongCosine(lib, l, v, n);
    if cosA < 0.0 then Black
    else Gray(ks * lib.pow(cosA, exp))
  }

  /** With a non-negative coefficient and a `pow` that keeps non-negative
      bases non-negative, Phong never subtracts light. */
  lemma PhongNonNegative(lib: Numerics, ks: real, exp: real, l: Vec3, v: Vec3, n: Vec3)
    requires PowIsNonNegative(lib) && ks >= 0.0
    ensures NonNegative(Phong(lib, ks, exp, l, v, n))
  {
    var cosA := PhongCosine(lib, l, v, n);
    if cosA >= 0.0 {
      var p := lib.pow(cosA, exp);
      NonNegativeProduct(ks, p, ks * p);
    }
  }

  /** A reflection that faces the viewer gives the coefficient times the
      powered cosine on every channel; in particular a perfect mirror
      alignment with `pow(1, e) = 1` gives `ks` itself. */
  lemma PhongFacingViewer(lib: Numerics, ks: real, exp: real, l: Vec3, v: Vec3, n: Vec3)
    requires PhongCosine(lib, l, v, n) >= 0.0
    ensures Phong(lib, ks, exp, l, v, n) == Gray(ks * lib.pow(PhongCosine(lib, l, v, n), exp))
    ensures PhongCosine(lib, l, v, n) == 1.0 && lib.pow(1.0, exp) == 1.0 ==> Phong(lib, ks, exp, l, v, n) == Gray(ks)
  {
  }

  // ================================================================ Fresnel

  function Fifth(c: real): real {
    c * c * c * c * c
  }

  lemma FifthInUnit(c: real)
    requires 0.0 <= c <= 1.0
    ensures 0.0 <= Fifth(c) <= 1.0
  {
    var c2 := c * c;
    var c3 := c2 * c;
    var c4 := c3 * c;
    var c5 := c4 * c;
    ShrinkingProduct(c, c, c2);
    ShrinkingProduct(c2, c, c3);
    ShrinkingProduct(c3, c, c4);
    ShrinkingProduct(c4, c, c5);
    assert Fifth(c) == c5;
  }

  /** One channel of Schlick's approximation. */
  function SchlickChannel(f0: real, cosTheta: real): real {
    f0 + (1.0 - f0) * Fifth(cosTheta)
  }

  /** `FresnelFunction_Schlick`: the base reflectivity, raised towards white
      by the fifth power of `1 - v·h`. */
  function Fresnel(h: Vec3, v: Vec3, f0: Color): (r: Color)
    ensures Dot(v, h) == 1.0 ==> r == f0
    ensures Dot(v, h) == 0.0 ==> r == White
  {
    var cosTheta := 1.0 - Dot(v, h);
    Color(SchlickChannel(f0.r, cosTheta), SchlickChannel(f0.g, cosTheta), SchlickChannel(f0.b, cosTheta))
  }

  /** For `v·h` in [0, 1] each channel lies between the base reflectivity
      and 1: Fresnel only ever brightens towards white. */
  lemma FresnelBetweenBaseAndWhite(h: Vec3, v: Vec3, f0: Color)
    requires InUnitRange(f0) && 0.0 <= Dot(v, h) <= 1.0
    ensures var r := Fresnel(h, v, f0);
            f0.r <= r.r <= 1.0 && f0.g <= r.g <= 1.0 && f0.b <= r.b <= 1.0
  {
    var c := 1.0 - Dot(v, h);
    FifthInUnit(c);
    var p := Fifth(c);
    var qr, qg, qb := (1.0 - f0.r) * p, (1.0 - f0.g) * p, (1.0 - f0.b) * p;
    ShrinkingProduct(1.0 - f0.r, p, qr);
    ShrinkingProduct(1.0 - f0.g, p, qg);
    ShrinkingProduct(1.0 - f0.b, p, qb);
  }

  // ==================================================================== GGX

  /** `cos²·(a² - 1) + 1` with `a` the squared roughness. */
  function GgxDistribution(n: Vec3, h: Vec3, roughness: real): real {
    var cosTheta := Dot(n, h);
    var a := roughness * roughness;
    cosTheta * cosTheta * (a * a - 1.0) + 1.0
  }

  /** `NormalDistribution_GGX`: `a² / (π · distribution²)`. The float code
      divides by zero for a perfectly smooth surface seen along its normal;
      the model asks for a non-zero distribution. */
  function Ggx(n: Vec3, h: Vec3, roughness: real): (r: real)
    requires GgxDistribution(n, h, roughness) != 0.0
    ensures r >= 0.0
  {
    var a := roughness * roughness;
    var d := GgxDistribution(n, h, roughness);
    var a2, d2 := a * a, d * d;
    SquareSign(a, a2);
    SquareSign(d, d2);
    var denominator := Pi * d * d;
    assert denominator == Pi * d2;
    PositiveProduct(Pi, d2, denominator);
    NonNegativeQuotient(a2, denominator, a2 / denominator);
    a * a / (Pi * d * d)
  }

  /** On physically valid inputs (roughness in (0, 1], `n·h` in [-1, 1] as
      for unit vectors) the denominator term is at least `a²`, so the
      distribution is defined and non-negative. */
  lemma GgxDefinedOnValidInputs(n: Vec3, h: Vec3, roughness: real)
    requires 0.0 < roughness <= 1.0 && -1.0 <= Dot(n, h) <= 1.0
    ensures GgxDistribution(n, h, roughness) > 0.0
    ensures Ggx(n, h, roughness) >= 0.0
  {
    var c := Dot(n, h);
    var c2 := c * c;
    if c >= 0.0 {
      ShrinkingProduct(c, c, c2);
    } else {
      ShrinkingProduct(-c, -c, c2);
    }
    var a := roughness * roughness;
    UnitProduct(roughness, roughness, a);
    SquareSign(roughness, a);
    var a2 := a * a;
    UnitProduct(a, a, a2);
    SquareSign(a, a2);
    var slack := (1.0 - c2) * (1.0 - a2);
    NonNegativeProduct(1.0 - c2, 1.0 - a2, slack);
    assert GgxDistribution(n, h, roughness) == slack + a2;
  }

  /** Along the normal (`n·h = 1`) the distribution peaks at `1 / (π a²)`. */
  lemma GgxAlongNormal(n: Vec3, h: Vec3, roughness: real)
    requires Dot(n, h) == 1.0 && roughness != 0.0
    ensures GgxDistribution(n, h, roughness) != 0.0
    ensures var a := roughness * roughness;
            Ggx(n, h, roughness) * (Pi * (a * a)) == 1.0
  {
    var a := roughness * roughness;
    SquareSign(roughness, a);
    var a2 := a * a;
    SquareSign(a, a2);
    var d := GgxDistribution(n, h, roughness);
    assert d == a2;
    var r := Ggx(n, h, roughness);
    var denominator := Pi * d * d;
    assert denominator == (Pi * a2) * a2;
    PositiveProduct(Pi, a2, Pi * a2);
    PositiveProduct(Pi * a2, a2, denominator);
    assert r * denominator == a2;
    var left, right := (r * (Pi * a2)) * a2, 1.0 * a2;
    CancelFactor(r * (Pi * a2), 1.0, a2, left, right);
  }

  // ============================================================= Schlick-GGX

  /** `kDirect = (roughness² + 1)² / 8`, the direct-lighting remapping of
      the roughness as the code writes it. */
  function SchlickK(roughness: real): (k: real)
    ensures k >= 0.125
  {
    var alpha := roughness * roughness + 1.0;
    SquareSign(roughness, roughness * roughness);
    var alpha2 := alpha * alpha;
    ShrinkingProduct(alpha, 1.0, alpha * 1.0);
    assert alpha >= 1.0;
    ScaleOrder(alpha, 1.0, alpha, alpha * 1.0, alpha2);
    alpha * alpha / 8.0
  }

  function SchlickDenominator(dot: real, k: real): real {
    dot * (1.0 - k) + k
  }

  /** On dots in [0, 1] the denominator lies between the dot and a positive
      bound, so it never vanishes there. */
  lemma SchlickDenominatorBounds(dot: real, k: real)
    requires 0.0 <= dot <= 1.0 && k > 0.0
    ensures SchlickDenominator(dot, k) >= dot
    ensures SchlickDenominator(dot, k) > 0.0
  {
    var rest := k * (1.0 - dot);
    NonNegativeProduct(k, 1.0 - dot, rest);
    assert SchlickDenominator(dot, k) == dot + rest;
    if dot < 1.0 {
      PositiveProduct(k, 1.0 - dot, rest);
    }
  }

  lemma SchlickQuotientInUnit(dot: real, k: real)
    requires k > 0.0 && dot >= 0.0 && SchlickDenominator(dot, k) != 0.0
    ensures dot <= 1.0 ==> 0.0 <= dot / SchlickDenominator(dot, k) <= 1.0
    ensures dot == 1.0 ==> dot / SchlickDenominator(dot, k) == 1.0
  {
    var denominator := SchlickDenominator(dot, k);
    if dot <= 1.0 {
      SchlickDenominatorBounds(dot, k);
      UnitQuotient(dot, denominator, dot / denominator);
    }
  }

  /** `GeometryFunction_SchlickGGX`: zero for a direction below the
      surface, otherwise `dot / (dot·(1 - k) + k)`. Above a dot of 1 the
      float denominator can vanish; the model asks that it does not. */
  function SchlickGgx(n: Vec3, v: Vec3, roughness: real): (r: real)
    requires Dot(n, v) < 0.0 || SchlickDenominator(Dot(n, v), SchlickK(roughness)) != 0.0
    ensures Dot(n, v) < 0.0 ==> r == 0.0
    ensures 0.0 <= Dot(n, v) <= 1.0 ==> 0.0 <= r <= 1.0
    ensures Dot(n, v) == 1.0 ==> r == 1.0
  {
    var dot := Dot(n, v);
    if dot < 0.0 then 0.0
    else
      var k := SchlickK(roughness);
      SchlickQuotientInUnit(dot, k);
      dot / SchlickDenominator(dot, k)
  }

  /** The Schlick-GGX term is defined for every direction whose dot with the
      normal is at most 1, which covers unit vectors. */
  lemma SchlickGgxDefinedOnUnitDots(n: Vec3, v: Vec3, roughness: real)
    requires Dot(n, v) <= 1.0
    ensures Dot(n, v) < 0.0 || SchlickDenominator(Dot(n, v), SchlickK(roughness)) != 0.0
  {
    if Dot(n, v) >= 0.0 {
      SchlickDenominatorBounds(Dot(n, v), SchlickK(roughness));
    }
  }

  // ================================================================== Smith

  predicate SmithDefined(n: Vec3, v: Vec3, l: Vec3, roughness: real) {
    (Dot(n, v) < 0.0 || SchlickDenominator(Dot(n, v), SchlickK(roughness)) != 0.0)
    && (Dot(n, l) < 0.0 || SchlickDenominator(Dot(n, l), SchlickK(roughness)) != 0.0)
  }

  /** `GeometryFunction_Smith`: the Schlick-GGX masking of the view direction
      times the shadowing of the light direction. */
  function Smith(n: Vec3, v: Vec3, l: Vec3, roughness: real): (r: real)
    requires SmithDefined(n, v, l, roughness)
    ensures Dot(n, v) < 0.0 || Dot(n, l) < 0.0 ==> r == 0.0
    ensures 0.0 <= Dot(n, v) <= 1.0 && 0.0 <= Dot(n, l) <= 1.0 ==> 0.0 <= r <= 1.0
    ensures Dot(n, v) == 1.0 && Dot(n, l) == 1.0 ==> r == 1.0
  {
    var gv := SchlickGgx(n, v, roughness);
    var gl := SchlickGgx(n, l, roughness);
    UnitProduct(gv, gl, gv * gl);
    gv * gl
  }
}
