/** `LightUtils` of Utils.h: the vector from a surface point to a point
    light, and the light's radiance arriving there. */
module Lights {
  import opened Arith
  import opened Geometry

  /** `GetDirectionToLight`: the unnormalised vector from `origin` to the
      light. */
  function DirectionToLight(light: Light, origin: Vec3): (d: Vec3)
    ensures Add(origin, d) == light.origin
  {
    Sub(light.origin, origin)
  }

  /** `GetRadiance`: the light's colour times its intensity over the squared
      distance to the target. The target must not sit on the light itself,
      where the distance vanishes. */
  function Radiance(light: Light, target: Vec3): (c: Color)
    requires target != light.origin
    ensures var d2 := SqrMagnitude(Sub(light.origin, target));
            d2 > 0.0
            && c.r * d2 == light.color.r * light.intensity
            && c.g * d2 == light.color.g * light.intensity
            && c.b * d2 == light.color.b * light.intensity
  {
    var w := Sub(light.origin, target);
    SubVanishesOnlyOnEqual(light.origin, target);
    SelfDotSign(w);
    ScaleColor(light.color, light.intensity / SqrMagnitude(w))
  }

  /** A light with a non-negative colour and intensity sends non-negative
      radiance. */
  lemma RadianceNonNegative(light: Light, target: Vec3)
    requires target != light.origin
    requires NonNegative(light.color) && light.intensity >= 0.0
    ensures NonNegative(Radiance(light, target))
  {
    var d2 := SqrMagnitude(Sub(light.origin, target));
    var c := Radiance(light, target);
    var k := light.intensity / d2;
    assert c == ScaleColor(light.color, k);
    NonNegativeQuotient(light.intensity, d2, k);
    NonNegativeProduct(light.color.r, k, c.r);
    NonNegativeProduct(light.color.g, k, c.g);
    NonNegativeProduct(light.color.b, k, c.b);
  }

  /** The inverse-square law: a target twice as far from the light, in the
      same direction, receives a quarter of the radiance. */
  lemma InverseSquareLaw(light: Light, target: Vec3)
    requires target != light.origin
    ensures var farther := Sub(light.origin, Scale(Sub(light.origin, target), 2.0));
            farther != light.origin
            && Radiance(light, farther) == ScaleColor(Radiance(light, target), 0.25)
  {
    var w := Sub(light.origin, target);
    var farther := Sub(light.origin, Scale(w, 2.0));
    assert Sub(light.origin, farther) == Scale(w, 2.0);
    var d2 := SqrMagnitude(w);
    assert SqrMagnitude(Scale(w, 2.0)) == 4.0 * d2;
    SubVanishesOnlyOnEqual(light.origin, target);
    SelfDotSign(w);
    var w2 := Scale(w, 2.0);
    assert SqrMagnitude(w2) > 0.0;
    assert w2 != Zero;
    SubVanishesOnlyOnEqual(light.origin, farther);
    assert farther != light.origin;
    var k := light.intensity / d2;
    var k4 := light.intensity / (4.0 * d2);
    var kd, k4d := k * d2, (4.0 * k4) * d2;
    assert kd == light.intensity;
    assert k4d == k4 * (4.0 * d2) == light.intensity;
    CancelFactor(4.0 * k4, k, d2, k4d, kd);
    var c := light.color;
    assert Radiance(light, farther) == ScaleColor(c, k4);
    assert Radiance(light, target) == ScaleColor(c, k);
  }
}
