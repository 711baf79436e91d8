/** Sign and order facts about products and quotients of reals. Each product
    or quotient is passed in as a named value (`s == a * b`): the solver
    relates nonlinear terms only when they are written over the same names,
    so callers name a product once and hand the name around. */
module Arith {

  lemma PositiveProduct(a: real, b: real, s: real)
    requires s == a * b
    requires a > 0.0 && b > 0.0
    ensures s > 0.0
  {
  }

  lemma NonNegativeProduct(a: real, b: real, s: real)
    requires s == a * b
    requires a >= 0.0 && b >= 0.0
    ensures s >= 0.0
  {
    if a > 0.0 && b > 0.0 {
      PositiveProduct(a, b, s);
    }
  }

  /** A square is never negative, and positive unless its root is zero. */
  lemma SquareSign(a: real, s: real)
    requires s == a * a
    ensures s >= 0.0
    ensures a != 0.0 ==> s > 0.0
  {
    if a > 0.0 {
      PositiveProduct(a, a, s);
    } else if a < 0.0 {
      PositiveProduct(-a, -a, s);
    }
  }

  /** Multiplying by a factor in [0, 1] does not increase a non-negative
      value. */
  lemma ShrinkingProduct(a: real, b: real, s: real)
    requires s == a * b
    requires a >= 0.0 && 0.0 <= b <= 1.0
    ensures 0.0 <= s <= a
  {
    NonNegativeProduct(a, b, s);
    var rest := a * (1.0 - b);
    NonNegativeProduct(a, 1.0 - b, rest);
    assert s + rest == a;
  }

  /** Products of values in [0, 1] stay in [0, 1]; a zero factor gives
      zero, two unit factors give one. */
  lemma UnitProduct(a: real, b: real, s: real)
    requires s == a * b
    ensures 0.0 <= a <= 1.0 && 0.0 <= b <= 1.0 ==> 0.0 <= s <= 1.0
    ensures a == 0.0 || b == 0.0 ==> s == 0.0
    ensures a == 1.0 && b == 1.0 ==> s == 1.0
  {
    if 0.0 <= a <= 1.0 && 0.0 <= b <= 1.0 {
      ShrinkingProduct(a, b, s);
    }
  }

  /** Multiplying by a positive factor keeps an order, by a negative factor
      reverses it. */
  lemma ScaleOrder(k: real, x: real, y: real, kx: real, ky: real)
    requires kx == k * x && ky == k * y
    ensures k > 0.0 ==> (x <= y <==> kx <= ky)
    ensures k < 0.0 ==> (x <= y <==> ky <= kx)
  {
    var difference := ky - kx;
    assert difference == k * (y - x);
  }

  /** A quotient of a value in [0, d] by a positive `d` lies in [0, 1]. */
  lemma UnitQuotient(n: real, d: real, q: real)
    requires d > 0.0 && 0.0 <= n <= d
    requires q == n / d
    ensures 0.0 <= q <= 1.0
  {
    var dq := d * q;
    assert dq == n;
    ScaleOrder(d, q, 1.0, dq, d * 1.0);
    if q < 0.0 {
      ScaleOrder(d, q, 0.0, dq, d * 0.0);
    }
  }

  /** A non-negative numerator over a positive denominator. */
  lemma NonNegativeQuotient(n: real, d: real, q: real)
    requires d > 0.0 && n >= 0.0
    requires q == n / d
    ensures q >= 0.0
  {
    var dq := d * q;
    assert dq == n;
    if q < 0.0 {
      ScaleOrder(d, q, 0.0, dq, d * 0.0);
    }
  }

  /** Strict bounds `lo * d < n < hi * d` on a numerator become strict
      bounds `lo < q < hi` on its quotient by a positive `d`. */
  lemma QuotientBetween(n: real, d: real, q: real, lo: real, hi: real, ld: real, hd: real)
    requires d > 0.0 && q == n / d
    requires ld == lo * d && hd == hi * d
    ensures ld < n ==> lo < q
    ensures n < hd ==> q < hi
  {
    var dq := d * q;
    assert dq == n;
    ScaleOrder(d, q, lo, dq, ld);
    ScaleOrder(d, hi, q, hd, dq);
  }

  /** A non-zero factor cancels from both sides of an equation. */
  lemma CancelFactor(a: real, b: real, d: real, ad: real, bd: real)
    requires ad == a * d && bd == b * d
    requires ad == bd && d != 0.0
    ensures a == b
  {
    ScaleOrder(d, a, b, ad, bd);
    ScaleOrder(d, b, a, bd, ad);
  }

  /** Multiplying integers by a non-negative factor keeps their order. */
  lemma IntScaleOrder(a: int, b: int, w: int, aw: int, bw: int)
    requires aw == a * w && bw == b * w
    requires w >= 0 && a <= b
    ensures aw <= bw
  {
    var gap := (b - a) * w;
    assert bw - aw == gap;
  }
}
