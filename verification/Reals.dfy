/** Real-number helpers shared by the modules that stand in for float64 code. */
module Reals {

  function Min(a: real, b: real): real {
    if a < b then a else b
  }

  function Max(a: real, b: real): real {
    if a > b then a else b
  }

  function Abs(a: real): real {
    if a < 0.0 then -a else a
  }

  function Sq(x: real): real {
    x * x
  }

  /** `h` behaves like math.Hypot: the non-negative root of the sum of squares. */
  ghost predicate IsHypot(h: (real, real) -> real) {
    forall x: real, y: real :: h(x, y) >= 0.0 && Sq(h(x, y)) == Sq(x) + Sq(y)
  }

  // The product is a parameter of its own in the next lemmas: stated on `a * b`
  // directly, the solver rewrites the sign condition and loses the product.

  lemma MulPositive(a: real, b: real, p: real)
    requires a > 0.0 && b > 0.0 && p == a * b
    ensures p > 0.0
  {
  }

  lemma SquarePositive(x: real, p: real)
    requires x != 0.0 && p == x * x
    ensures p > 0.0
  {
    if x > 0.0 {
      MulPositive(x, x, p);
    } else {
      MulPositive(-x, -x, p);
    }
  }

  lemma SqSign(x: real)
    ensures if x == 0.0 then Sq(x) == 0.0 else Sq(x) > 0.0
  {
    if x != 0.0 {
      SquarePositive(x, Sq(x));
    }
  }

  /** A direction that is not null has a positive length. */
  lemma HypotPositive(h: (real, real) -> real, x: real, y: real)
    requires IsHypot(h)
    requires x != 0.0 || y != 0.0
    ensures h(x, y) > 0.0
  {
    SqSign(x);
    SqSign(y);
    SqSign(h(x, y));
  }

  /** Products with a non-negative factor keep order. */
  lemma MulMono(r: real, a: real, b: real)
    requires r >= 0.0 && a <= b
    ensures r * a <= r * b
  {
  }

  lemma MulSplit(r: real, a: real, b: real)
    ensures r * a + r * b == r * (a + b)
  {
  }

  lemma StrictSq(a: real, b: real)
    requires 0.0 <= a < b
    ensures Sq(a) < Sq(b)
  {
    MulMono(a, a, b);
    MulPositive(b, b - a, b * (b - a));
    assert Sq(b) - a * b == b * (b - a);
  }

  lemma SqProduct(x: real, t: real)
    ensures Sq(x * t) == Sq(x) * Sq(t)
  {
  }

  lemma SqOfProduct(x: real, t: real, p: real)
    requires p == x * t
    ensures Sq(p) == Sq(x) * Sq(t)
  {
    SqProduct(x, t);
  }

  lemma SqInjective(a: real, b: real)
    requires a >= 0.0 && b >= 0.0 && Sq(a) == Sq(b)
    ensures a == b
  {
    if a < b {
      StrictSq(a, b);
    } else if b < a {
      StrictSq(b, a);
    }
  }

  /** The length depends on the sum of squares only. */
  lemma SameLength(h: (real, real) -> real, x: real, y: real, d: real)
    requires IsHypot(h) && d >= 0.0 && Sq(x) + Sq(y) == Sq(d)
    ensures h(x, y) == d
  {
    SqInjective(h(x, y), d);
  }

  lemma CancelFactor(a: real, f: real, p: real)
    requires f > 0.0 && p == a * f && p == f
    ensures a == 1.0
  {
    var d := a - 1.0;
    assert d * f == 0.0;
  }

  lemma SumTimes(a: real, b: real, f: real, p: real, q: real)
    requires p == a * f && q == b * f
    ensures (a + b) * f == p + q
  {
  }

  lemma SumIsOne(a: real, b: real, f: real, p: real, q: real)
    requires f > 0.0 && p == a * f && q == b * f && p + q == f
    ensures a + b == 1.0
  {
    SumTimes(a, b, f, p, q);
    CancelFactor(a + b, f, p + q);
  }

  lemma UnitVector(dx: real, dy: real, len: real, u: real, v: real)
    requires len > 0.0 && u * len == dx && v * len == dy && Sq(len) == Sq(dx) + Sq(dy)
    ensures Sq(u) + Sq(v) == 1.0
  {
    hide Sq;
    SqSign(len);
    SqOfProduct(u, len, dx);
    SqOfProduct(v, len, dy);
    SumIsOne(Sq(u), Sq(v), Sq(len), Sq(dx), Sq(dy));
  }

  lemma ScaleUnit(u: real, v: real, d: real)
    requires Sq(u) + Sq(v) == 1.0
    ensures Sq(u * d) + Sq(v * d) == Sq(d)
  {
    hide Sq;
    SqProduct(u, d);
    SqProduct(v, d);
    SumTimes(Sq(u), Sq(v), Sq(d), Sq(u * d), Sq(v * d));
  }

  lemma SqNegate(x: real)
    ensures Sq(-x) == Sq(x)
  {
  }
}
