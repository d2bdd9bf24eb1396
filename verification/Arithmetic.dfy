/** Minimum and maximum, and the order of fractions with a common positive denominator. */
module Arithmetic {

  function Min(a: nat, b: nat): nat { if a <= b then a else b }

  function Max(a: nat, b: nat): nat { if a >= b then a else b }

  lemma NotPositive(p: real, m: real)
    requires p <= 0.0 && m > 0.0
    ensures p * m <= 0.0
  {
  }

  lemma MulOrder(x: real, y: real, m: real)
    requires x <= y && m > 0.0
    ensures x * m <= y * m
  {
  }

  lemma SameFactor(q: real, r: real, f: real)
    requires f > 0.0 && q * f == r * f
    ensures q == r
  {
    assert (q - r) * f == 0.0;
  }

  lemma SelfRatio(m: real)
    requires m > 0.0
    ensures m / m == 1.0
  {
    var q := m / m;
    assert q * m == m;
  }

  lemma FractionOrder(x: real, y: real, m: real)
    requires m > 0.0
    ensures x < y <==> x / m < y / m
  {
    var p := y / m - x / m;
    assert p * m == y - x;
    if p <= 0.0 {
      NotPositive(p, m);
    } else {
    }
  }

  /** Where a fraction lies relative to 0 and 1. */
  lemma FractionCompare(x: real, m: real)
    requires m > 0.0
    ensures x / m <= 1.0 <==> x <= m
    ensures x / m == 1.0 <==> x == m
    ensures x / m >= 0.0 <==> x >= 0.0
    ensures x / m == 0.0 <==> x == 0.0
  {
    SelfRatio(m);
    FractionOrder(x, m, m);
    FractionOrder(m, x, m);
    FractionOrder(x, 0.0, m);
    FractionOrder(0.0, x, m);
  }
}
