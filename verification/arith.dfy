/** Small facts about real multiplication and division that the solver does
    not find unaided. */
module Arithmetic {

  lemma MultiplyKeepsOrder(a: real, b: real, c: real)
    requires a <= b && c >= 0.0
    ensures a * c <= b * c && c * a <= c * b
  {
    assert b * c - a * c == (b - a) * c;
  }

  lemma NegativeTimesPositive(a: real, c: real)
    requires a < 0.0 && c > 0.0
    ensures c * a < 0.0
  {
  }

  /** Division undoes multiplication by a non-zero factor. */
  lemma DivideProduct(r: real, v: real)
    requires v != 0.0
    ensures (r * v) / v == r
  {
  }

  /** Dividing both sides of a product inequality by a positive factor. */
  lemma CancelPositive(a: real, b: real, v: real)
    requires v > 0.0 && a * v <= b * v
    ensures a <= b
  {
  }

  lemma QuotientBounds(tax: real, v: real, lo: real, hi: real)
    requires v > 0.0 && lo * v <= tax <= hi * v
    ensures lo <= tax / v <= hi
  {
    var q := tax / v;
    assert q * v == tax;
    CancelPositive(lo, q, v);
    CancelPositive(q, hi, v);
  }

  /** If the first tax is at most m times its value and the second gains at
      least m per extra unit of value, the second ratio is at least the first. */
  lemma RatioRises(t1: real, t2: real, v1: real, v2: real, m: real)
    requires 0.0 < v1 <= v2
    requires t1 <= m * v1
    requires t2 - t1 >= m * (v2 - v1)
    ensures t1 / v1 <= t2 / v2
  {
    var d := v2 - v1;
    MultiplyKeepsOrder(t1, m * v1, d);
    MultiplyKeepsOrder(m * d, t2 - t1, v1);
    assert t1 * d <= m * d * v1;
    assert m * d * v1 <= (t2 - t1) * v1;
    assert t1 * v2 == t1 * v1 + t1 * d;
    assert t2 * v1 == t1 * v1 + (t2 - t1) * v1;
    assert t1 * v2 <= t2 * v1;
    var q1 := t1 / v1;
    var q2 := t2 / v2;
    assert q1 * v1 == t1;
    assert q2 * v2 == t2;
    assert q1 * (v1 * v2) == t1 * v2;
    assert q2 * (v1 * v2) == t2 * v1;
    CancelPositive(q1, q2, v1 * v2);
  }
}
