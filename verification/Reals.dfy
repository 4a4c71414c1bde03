/** Products, powers and error bounds of reals. */
module Reals {

  function Power(r: real, n: nat): real {
    if n == 0 then 1.0 else r * Power(r, n - 1)
  }

  lemma PowerNext(r: real, n: nat)
    ensures Power(r, n + 1) == r * Power(r, n)
  {
  }

  predicate Near(a: real, b: real, error: real) {
    b - error <= a <= b + error
  }

  lemma NotNegative(a: real, b: real)
    requires a >= 0.0 && b >= 0.0
    ensures a * b >= 0.0
  {
  }

  lemma RealTimesMonotone(a: real, b: real, c: real)
    requires a <= b && c >= 0.0
    ensures a * c <= b * c
  {
    NotNegative(b - a, c);
    assert (b - a) * c == b * c - a * c;
  }

  lemma ProductBounded(a: real, bound: real, b: real, limit: real)
    requires -bound <= a <= bound && -limit <= b <= limit
    ensures -(bound * limit) <= a * b <= bound * limit
  {
    var size, factor := if a < 0.0 then -a else a, if b < 0.0 then -b else b;
    RealTimesMonotone(size, bound, factor);
    RealTimesMonotone(factor, limit, bound);
    NotNegative(size, factor);
    assert a * b == size * factor || a * b == -(size * factor);
  }
}
