/** Small functions used throughout, and the facts about products and quotients the solver does not find by itself. */
module Arith {

  lemma TimesMonotone(a: int, b: int, c: int)
    requires a <= b && 0 <= c
    ensures a * c <= b * c
  {
  }

  lemma TimesSuccessor(c: int, n: int)
    ensures (c + 1) * n == c * n + n
  {
  }

  lemma TimesAssociative(a: int, b: int, c: int)
    ensures (a * b) * c == a * (b * c)
  {
  }

  lemma TimesDistributes(a: int, b: int, c: int)
    ensures (a + b) * c == a * c + b * c
    ensures c * (a + b) == c * a + c * b
  {
  }

  lemma DivModUnique(x: int, e: int, c: int, r: int)
    requires e >= 1 && 0 <= r < e && x == e * c + r
    ensures x / e == c && x % e == r
  {
    var q, s := x / e, x % e;
    assert e * q == x - s;
    if q > c {
      TimesMonotone(c + 1, q, e);
      TimesSuccessor(c, e);
    } else if q < c {
      TimesMonotone(q + 1, c, e);
      TimesSuccessor(q, e);
    }
  }

  lemma QuotientBelow(a: int, b: int, n: int)
    requires b > 0 && 0 <= a < n * b
    ensures 0 <= a / b < n
  {
    var q := a / b;
    assert b * q <= a;
    if q >= n {
      TimesMonotone(n, q, b);
    }
  }

  function Min(a: int, b: int): int {
    if a < b then a else b
  }

  function Max(a: int, b: int): int {
    if a > b then a else b
  }

  function Pow2(n: nat): (r: nat)
    ensures r >= 1
  {
    if n == 0 then 1 else 2 * Pow2(n - 1)
  }

  lemma {:induction false} Pow2Monotone(m: nat, n: nat)
    requires m <= n
    ensures Pow2(m) <= Pow2(n)
    decreases n
  {
    if m < n {
      Pow2Monotone(m, n - 1);
    }
  }

  function SumOf(s: seq<int>): int {
    if s == [] then 0 else SumOf(s[..|s| - 1]) + s[|s| - 1]
  }
}
