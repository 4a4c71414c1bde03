/**
  What the change of basis in the root search means, modulo 32-bit wrap-around: it turns a series in
  2 cos(m w) into one in powers of x = 2 cos(w), with the same value at every x and, taken formally with
  x = z + 1/z, with the same coefficient at every power of z.
 */
module TransPolyMeaning {
  import opened Arith
  import opened Fixed
  import opened A2Nlsf

  function Dot(p: seq<int>, f: int -> int): int {
    if p == [] then 0 else Dot(p[..|p| - 1], f) + p[|p| - 1] * f(|p| - 1)
  }

  predicate Congruent(a: int, b: int) {
    (a - b) % TWO32 == 0
  }

  lemma CongruentTransitive(a: int, b: int, c: int)
    requires Congruent(a, b) && Congruent(b, c)
    ensures Congruent(a, c)
  {
  }

  lemma WrapCongruent(x: int) returns (c: int)
    ensures Wrap32(x) == x + c * TWO32
  {
    c := -((x + TWO31) / TWO32);
  }

  /** Moving `times` of the upper coefficient over to the lower one, whose function the upper one takes up. */
  lemma MovedValue(before: int, after: int, upper: int, times: int, change: int, low: int, c: int)
    requires change == -(times * upper) + c * TWO32
    requires after == before + upper * (times * low) + change * low
    ensures Congruent(after, before)
  {
    TimesDistributes(-(times * upper), c * TWO32, low);
    assert (times * upper) * low == upper * (times * low);
    assert after - before == (c * low) * TWO32;
  }

  lemma {:induction false} DotUpdate(p: seq<int>, i: nat, v: int, f: int -> int)
    requires i < |p|
    ensures Dot(p[i := v], f) == Dot(p, f) + (v - p[i]) * f(i)
  {
    var n := |p| - 1;
    if i < n {
      DotUpdate(p[..n], i, v, f);
      assert p[i := v][..n] == p[..n][i := v];
    } else {
      assert p[i := v][..n] == p[..n];
      TimesDistributes(v - p[i], p[i], f(i));
    }
  }

  lemma {:induction false} DotAgree(p: seq<int>, f: int -> int, g: int -> int)
    requires forall i :: 0 <= i < |p| ==> f(i) == g(i)
    ensures Dot(p, f) == Dot(p, g)
  {
    if p != [] {
      DotAgree(p[..|p| - 1], f, g);
    }
  }

  lemma {:induction false} DotChange(p: seq<int>, f: int -> int, g: int -> int, n: nat)
    requires n < |p| && forall i :: 0 <= i < |p| && i != n ==> f(i) == g(i)
    ensures Dot(p, g) == Dot(p, f) + p[n] * (g(n) - f(n))
  {
    var m := |p| - 1;
    if n < m {
      DotChange(p[..m], f, g, n);
    } else {
      DotAgree(p[..m], f, g);
      TimesDistributes(f(n), g(n) - f(n), p[n]);
    }
  }

  // ----- two ways to look at a series in x = z + 1/z -----

  /** Its value at a number x, or its coefficient at z^e. */
  datatype Aspect = ValueAt(x: int) | CoefficientAt(e: int)

  /** 2 cos(k w) as a polynomial in x = 2 cos(w). */
  function Cheb(k: nat, x: int): int {
    if k == 0 then 2 else if k == 1 then x else x * Cheb(k - 1, x) - Cheb(k - 2, x)
  }

  function Power(x: int, n: nat): int {
    if n == 0 then 1 else x * Power(x, n - 1)
  }

  /** The coefficient of (z + 1/z)^a at z^e. */
  function Laurent(a: nat, e: int): int {
    if a == 0 then (if e == 0 then 1 else 0) else Laurent(a - 1, e - 1) + Laurent(a - 1, e + 1)
  }

  /** x^a. */
  function PowerOf(v: Aspect, a: nat): int {
    match v
    case ValueAt(x) => Power(x, a)
    case CoefficientAt(e) => Laurent(a, e)
  }

  /** x^a (z^b + z^-b). */
  function Mixed(v: Aspect, a: nat, b: nat): int {
    match v
    case ValueAt(x) => Power(x, a) * Cheb(b, x)
    case CoefficientAt(e) => Laurent(a, e - b) + Laurent(a, e + b)
  }

  lemma MixedEnds(v: Aspect, a: nat)
    ensures Mixed(v, a, 0) == 2 * PowerOf(v, a)
    ensures Mixed(v, a, 1) == PowerOf(v, a + 1)
  {
  }

  /** Multiplying z^b + z^-b by z + 1/z. */
  lemma MixedStep(v: Aspect, a: nat, b: nat)
    requires b >= 1
    ensures Mixed(v, a + 1, b) == Mixed(v, a, b + 1) + Mixed(v, a, b - 1)
  {
    match v
    case ValueAt(x) =>
      var lower, c1, c0 := Power(x, a), Cheb(b, x), Cheb(b - 1, x);
      assert Cheb(b + 1, x) == x * c1 - c0;
      assert (x * lower) * c1 == lower * (x * c1 - c0) + lower * c0;
    case CoefficientAt(e) =>
  }

  /** What the coefficients stand for when pass k has come down to index n. */
  function Basis(v: Aspect, k: nat, n: nat): int -> int
    requires k >= 2
  {
    (m: int) =>
      if m < 0 then 0
      else if m <= k - 2 then PowerOf(v, m)
      else if m > n && m >= k then Mixed(v, k - 1, m - k + 1)
      else Mixed(v, k - 2, m - k + 2)
  }

  /** Where one index goes over to the next basis it takes up the function two places below. */
  lemma BasisStep(v: Aspect, k: nat, n: nat)
    requires 2 <= k < n
    ensures Basis(v, k, n - 1)(n) == Basis(v, k, n)(n) + Basis(v, k, n)(n - 2)
  {
    hide Mixed, PowerOf;
    MixedStep(v, k - 2, n - k + 1);
    MixedEnds(v, k - 2);
  }

  /** The other functions stay as they are. */
  lemma BasisSame(v: Aspect, k: nat, n: nat, i: nat)
    requires 2 <= k <= n && i != n
    ensures Basis(v, k, n - 1)(i) == Basis(v, k, n)(i)
  {
  }

  lemma BasisLastStep(v: Aspect, k: nat)
    requires k >= 2
    ensures Basis(v, k, k - 1)(k) == Basis(v, k, k)(k) + 2 * Basis(v, k, k)(k - 2)
  {
    hide Mixed, PowerOf;
    MixedStep(v, k - 2, 1);
    MixedEnds(v, k - 2);
  }

  lemma DotChanged(p: seq<int>, f: int -> int, g: int -> int, upper: nat, lower: nat, v: int, times: int)
    requires lower < upper < |p| && forall i :: 0 <= i < |p| && i != upper ==> f(i) == g(i)
    requires g(upper) == f(upper) + times * f(lower)
    ensures Dot(p[lower := v], g) == Dot(p, f) + p[upper] * (times * f(lower)) + (v - p[lower]) * f(lower)
  {
    DotUpdate(p, lower, v, g);
    DotChange(p, f, g, upper);
  }

  lemma SingleStep(p: seq<int>, f: int -> int, g: int -> int, upper: nat, lower: nat)
    requires lower < upper < |p| && forall i :: 0 <= i < |p| && i != upper ==> f(i) == g(i)
    requires g(upper) == f(upper) + f(lower)
    ensures Congruent(Dot(p[lower := Wrap32(p[lower] - p[upper])], g), Dot(p, f))
  {
    hide Dot, Wrap32, Congruent;
    var v := Wrap32(p[lower] - p[upper]);
    DotChanged(p, f, g, upper, lower, v, 1);
    var c := WrapCongruent(p[lower] - p[upper]);
    MovedValue(Dot(p, f), Dot(p[lower := v], g), p[upper], 1, v - p[lower], f(lower), c);
  }

  /** Subtracting the coefficient n from the one two places below it changes the value by a wrap-around only. */
  lemma {:induction false} TransStep(p: seq<int>, k: nat, n: nat, v: Aspect)
    requires 2 <= k < n < |p|
    ensures Congruent(Dot(p[n - 2 := Wrap32(p[n - 2] - p[n])], Basis(v, k, n - 1)), Dot(p, Basis(v, k, n)))
  {
    BasisStep(v, k, n);
    hide Dot, Wrap32, Congruent, Basis;
    var f, g := Basis(v, k, n), Basis(v, k, n - 1);
    forall i | 0 <= i < |p| && i != n
      ensures f(i) == g(i)
    {
      BasisSame(v, k, n, i);
    }
    SingleStep(p, f, g, n, n - 2);
  }

  lemma DoubledStep(p: seq<int>, f: int -> int, g: int -> int, upper: nat, lower: nat)
    requires lower < upper < |p| && forall i :: 0 <= i < |p| && i != upper ==> f(i) == g(i)
    requires g(upper) == f(upper) + 2 * f(lower)
    ensures Congruent(Dot(p[lower := Wrap32(p[lower] - Wrap32(p[upper] * 2))], g), Dot(p, f))
  {
    var doubled := Wrap32(p[upper] * 2);
    var v := Wrap32(p[lower] - doubled);
    DotChanged(p, f, g, upper, lower, v, 2);
    var c1 := WrapCongruent(p[upper] * 2);
    var c2 := WrapCongruent(p[lower] - doubled);
    var change := v - p[lower];
    assert change == -(2 * p[upper]) + (c2 - c1) * TWO32;
    MovedValue(Dot(p, f), Dot(p[lower := v], g), p[upper], 2, change, f(lower), c2 - c1);
  }

  lemma TransLastStep(p: seq<int>, k: nat, v: Aspect)
    requires 2 <= k < |p|
    ensures Congruent(Dot(p[k - 2 := Wrap32(p[k - 2] - Wrap32(p[k] * 2))], Basis(v, k, k - 1)), Dot(p, Basis(v, k, k)))
  {
    BasisLastStep(v, k);
    var f, g := Basis(v, k, k), Basis(v, k, k - 1);
    forall i | 0 <= i < |p| && i != k
      ensures f(i) == g(i)
    {
      BasisSame(v, k, k, i);
    }
    DoubledStep(p, f, g, k, k - 2);
  }

  lemma {:induction false} TransPassMeaning(p: seq<int>, k: nat, n: nat, v: Aspect)
    requires 2 <= k <= n < |p|
    ensures Congruent(Dot(TransPass(p, k, n), Basis(v, k, k - 1)), Dot(p, Basis(v, k, n)))
    decreases n
  {
    if n == k {
      TransLastStep(p, k, v);
    } else {
      var q := p[n - 2 := Wrap32(p[n - 2] - p[n])];
      TransStep(p, k, n, v);
      TransPassMeaning(q, k, n - 1, v);
      CongruentTransitive(Dot(TransPass(q, k, n - 1), Basis(v, k, k - 1)), Dot(q, Basis(v, k, n - 1)),
                          Dot(p, Basis(v, k, n)));
    }
  }

  /** After pass k the basis is the one that pass k + 1 starts from. */
  lemma BasisHandsOver(v: Aspect, k: nat, d: nat, m: nat)
    requires k >= 2 && m <= d
    ensures Basis(v, k, k - 1)(m) == Basis(v, k + 1, d)(m)
  {
    hide Mixed, PowerOf;
    MixedEnds(v, k - 2);
  }

  lemma {:induction false} TransFromMeaning(p: seq<int>, k: nat, v: Aspect)
    requires 2 <= k <= |p|
    ensures Congruent(Dot(TransFrom(p, k), Basis(v, |p|, |p| - 1)), Dot(p, Basis(v, k, |p| - 1)))
    decreases |p| - k
  {
    if k < |p| {
      var d := |p| - 1;
      var q := TransPass(p, k, d);
      TransPassMeaning(p, k, d, v);
      var f, g := Basis(v, k, k - 1), Basis(v, k + 1, d);
      forall m | 0 <= m < |q|
        ensures f(m) == g(m)
      {
        BasisHandsOver(v, k, d, m);
      }
      DotAgree(q, f, g);
      TransFromMeaning(q, k + 1, v);
      CongruentTransitive(Dot(TransFrom(q, k + 1), Basis(v, |p|, d)), Dot(q, g), Dot(p, Basis(v, k, d)));
    }
  }

  /** The series the coefficients stand for before: a constant, and z^m + z^-m for every m from 1 on. */
  function Series(v: Aspect): int -> int {
    (m: int) => if m <= 0 then PowerOf(v, 0) else Mixed(v, 0, m)
  }

  /** And after: powers of x. */
  function PowersOf(v: Aspect): int -> int {
    (m: int) => if m < 0 then 0 else PowerOf(v, m)
  }

  lemma LastBasis(v: Aspect, d: nat, m: nat)
    requires 1 <= d && m <= d
    ensures Basis(v, d + 1, d)(m) == PowersOf(v)(m)
  {
    hide Mixed, PowerOf;
    MixedEnds(v, d - 1);
  }

  /** The change of basis keeps every aspect of the series. */
  lemma TransPolyKeeps(p: seq<int>, v: Aspect)
    requires |p| >= 2
    ensures Congruent(Dot(TransFrom(p, 2), PowersOf(v)), Dot(p, Series(v)))
  {
    var d := |p| - 1;
    TransFromMeaning(p, 2, v);
    DotAgree(p, Basis(v, 2, d), Series(v));
    forall m | 0 <= m < |p|
      ensures Basis(v, d + 1, d)(m) == PowersOf(v)(m)
    {
      LastBasis(v, d, m);
    }
    DotAgree(TransFrom(p, 2), Basis(v, d + 1, d), PowersOf(v));
  }

  function Powers(x: int): int -> int {
    (m: int) => if m < 0 then 0 else Power(x, m)
  }

  /** The cosine series: its constant, and 2 cos(m w) for every m from 1 on. */
  function Cosines(x: int): int -> int {
    (m: int) => if m <= 0 then 1 else Cheb(m, x)
  }

  /** The transformed coefficients give in powers of x what the original ones give in cosines. */
  lemma TransPolyKeepsValue(p: seq<int>, x: int)
    requires |p| >= 2
    ensures Congruent(Dot(TransFrom(p, 2), Powers(x)), Dot(p, Cosines(x)))
  {
    assert Power(x, 0) == 1;
    hide TransFrom, Power, Cheb, Congruent;
    var v := ValueAt(x);
    TransPolyKeeps(p, v);
    DotAgree(TransFrom(p, 2), PowersOf(v), Powers(x));
    DotAgree(p, Series(v), Cosines(x));
  }
}
