/**
  Small filter coefficients make the root search safe. The size of a polynomial, the sum of its
  coefficients weighted with powers of two, bounds its values on the table's range, and every step from
  coefficients to polynomials lets it grow by a known factor at most.
 */
module SmallCoefficients {
  import opened Arith
  import opened Fixed
  import opened A2Nlsf
  import opened RootScan
  import opened RootSearch
  import opened TameSearch

  function Abs(x: int): nat {
    if x < 0 then -x else x
  }

  /** Wrapping around never makes a number larger. */
  lemma WrapShrinks(x: int)
    ensures Abs(Wrap32(x)) <= Abs(x)
  {
  }

  // ----- weighted sums of magnitudes -----

  function Weigh(p: seq<int>, f: int -> int): int {
    if p == [] then 0 else Weigh(p[..|p| - 1], f) + Abs(p[|p| - 1]) * f(|p| - 1)
  }

  lemma {:induction false} WeighUpdate(p: seq<int>, i: nat, v: int, f: int -> int)
    requires i < |p|
    ensures Weigh(p[i := v], f) == Weigh(p, f) + (Abs(v) - Abs(p[i])) * f(i)
  {
    hide Abs;
    var n := |p| - 1;
    if i < n {
      WeighUpdate(p[..n], i, v, f);
      assert p[i := v][..n] == p[..n][i := v];
    } else {
      assert p[i := v][..n] == p[..n];
      TimesDistributes(Abs(v) - Abs(p[i]), Abs(p[i]), f(i));
    }
  }

  lemma {:induction false} WeighAgree(p: seq<int>, f: int -> int, g: int -> int)
    requires forall i :: 0 <= i < |p| ==> f(i) == g(i)
    ensures Weigh(p, f) == Weigh(p, g)
  {
    if p != [] {
      WeighAgree(p[..|p| - 1], f, g);
    }
  }

  lemma {:induction false} WeighChange(p: seq<int>, f: int -> int, g: int -> int, n: nat)
    requires n < |p| && forall i :: 0 <= i < |p| && i != n ==> f(i) == g(i)
    ensures Weigh(p, g) == Weigh(p, f) + Abs(p[n]) * (g(n) - f(n))
  {
    hide Abs;
    var m := |p| - 1;
    if n < m {
      WeighChange(p[..m], f, g, n);
    } else {
      WeighAgree(p[..m], f, g);
      TimesDistributes(f(n), g(n) - f(n), Abs(p[n]));
    }
  }

  lemma {:induction false} WeighBelow(p: seq<int>, f: int -> int, g: int -> int)
    requires forall i :: 0 <= i < |p| ==> f(i) <= g(i)
    ensures Weigh(p, f) <= Weigh(p, g)
  {
    hide Abs;
    if p != [] {
      WeighBelow(p[..|p| - 1], f, g);
      TimesMonotone(f(|p| - 1), g(|p| - 1), Abs(p[|p| - 1]));
    }
  }

  lemma {:induction false} WeighScaled(p: seq<int>, f: int -> int, g: int -> int, c: int)
    requires forall i :: 0 <= i < |p| ==> g(i) == c * f(i)
    ensures Weigh(p, g) == c * Weigh(p, f)
  {
    hide Abs;
    if p != [] {
      var n := |p| - 1;
      WeighScaled(p[..n], f, g, c);
      TimesAssociative(c, f(n), Abs(p[n]));
      TimesDistributes(Weigh(p[..n], f), Abs(p[n]) * f(n), c);
    }
  }

  function PowersOfTwo(c: int): int -> int {
    (m: int) => if m < 0 then 0 else c * Pow2(m)
  }

  function Size(p: seq<int>): int {
    Weigh(p, PowersOfTwo(1))
  }

  // ----- values -----

  lemma HornerStep(a: int, y: int, x: int)
    requires InTable(x)
    ensures Abs(Smlaww(a, y, Wrap32(x * 16))) <= Abs(a) + 2 * Abs(y)
  {
    var c := x * 16;
    assert Wrap32(c) == c;
    TimesMonotone(-131072, c, Abs(y));
    TimesMonotone(c, 131072, Abs(y));
    assert y * c == Abs(y) * c || y * c == -(Abs(y) * c);
    WrapShrinks(a + y * c / 65536);
  }

  /** The tail of a polynomial from coefficient n on, as a polynomial of its own. */
  lemma {:induction false} TailSize(p: seq<int>, n: nat)
    requires n < |p|
    ensures Size(p[n..]) == Abs(p[n]) + 2 * Size(p[n + 1..])
  {
    SizeCons(p[n..]);
    assert p[n..][1..] == p[n + 1..];
  }

  lemma {:induction false} SizeCons(p: seq<int>)
    requires p != []
    ensures Size(p) == Abs(p[0]) + 2 * Size(p[1..])
  {
    hide Abs;
    var n := |p| - 1;
    if n == 0 {
      assert p[1..] == [] && p[..0] == [];
      assert Size(p) == Weigh(p[..0], PowersOfTwo(1)) + Abs(p[0]) * PowersOfTwo(1)(0);
    } else {
      SizeCons(p[..n]);
      assert p[1..][..n - 1] == p[..n][1..];
      assert Size(p) == Size(p[..n]) + Abs(p[n]) * Pow2(n);
      assert Size(p[1..]) == Size(p[1..][..n - 1]) + Abs(p[n]) * Pow2(n - 1);
      TimesAssociative(2, Pow2(n - 1), Abs(p[n]));
    }
  }

  lemma {:induction false} ValueBelowSize(p: seq<int>, x: int, n: nat)
    requires n < |p| && InTable(x)
    ensures Abs(EvalFrom(p, x, n)) <= Size(p[n..])
    decreases |p| - n
  {
    hide Smlaww, Size;
    TailSize(p, n);
    if n == |p| - 1 {
      assert p[n + 1..] == [];
      NoSize();
    } else {
      ValueBelowSize(p, x, n + 1);
      HornerStep(p[n], EvalFrom(p, x, n + 1), x);
    }
  }

  lemma NoSize()
    ensures Size([]) == 0
  {
  }

  /** A polynomial of small size is tame. */
  lemma SmallIsTame(p: seq<int>)
    requires |p| >= 1 && Size(p) < SAFE
    ensures Tame(p)
  {
    hide Size;
    forall x | InTable(x)
      ensures IsSafe(Eval(p, x))
    {
      ValueBelowSize(p, x, 0);
      assert p[0..] == p;
    }
  }

  // ----- deflation doubles the size at most -----

  /** Coefficients up to k still have theirs to hand down. */
  function Handing(k: nat): int -> int {
    (m: int) => if m < 0 then 0 else if m <= k then 2 * Pow2(m) else Pow2(m)
  }

  lemma HandDown(p: seq<int>, k: nat, v: int)
    requires 0 < k < |p| && Abs(v) <= Abs(p[k - 1]) + Abs(p[k])
    ensures Weigh(p[k - 1 := v], Handing(k - 1)) <= Weigh(p, Handing(k))
  {
    hide Abs, Weigh;
    var f, g := Handing(k), Handing(k - 1);
    WeighUpdate(p, k - 1, v, g);
    WeighChange(p, f, g, k);
    assert f(k) - g(k) == Pow2(k) && g(k - 1) == 2 * Pow2(k - 1) == Pow2(k);
    TimesMonotone(Abs(v) - Abs(p[k - 1]), Abs(p[k]), Pow2(k));
  }

  lemma {:induction false} DeflateSize(p: seq<int>, k: nat, sum: bool)
    requires k < |p|
    ensures Size(Deflate(p, k, sum)) <= Weigh(p, Handing(k))
    decreases k
  {
    hide Weigh, Wrap32;
    if k == 0 {
      WeighBelow(p, PowersOfTwo(1), Handing(0));
    } else {
      var x := if sum then p[k - 1] - p[k] else p[k - 1] + p[k];
      WrapShrinks(x);
      HandDown(p, k, Wrap32(x));
      DeflateSize(p[k - 1 := Wrap32(x)], k - 1, sum);
    }
  }

  lemma DeflateDoubles(p: seq<int>, sum: bool)
    requires p != []
    ensures Size(Deflate(p, |p| - 1, sum)) <= 2 * Size(p)
  {
    DeflateSize(p, |p| - 1, sum);
    WeighScaled(p, PowersOfTwo(1), Handing(|p| - 1), 2);
  }

  // ----- a pass of the change of basis makes three of two -----

  /** Coefficients from k to n still have to be subtracted two places below. */
  function Passing(k: nat, n: int): int -> int {
    (m: int) => if m < 0 then 0 else if k <= m <= n then 3 * Pow2(m) else 2 * Pow2(m)
  }

  lemma PassDown(p: seq<int>, k: nat, n: nat, v: int)
    requires 2 <= k < n < |p| && Abs(v) <= Abs(p[n - 2]) + Abs(p[n])
    ensures Weigh(p[n - 2 := v], Passing(k, n - 1)) <= Weigh(p, Passing(k, n))
  {
    hide Abs, Weigh;
    var f, g := Passing(k, n), Passing(k, n - 1);
    WeighUpdate(p, n - 2, v, g);
    WeighChange(p, f, g, n);
    assert Pow2(n) == 4 * Pow2(n - 2);
    assert f(n) - g(n) == Pow2(n) && 0 <= g(n - 2) <= Pow2(n);
    TimesMonotone(Abs(v) - Abs(p[n - 2]), Abs(p[n]), g(n - 2));
    TimesMonotone(g(n - 2), Pow2(n), Abs(p[n]));
  }

  lemma PassLast(p: seq<int>, k: nat, v: int)
    requires 2 <= k < |p| && Abs(v) <= Abs(p[k - 2]) + 2 * Abs(p[k])
    ensures Weigh(p[k - 2 := v], PowersOfTwo(2)) <= Weigh(p, Passing(k, k))
  {
    hide Abs, Weigh;
    var f, g := Passing(k, k), PowersOfTwo(2);
    WeighUpdate(p, k - 2, v, g);
    WeighChange(p, f, g, k);
    assert Pow2(k) == 4 * Pow2(k - 2);
    assert f(k) - g(k) == Pow2(k) && 2 * g(k - 2) == Pow2(k);
    TimesMonotone(Abs(v) - Abs(p[k - 2]), 2 * Abs(p[k]), g(k - 2));
    TimesAssociative(2, Abs(p[k]), g(k - 2));
  }

  lemma {:induction false} PassSize(p: seq<int>, k: nat, n: nat)
    requires 2 <= k <= n < |p|
    ensures Weigh(TransPass(p, k, n), PowersOfTwo(2)) <= Weigh(p, Passing(k, n))
    decreases n
  {
    hide Weigh, Wrap32;
    if n == k {
      WrapShrinks(p[k] * 2);
      WrapShrinks(p[k - 2] - Wrap32(p[k] * 2));
      PassLast(p, k, Wrap32(p[k - 2] - Wrap32(p[k] * 2)));
    } else {
      WrapShrinks(p[n - 2] - p[n]);
      PassDown(p, k, n, Wrap32(p[n - 2] - p[n]));
      PassSize(p[n - 2 := Wrap32(p[n - 2] - p[n])], k, n - 1);
    }
  }

  lemma PassGrowth(p: seq<int>, k: nat)
    requires 2 <= k < |p|
    ensures 2 * Size(TransPass(p, k, |p| - 1)) <= 3 * Size(p)
  {
    hide Weigh;
    var q := TransPass(p, k, |p| - 1);
    PassSize(p, k, |p| - 1);
    WeighScaled(q, PowersOfTwo(1), PowersOfTwo(2), 2);
    WeighScaled(p, PowersOfTwo(1), PowersOfTwo(3), 3);
    WeighBelow(p, Passing(k, |p| - 1), PowersOfTwo(3));
  }

  function Pow3(n: nat): (r: nat)
    ensures r >= 1
  {
    if n == 0 then 1 else 3 * Pow3(n - 1)
  }

  lemma GrowthStep(two: nat, three: nat, s: int, sq: int, sp: int)
    requires two * s <= three * sq && 2 * sq <= 3 * sp
    ensures (2 * two) * s <= (3 * three) * sp
  {
    TimesMonotone(2 * sq, 3 * sp, three);
    assert (2 * two) * s == 2 * (two * s);
    assert (2 * sq) * three == 2 * (three * sq);
    assert (3 * sp) * three == (3 * three) * sp;
  }

  lemma {:induction false} TransGrowth(p: seq<int>, k: nat)
    requires 2 <= k <= |p|
    ensures Pow2(|p| - k) * Size(TransFrom(p, k)) <= Pow3(|p| - k) * Size(p)
    decreases |p| - k
  {
    hide Size;
    if k < |p| {
      var q, m := TransPass(p, k, |p| - 1), |p| - k - 1;
      PassGrowth(p, k);
      TransGrowth(q, k + 1);
      GrowthStep(Pow2(m), Pow3(m), Size(TransFrom(q, k + 1)), Size(q), Size(p));
      assert Pow2(m + 1) == 2 * Pow2(m) && Pow3(m + 1) == 3 * Pow3(m);
    }
  }

  // ----- from coefficients to polynomials -----

  predicate Within(a: seq<int>, d: nat, bound: nat)
    requires d <= |a|
  {
    forall k :: 0 <= k < d ==> Abs(a[k]) <= bound
  }

  lemma {:induction false} SizeWithin(p: seq<int>, bound: nat)
    requires forall k :: 0 <= k < |p| ==> Abs(p[k]) <= bound
    ensures Size(p) <= bound * (Pow2(|p|) - 1)
  {
    if p != [] {
      var n := |p| - 1;
      SizeWithin(p[..n], bound);
      TimesMonotone(Abs(p[n]), bound, Pow2(n));
      TimesDistributes(Pow2(n) - 1, Pow2(n), bound);
    }
  }

  lemma {:induction false} SizeAppend(p: seq<int>, v: int)
    ensures Size(p + [v]) == Size(p) + Abs(v) * Pow2(|p|)
  {
    assert (p + [v])[..|p|] == p;
  }

  lemma MirroredWithin(a: seq<int>, dd: nat, k: nat, sum: bool, bound: nat)
    requires k < dd && 2 * dd <= |a| && Within(a, 2 * dd, bound)
    ensures Abs(Mirrored(a, dd, k, sum)) <= 2 * bound
  {
    WrapShrinks(if sum then -a[dd - k - 1] - a[dd + k] else -a[dd - k - 1] + a[dd + k]);
    assert Abs(a[dd - k - 1]) <= bound && Abs(a[dd + k]) <= bound;
  }

  lemma FoldedSize(a: seq<int>, dd: nat, sum: bool, bound: nat)
    requires 2 * dd <= |a| && Within(a, 2 * dd, bound)
    ensures Size(Folded(a, dd, sum)) <= 2 * bound * (Pow2(dd) - 1) + 65536 * Pow2(dd)
  {
    hide Size, Abs, Mirrored;
    var low := seq(dd, k requires 0 <= k < dd => Mirrored(a, dd, k, sum));
    forall k | 0 <= k < |low|
      ensures Abs(low[k]) <= 2 * bound
    {
      MirroredWithin(a, dd, k, sum, bound);
    }
    SizeWithin(low, 2 * bound);
    SizeAppend(low, 65536);
    LeadingOne();
    assert Folded(a, dd, sum) == low + [65536];
  }

  lemma LeadingOne()
    ensures Abs(65536) == 65536
  {
  }

  /** The size of both polynomials of a round, times a power of two, from a bound on the coefficients. */
  function Budget(dd: nat, bound: nat): nat
    requires dd >= 1
  {
    Pow3(dd - 1) * (2 * (2 * bound * (Pow2(dd) - 1) + 65536 * Pow2(dd)))
  }

  lemma PolySize(a: seq<int>, dd: nat, sum: bool, bound: nat)
    requires dd >= 1 && 2 * dd <= |a| && Within(a, 2 * dd, bound)
    ensures var p := if sum then SumPoly(a, dd) else DiffPoly(a, dd);
            Pow2(dd - 1) * Size(p) <= Budget(dd, bound)
  {
    hide Size, Deflate, TransFrom;
    var f := Folded(a, dd, sum);
    var g := Deflate(f, dd, sum);
    FoldedSize(a, dd, sum, bound);
    DeflateDoubles(f, sum);
    TransGrowth(g, 2);
    TimesMonotone(Size(g), 2 * (2 * bound * (Pow2(dd) - 1) + 65536 * Pow2(dd)), Pow3(dd - 1));
  }

  /** What a caller can check before the search. */
  predicate SmallEnough(d: nat, bound: nat)
    requires d >= 2 && d % 2 == 0
  {
    Budget(d / 2, bound) < Pow2(d / 2 - 1) * SAFE
  }

  lemma PolyIsTame(a: seq<int>, d: nat, sum: bool, bound: nat)
    requires 2 <= d <= |a| && d % 2 == 0 && Within(a, d, bound) && SmallEnough(d, bound)
    ensures Tame(if sum then SumPoly(a, d / 2) else DiffPoly(a, d / 2))
  {
    hide Size, Budget, SumPoly, DiffPoly;
    var p := if sum then SumPoly(a, d / 2) else DiffPoly(a, d / 2);
    PolySize(a, d / 2, sum, bound);
    if Size(p) >= SAFE {
      TimesMonotone(SAFE, Size(p), Pow2(d / 2 - 1));
    }
    SmallIsTame(p);
  }

  // ----- bandwidth expansion makes coefficients smaller -----

  lemma ScaledShrinks(a: int, chirp: int)
    requires 0 <= chirp <= 65536
    ensures Abs(Chirped(chirp, a)) <= Abs(a)
  {
    TimesMonotone(chirp, 65536, Abs(a));
    TimesMonotone(0, chirp, Abs(a));
    assert chirp * a == chirp * Abs(a) || chirp * a == -(chirp * Abs(a));
    WrapShrinks(chirp * a / 65536);
  }

  lemma ChirpShrinks(chirp: int, step: int)
    requires -65536 <= step <= 0 && 0 <= chirp <= 65536 + step
    ensures 0 <= Wrap32(chirp + RshiftRound16(Wrap32(chirp * step))) <= chirp
  {
    var s := -step;
    TimesMonotone(chirp, 65536 - s, s);
    assert (65536 - s) * s <= TWO31 / 2 by {
      assert (32768 - s) * (32768 - s) >= 0;
    }
    assert chirp * step == -(chirp * s);
    TimesMonotone(s, 65536, chirp);
    TimesMonotone(0, s, chirp);
    var v := chirp * step;
    assert Wrap32(v) == v && -(65536 * chirp) <= v <= 0;
  }

  lemma {:induction false} ExpandFromWithin(a: seq<int>, d: nat, i: nat, chirp: int, step: int, bound: nat)
    requires 1 <= d <= |a| && i < d && Within(a, d, bound)
    requires -65536 <= step <= 0 && 0 <= chirp <= 65536 + step
    ensures Within(ExpandFrom(a, d, i, chirp, step), d, bound)
    decreases d - i
  {
    hide Wrap32, RshiftRound16;
    ScaledShrinks(a[i], chirp);
    var scaled := a[i := Chirped(chirp, a[i])];
    assert Within(scaled, d, bound);
    if i < d - 1 {
      ChirpShrinks(chirp, step);
      ExpandFromWithin(scaled, d, i + 1, Wrap32(chirp + RshiftRound16(Wrap32(chirp * step))), step, bound);
    }
  }

  lemma Pow2Sixteen(i: nat)
    requires i <= 16
    ensures 1 <= Pow2(i) <= 65536
  {
    assert Pow2(4) == 16 && Pow2(8) == 256 && Pow2(12) == 4096 && Pow2(16) == 65536;
    Pow2Monotone(i, 16);
  }

  lemma {:induction false} ExpandedWithin(a: seq<int>, d: nat, i: nat, bound: nat)
    requires 1 <= d <= |a| && Within(a, d, bound) && i <= MAX_RESTARTS
    ensures Within(Expanded(a, d, i), d, bound)
  {
    hide ExpandFrom, Within;
    if i > 0 {
      ExpandedWithin(a, d, i - 1, bound);
      Pow2Sixteen(i);
      var step := 0 - Pow2(i);
      ExpandFromWithin(Expanded(a, d, i - 1), d, 0, 65536 + step, step, bound);
      assert Wrap32(65536 + step - 65536) == step;
    }
  }

  // ----- the result -----

  /** Coefficients within a bound that is small enough for the order make every round of the search tame. */
  lemma SmallCoefficientsAreTamed(a: seq<int>, d: nat, bound: nat)
    requires 2 <= d <= |a| && d % 2 == 0 && Within(a, d, bound) && SmallEnough(d, bound)
    ensures Tamed(a, d)
  {
    hide Within, SmallEnough, Tame, SumPoly, DiffPoly;
    forall i | 0 <= i <= MAX_RESTARTS
      ensures TameRound(a, d, i)
    {
      ExpandedWithin(a, d, i, bound);
      PolyIsTame(Expanded(a, d, i), d, true, bound);
      PolyIsTame(Expanded(a, d, i), d, false, bound);
    }
  }

  const LPC_ORDER := 16
  const LPC_BOUND := 28000

  /** At the codec's order, coefficients up to 28000 / 65536 in size are small enough. */
  lemma CodecBound()
    ensures SmallEnough(LPC_ORDER, LPC_BOUND)
  {
    assert Pow2(3) == 8 && Pow2(5) == 32;
    assert Pow2(7) == 128 && Pow2(8) == 256;
    assert Pow3(3) == 27 && Pow3(5) == 243;
    assert Pow3(7) == 2187;
  }

  /** There the search neither panics nor leaves its ranges. */
  lemma CodecSearchSucceeds(a: seq<int>)
    requires |a| >= LPC_ORDER && Within(a, LPC_ORDER, LPC_BOUND)
    ensures Tamed(a, LPC_ORDER) && !SearchFrom(a, LPC_ORDER, 0).SearchPanicked?
  {
    CodecBound();
    SmallCoefficientsAreTamed(a, LPC_ORDER, LPC_BOUND);
    TameSearchSucceeds(a, LPC_ORDER);
  }
}
