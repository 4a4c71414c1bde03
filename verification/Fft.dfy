/**
  The recursive mixed-radix FFT of the MLow codec over exact complex arithmetic.

  The twiddle factor is a parameter `w`, where `w(a, n)` stands for exp(2 pi i a / n). Only the
  algebra of roots of unity is used, so the laws below are all that is asked of `w`.
 */
module Fft {
  import opened Arith
  import opened Complex

  type Twiddle = (int, int) -> Cpx

  ghost predicate AddLaw(w: Twiddle, a: int, b: int, n: int) {
    w(a + b, n) == Mul(w(a, n), w(b, n))
  }

  ghost predicate ScaleLaw(w: Twiddle, a: int, p: int, n: int) {
    w(a * p, n * p) == w(a, n)
  }

  ghost predicate UnitLaw(w: Twiddle, n: int) {
    w(n, n) == ONE
  }

  /** `w(1, n)` behaves as an n-th root of unity, consistently across orders. */
  ghost predicate RootsOfUnity(w: Twiddle) {
    && (forall a, b, n :: n >= 1 ==> AddLaw(w, a, b, n))
    && (forall a, p, n :: n >= 1 && p >= 1 ==> ScaleLaw(w, a, p, n))
    && (forall n :: n >= 1 ==> UnitLaw(w, n))
  }

  /** The root of order n is primitive: no smaller power of it is 1. */
  ghost predicate PrimitiveAt(w: Twiddle, n: int) {
    forall k :: 0 < k < n ==> w(k, n) != ONE
  }

  /** The roots lie on the unit circle: conjugating is turning the other way. */
  ghost predicate OnUnitCircle(w: Twiddle) {
    forall a, n :: n >= 1 ==> Conj(w(a, n)) == w(-a, n)
  }

  /** The twiddle of a transform with the given sign. */
  function Signed(w: Twiddle, sign: int): Twiddle {
    (a: int, n: int) => w(sign * a, n)
  }

  function At(x: seq<Cpx>, i: int): Cpx {
    if 0 <= i < |x| then x[i] else ZERO
  }

  /** The terms of bin k: sample j of the strided input times the twiddle `j k` out of n. */
  function Terms(w: Twiddle, x: seq<Cpx>, off: int, stride: int, n: int, k: int): int -> Cpx {
    (j: int) => Mul(At(x, off + j * stride), w(k * j, n))
  }

  /** The discrete Fourier transform by its definition. */
  function Dft(w: Twiddle, x: seq<Cpx>, off: int, stride: int, n: nat, k: int): Cpx {
    Sum(n, Terms(w, x, off, stride, n, k))
  }

  function Spectrum(w: Twiddle, x: seq<Cpx>): (spec: seq<Cpx>)
    ensures |spec| == |x|
  {
    seq(|x|, k => Dft(w, x, 0, 1, |x|, k))
  }

  lemma UnityAtZero(w: Twiddle, n: int)
    requires RootsOfUnity(w) && n >= 1
    ensures w(0, n) == ONE
  {
    assert AddLaw(w, 0, n, n) && UnitLaw(w, n);
    assert w(0 + n, n) == w(n, n);
    assert Mul(w(0, n), ONE) == w(0, n);
  }

  lemma UnityStep(w: Twiddle, n: int, c: int)
    requires RootsOfUnity(w) && n >= 1
    ensures w((c + 1) * n, n) == w(c * n, n)
  {
    TimesSuccessor(c, n);
    assert AddLaw(w, c * n, n, n) && UnitLaw(w, n);
    assert Mul(w(c * n, n), ONE) == w(c * n, n);
  }

  lemma {:induction false} UnityAtMultiple(w: Twiddle, n: int, c: int)
    requires RootsOfUnity(w) && n >= 1
    ensures w(c * n, n) == ONE
    decreases if c < 0 then -c else c
  {
    if c == 0 {
      UnityAtZero(w, n);
    } else if c > 0 {
      UnityAtMultiple(w, n, c - 1);
      UnityStep(w, n, c - 1);
    } else {
      UnityAtMultiple(w, n, c + 1);
      UnityStep(w, n, c);
    }
  }

  lemma Periodic(w: Twiddle, a: int, n: int, c: int)
    requires RootsOfUnity(w) && n >= 1
    ensures w(a + c * n, n) == w(a, n)
  {
    assert AddLaw(w, a, c * n, n);
    UnityAtMultiple(w, n, c);
    assert Mul(w(a, n), ONE) == w(a, n);
  }

  lemma SignedRootsOfUnity(w: Twiddle, sign: int)
    requires RootsOfUnity(w)
    ensures RootsOfUnity(Signed(w, sign))
  {
    var v := Signed(w, sign);
    forall a, b, n | n >= 1
      ensures AddLaw(v, a, b, n)
    {
      assert AddLaw(w, sign * a, sign * b, n);
      assert sign * (a + b) == sign * a + sign * b;
    }
    forall a, p, n | n >= 1 && p >= 1
      ensures ScaleLaw(v, a, p, n)
    {
      assert ScaleLaw(w, sign * a, p, n);
      assert sign * (a * p) == (sign * a) * p;
    }
    forall n | n >= 1
      ensures UnitLaw(v, n)
    {
      UnityAtMultiple(w, n, sign);
    }
  }

  // ----- the least factor -----

  ghost predicate IsLeastFactor(p: int, n: int) {
    2 <= p <= n && n % p == 0 && forall d :: 2 <= d < p ==> n % d != 0
  }

  lemma DivisionExact(n: int, d: int)
    requires d >= 1 && n % d == 0
    ensures n == d * (n / d)
  {
  }

  lemma CofactorDivides(n: int, d: int)
    requires n >= 1 && d >= 1 && n % d == 0
    ensures n / d >= 1 && n == d * (n / d) && n % (n / d) == 0
  {
    DivisionExact(n, d);
    var e := n / d;
    assert e >= 1;
    DivModUnique(n, e, d, 0);
  }

  /** A proper divisor d of n comes with a proper cofactor, and one of the two is at most the root of n. */
  lemma SmallOfTwoFactors(n: int, d: int, p: int)
    requires 2 <= d < n && n % d == 0 && p >= 2 && p * p > n
    ensures d < p || (2 <= n / d < p && n % (n / d) == 0)
  {
    CofactorDivides(n, d);
    var e := n / d;
    assert e != 1;
    if d >= p && e >= p {
      TimesMonotone(p, d, p);
      TimesMonotone(p, e, d);
      assert false;
    }
  }

  lemma EvenDivisor(n: int, d: int)
    requires d >= 2 && d % 2 == 0 && n % d == 0
    ensures n % 2 == 0
  {
    DivisionExact(n, d);
    var h, e := d / 2, n / d;
    assert n == 2 * (h * e);
  }

  /** Having tried every divisor up to p, the loop may skip the even p + 1. */
  lemma SkipEven(n: int, p: int)
    requires n % 2 != 0 && p % 2 == 1 && p >= 3 && n % p != 0
    requires forall d :: 2 <= d < p ==> n % d != 0
    ensures forall d :: 2 <= d < p + 2 ==> n % d != 0
  {
    if n % (p + 1) == 0 {
      EvenDivisor(n, p + 1);
    }
  }

  lemma PrimeBySquare(n: int, p: int)
    requires n >= 2 && p >= 2 && p * p > n
    requires forall d :: 2 <= d < p ==> n % d != 0
    ensures IsLeastFactor(n, n)
  {
    forall d | 2 <= d < n
      ensures n % d != 0
    {
      if n % d == 0 {
        SmallOfTwoFactors(n, d, p);
      }
    }
  }

  method SmallestFactor(n: int) returns (p: int)
    requires n >= 2
    ensures IsLeastFactor(p, n)
  {
    if n % 2 == 0 {
      return 2;
    }
    p := 3;
    while p * p <= n
      invariant 3 <= p <= n && p % 2 == 1
      invariant forall d :: 2 <= d < p ==> n % d != 0
      decreases n - p
    {
      TimesMonotone(3, p, p);
      if n % p == 0 {
        return p;
      }
      SkipEven(n, p);
      p := p + 2;
    }
    PrimeBySquare(n, p);
    return n;
  }

  // ----- one mixed-radix step -----

  /** The twiddled sub-transforms that the combining loop adds up for bin k. */
  function Butterfly(w: Twiddle, x: seq<Cpx>, off: int, stride: int, p: int, m: nat, k: int): int -> Cpx
    requires m >= 1
  {
    (q: int) => Mul(Dft(w, x, off + q * stride, stride * p, m, k % m), w(k * q, p * m))
  }

  lemma StepTerm(w: Twiddle, x: seq<Cpx>, off: int, stride: int, p: int, m: int, k: int, q: int, r: int)
    requires RootsOfUnity(w) && p >= 1 && m >= 1
    ensures Terms(w, x, off, stride, p * m, k)(q + p * r)
         == Mul(Terms(w, x, off + q * stride, stride * p, m, k % m)(r), w(k * q, p * m))
  {
    var n := p * m;
    assert n >= 1;
    assert off + (q + p * r) * stride == off + q * stride + r * (stride * p);
    var kmod, c := k % m, (k / m) * r;
    assert k * (q + p * r) == k * q + (k * r) * p;
    assert AddLaw(w, k * q, (k * r) * p, n);
    assert ScaleLaw(w, k * r, p, m);
    assert m * p == n;
    assert k == kmod + m * (k / m);
    assert k * r == kmod * r + c * m;
    Periodic(w, kmod * r, m, c);
    var s := At(x, off + (q + p * r) * stride);
    MulCommutes(w(k * q, n), w(kmod * r, m));
    MulAssociative(s, w(kmod * r, m), w(k * q, n));
  }

  /** The Cooley-Tukey identity: p interleaved transforms of length m make one of length p * m. */
  lemma CooleyTukey(w: Twiddle, x: seq<Cpx>, off: int, stride: int, p: nat, m: nat, k: int)
    requires RootsOfUnity(w) && p >= 1 && m >= 1
    ensures Dft(w, x, off, stride, p * m, k) == Sum(p, Butterfly(w, x, off, stride, p, m, k))
  {
    var f := Terms(w, x, off, stride, p * m, k);
    SumByColumns(p, m, f);
    forall q | 0 <= q < p
      ensures ColumnSums(f, p, m)(q) == Butterfly(w, x, off, stride, p, m, k)(q)
    {
      var g := Terms(w, x, off + q * stride, stride * p, m, k % m);
      forall r | 0 <= r < m
        ensures Column(f, p, q)(r) == Mul(g(r), w(k * q, p * m))
      {
        StepTerm(w, x, off, stride, p, m, k, q, r);
      }
      SumScaled(m, g, w(k * q, p * m), Column(f, p, q));
    }
    SumExtensional(p, ColumnSums(f, p, m), Butterfly(w, x, off, stride, p, m, k));
  }

  // ----- the recursive transform -----

  lemma StridedInBounds(xo: int, stride: int, n: int, j: int, len: int)
    requires 0 <= j < n && stride >= 0 && xo >= 0 && xo + (n - 1) * stride < len
    ensures 0 <= xo + j * stride < len
  {
    assert 0 <= j * stride <= (n - 1) * stride;
  }

  /** The strided sub-slices that the recursion reads stay inside the input. */
  lemma SubSliceInBounds(xo: int, stride: int, p: int, m: int, q: int, len: int)
    requires p >= 1 && m >= 1 && 0 <= q < p
    requires stride >= 0 && xo >= 0 && xo + (p * m - 1) * stride < len
    ensures 0 <= xo + q * stride && (xo + q * stride) + (m - 1) * (stride * p) < len
  {
    var last := q + (m - 1) * p;
    assert p * m == (m - 1) * p + p;
    TimesMonotone(last, p * m - 1, stride);
    assert (m - 1) * (stride * p) == ((m - 1) * p) * stride;
    assert last * stride == q * stride + ((m - 1) * p) * stride;
    TimesMonotone(0, q, stride);
  }

  /** The slice of `sub` at `start` holds the transform of one interleaved input. */
  ghost predicate HoldsAt(sub: seq<Cpx>, start: int, w: Twiddle, x: seq<Cpx>, off: int, stride: int, m: nat) {
    && 0 <= start <= start + m <= |sub|
    && forall i {:trigger sub[i]} :: start <= i < start + m ==> sub[i] == Dft(w, x, off, stride, m, i - start)
  }

  /** Block q of `sub`, of length m, holds the transform of the q-th interleaved input. */
  ghost predicate BlockDone(sub: seq<Cpx>, w: Twiddle, x: seq<Cpx>, off: int, stride: int, p: int, m: nat, q: int) {
    HoldsAt(sub, q * m, w, x, off + q * stride, stride * p, m)
  }

  ghost predicate BlocksDone(sub: seq<Cpx>, w: Twiddle, x: seq<Cpx>, off: int, stride: int, p: int, m: nat,
                             count: int) {
    forall q :: 0 <= q < count ==> BlockDone(sub, w, x, off, stride, p, m, q)
  }

  lemma BlockInBounds(q: int, p: int, m: int)
    requires 0 <= q < p && m >= 0
    ensures 0 <= q * m && q * m + m <= p * m
  {
    TimesMonotone(0, q, m);
    TimesMonotone(q + 1, p, m);
  }

  lemma BlocksDisjoint(i: int, q: int, m: int)
    requires 0 <= i < q && m >= 0
    ensures i * m + m <= q * m
  {
    TimesMonotone(i + 1, q, m);
  }

  /** The inner loop for a prime length: bin k by the definition. */
  method PrimeBin(x: array<Cpx>, xo: nat, stride: nat, n: nat, sign: int, w: Twiddle, k: nat) returns (acc: Cpx)
    requires n >= 1 && xo + (n - 1) * stride < x.Length
    ensures acc == Dft(Signed(w, sign), x[..], xo, stride, n, k)
  {
    ghost var terms := Terms(Signed(w, sign), x[..], xo, stride, n, k);
    acc := ZERO;
    for j := 0 to n
      invariant acc == Sum(j, terms)
    {
      StridedInBounds(xo, stride, n, j, x.Length);
      assert At(x[..], xo + j * stride) == x[xo + j * stride];
      assert terms(j) == Mul(x[xo + j * stride], w(sign * (k * j), n));
      acc := Add(acc, Mul(x[xo + j * stride], w(sign * (k * j), n)));
    }
  }

  /** The quadratic loop for a prime length. `x` and `out` are slices starting at `xo` and `oo`. */
  method PrimeTransform(x: array<Cpx>, xo: nat, stride: nat, n: nat, sign: int, w: Twiddle, out: array<Cpx>, oo: nat)
    requires n >= 1 && x != out
    requires xo + (n - 1) * stride < x.Length && oo + n <= out.Length
    modifies out
    ensures HoldsAt(out[..], oo, Signed(w, sign), x[..], xo, stride, n)
    ensures forall i :: 0 <= i < out.Length && !(oo <= i < oo + n) ==> out[i] == old(out[i])
  {
    ghost var xs := x[..];
    for k := 0 to n
      invariant x[..] == xs
      invariant forall i :: oo <= i < oo + k ==> out[i] == Dft(Signed(w, sign), xs, xo, stride, n, i - oo)
      invariant forall i :: 0 <= i < out.Length && !(oo <= i < oo + n) ==> out[i] == old(out[i])
    {
      var acc := PrimeBin(x, xo, stride, n, sign, w, k);
      out[oo + k] := acc;
    }
  }

  /** The inner butterfly loop: bin k out of p sub-transforms of length m, stored one after another. */
  method CombineBin(sub: array<Cpx>, p: nat, m: nat, sign: int, w: Twiddle, k: nat,
                    ghost x: seq<Cpx>, ghost xo: nat, ghost stride: nat) returns (acc: Cpx)
    requires p >= 1 && m >= 1 && sub.Length == p * m
    requires RootsOfUnity(Signed(w, sign))
    requires BlocksDone(sub[..], Signed(w, sign), x, xo, stride, p, m, p)
    ensures acc == Dft(Signed(w, sign), x, xo, stride, p * m, k)
  {
    var kmod := k % m;
    ghost var v := Signed(w, sign);
    ghost var terms := Butterfly(v, x, xo, stride, p, m, k);
    acc := ZERO;
    for q := 0 to p
      invariant acc == Sum(q, terms)
    {
      BlockInBounds(q, p, m);
      assert BlockDone(sub[..], v, x, xo, stride, p, m, q);
      assert sub[..][q * m + kmod] == Dft(v, x, xo + q * stride, stride * p, m, kmod);
      assert terms(q) == Mul(sub[q * m + kmod], w(sign * (k * q), p * m));
      acc := Add(acc, Mul(sub[q * m + kmod], w(sign * (k * q), p * m)));
    }
    CooleyTukey(v, x, xo, stride, p, m, k);
  }

  method Combine(sub: array<Cpx>, p: nat, m: nat, sign: int, w: Twiddle, out: array<Cpx>, oo: nat,
                 ghost x: seq<Cpx>, ghost xo: nat, ghost stride: nat)
    requires p >= 1 && m >= 1 && sub != out && sub.Length == p * m && oo + p * m <= out.Length
    requires RootsOfUnity(Signed(w, sign))
    requires BlocksDone(sub[..], Signed(w, sign), x, xo, stride, p, m, p)
    modifies out
    ensures HoldsAt(out[..], oo, Signed(w, sign), x, xo, stride, p * m)
    ensures forall i :: 0 <= i < out.Length && !(oo <= i < oo + p * m) ==> out[i] == old(out[i])
  {
    var n := p * m;
    ghost var before := sub[..];
    for k := 0 to n
      invariant sub[..] == before
      invariant forall i :: oo <= i < oo + k ==> out[i] == Dft(Signed(w, sign), x, xo, stride, n, i - oo)
      invariant forall i :: 0 <= i < out.Length && !(oo <= i < oo + n) ==> out[i] == old(out[i])
    {
      var acc := CombineBin(sub, p, m, sign, w, k, x, xo, stride);
      out[oo + k] := acc;
    }
  }

  /** Storing block q leaves the blocks before it as they were. */
  lemma BlocksKept(before: seq<Cpx>, after: seq<Cpx>, w: Twiddle, x: seq<Cpx>, off: int, stride: int, p: int, m: nat,
                   q: nat)
    requires |after| == |before| && BlocksDone(before, w, x, off, stride, p, m, q)
    requires forall i :: 0 <= i < |before| && !(q * m <= i < q * m + m) ==> after[i] == before[i]
    requires BlockDone(after, w, x, off, stride, p, m, q)
    ensures BlocksDone(after, w, x, off, stride, p, m, q + 1)
  {
    forall i | 0 <= i < q
      ensures BlockDone(after, w, x, off, stride, p, m, i)
    {
      assert BlockDone(before, w, x, off, stride, p, m, i);
      BlocksDisjoint(i, q, m);
      BlockKept(before, after, i * m, q * m, w, x, off + i * stride, stride * p, m);
    }
  }

  lemma BlockKept(before: seq<Cpx>, after: seq<Cpx>, start: int, written: int, w: Twiddle, x: seq<Cpx>, off: int,
                  stride: int, m: nat)
    requires |after| == |before| && start + m <= written
    requires HoldsAt(before, start, w, x, off, stride, m)
    requires forall i :: 0 <= i < |before| && !(written <= i < written + m) ==> after[i] == before[i]
    ensures HoldsAt(after, start, w, x, off, stride, m)
  {
  }

  /** The p sub-transforms, each of length m, into a fresh scratch array. */
  method SubTransforms(x: array<Cpx>, xo: nat, stride: nat, p: nat, m: nat, sign: int, w: Twiddle)
    returns (sub: array<Cpx>)
    requires p >= 2 && m >= 1 && xo + (p * m - 1) * stride < x.Length
    requires RootsOfUnity(w)
    ensures fresh(sub) && sub.Length == p * m
    ensures BlocksDone(sub[..], Signed(w, sign), x[..], xo, stride, p, m, p)
    decreases p * m, 0
  {
    sub := new Cpx[p * m];
    ghost var v, xs := Signed(w, sign), x[..];
    assert m < p * m by { TimesMonotone(2, p, m); }
    for q := 0 to p
      invariant x[..] == xs
      invariant BlocksDone(sub[..], v, xs, xo, stride, p, m, q)
    {
      SubSliceInBounds(xo, stride, p, m, q, x.Length);
      BlockInBounds(q, p, m);
      ghost var before := sub[..];
      var start, xq, sq := q * m, xo + q * stride, stride * p;
      FftRec(x, xq, sq, m, sign, w, sub, start);
      BlocksKept(before, sub[..], v, xs, xo, stride, p, m, q);
    }
  }

  /** `x` and `out` are slices of the arrays given, starting at `xo` and `oo`. */
  method FftRec(x: array<Cpx>, xo: nat, stride: nat, n: nat, sign: int, w: Twiddle, out: array<Cpx>, oo: nat)
    requires n >= 1 && x != out
    requires xo + (n - 1) * stride < x.Length && oo + n <= out.Length
    requires RootsOfUnity(w)
    modifies out
    ensures HoldsAt(out[..], oo, Signed(w, sign), x[..], xo, stride, n)
    ensures forall i :: 0 <= i < out.Length && !(oo <= i < oo + n) ==> out[i] == old(out[i])
    decreases n, 1
  {
    SignedRootsOfUnity(w, sign);
    if n == 1 {
      LengthOne(Signed(w, sign), x[..], xo, stride);
      out[oo] := x[xo];
      return;
    }
    var p := SmallestFactor(n);
    if p == n {
      PrimeTransform(x, xo, stride, n, sign, w, out, oo);
      return;
    }
    CofactorDivides(n, p);
    var m := n / p;
    ghost var xs := x[..];
    var sub := SubTransforms(x, xo, stride, p, m, sign, w);
    Combine(sub, p, m, sign, w, out, oo, xs, xo, stride);
    assert x[..] == xs;
  }

  lemma LengthOne(w: Twiddle, x: seq<Cpx>, off: int, stride: int)
    requires RootsOfUnity(w) && 0 <= off < |x|
    ensures Dft(w, x, off, stride, 1, 0) == x[off]
  {
    UnityAtZero(w, 1);
    var terms := Terms(w, x, off, stride, 1, 0);
    assert terms(0) == Mul(x[off], w(0, 1));
    assert Sum(1, terms) == Add(Sum(0, terms), terms(0));
  }

  method Cfft(input: array<Cpx>, out: array<Cpx>, sign: int, w: Twiddle)
    requires input != out && 1 <= input.Length <= out.Length
    requires RootsOfUnity(w)
    modifies out
    ensures out[..input.Length] == Spectrum(Signed(w, sign), input[..])
    ensures out[input.Length..] == old(out[input.Length..])
  {
    FftRec(input, 0, 1, input.Length, sign, w, out, 0);
    ghost var spec := Spectrum(Signed(w, sign), input[..]);
    assert forall k :: 0 <= k < input.Length ==> out[..][k] == spec[k];
  }
}
