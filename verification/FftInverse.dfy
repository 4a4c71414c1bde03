/**
  The inverse transform undoes the forward one up to the length, for complex spectra and for the
  packed real layout that the perceptual model works on.
 */
module FftInverse {
  import opened Arith
  import opened Complex
  import opened Fft

  function Times(n: int, a: Cpx): Cpx {
    Cpx(n as real * a.re, n as real * a.im)
  }

  function Powers(w: Twiddle, n: int, d: int): int -> Cpx {
    (k: int) => w(k * d, n)
  }

  lemma OtherRootsDiffer(w: Twiddle, n: nat, d: int)
    requires n >= 1 && RootsOfUnity(w) && PrimitiveAt(w, n) && d % n != 0
    ensures w(d, n) != ONE
  {
    Periodic(w, d % n, n, d / n);
    assert d % n + (d / n) * n == d;
  }

  lemma NextPower(w: Twiddle, n: nat, d: int, k: int)
    requires n >= 1 && RootsOfUnity(w)
    ensures Shifted(Powers(w, n, d), 1)(k) == Mul(Powers(w, n, d)(k), w(d, n))
  {
    assert AddLaw(w, k * d, d, n);
    TimesSuccessor(k, d);
  }

  lemma PowersMeet(w: Twiddle, n: nat, d: int)
    requires n >= 1 && RootsOfUnity(w)
    ensures Powers(w, n, d)(0) == Powers(w, n, d)(n) == ONE
  {
    UnityAtZero(w, n);
    UnityAtMultiple(w, n, d);
    assert n * d == d * n;
  }

  /** Multiplying by the root shifts the powers by one place, which brings back the same sum. */
  lemma PowersTurn(w: Twiddle, n: nat, d: int)
    requires n >= 1 && RootsOfUnity(w)
    ensures Mul(Sum(n, Powers(w, n, d)), w(d, n)) == Sum(n, Powers(w, n, d))
  {
    var f := Powers(w, n, d);
    forall k | 0 <= k < n
      ensures Shifted(f, 1)(k) == Mul(f(k), w(d, n))
    {
      NextPower(w, n, d, k);
    }
    SumScaled(n, f, w(d, n), Shifted(f, 1));
    PowersMeet(w, n, d);
    SumTurned(n, f);
  }

  lemma FixedByOtherThanOne(s: Cpx, root: Cpx)
    requires Mul(s, root) == s && root != ONE
    ensures s == ZERO
  {
    var gap := Cpx(root.re - 1.0, root.im);
    assert gap != ZERO by {
      assert root == Cpx(root.re, root.im);
    }
    assert Mul(gap, s) == ZERO;
    NoZeroDivisors(gap, s);
  }

  /** The n powers of a root other than 1 cancel out. */
  lemma PowersCancel(w: Twiddle, n: nat, d: int)
    requires n >= 1 && RootsOfUnity(w) && PrimitiveAt(w, n) && d % n != 0
    ensures Sum(n, Powers(w, n, d)) == ZERO
  {
    OtherRootsDiffer(w, n, d);
    PowersTurn(w, n, d);
    FixedByOtherThanOne(Sum(n, Powers(w, n, d)), w(d, n));
  }

  lemma {:induction false} SumOfOnes(n: nat, f: int -> Cpx)
    requires forall i :: 0 <= i < n ==> f(i) == ONE
    ensures Sum(n, f) == Cpx(n as real, 0.0)
  {
    if n > 0 {
      SumOfOnes(n - 1, f);
    }
  }

  /** Contribution of input i to output t through bin j. */
  function Path(w: Twiddle, x: seq<Cpx>, t: int): (int, int) -> Cpx {
    (j: int, i: int) => Mul(Mul(At(x, i), w(-(j * i), |x|)), w(t * j, |x|))
  }

  lemma PathOfBin(w: Twiddle, x: seq<Cpx>, t: int, j: int, i: int)
    ensures Grid(Path(w, x, t), j)(i) == Mul(Terms(Signed(w, -1), x, 0, 1, |x|, j)(i), w(t * j, |x|))
  {
    assert 0 + i * 1 == i && -1 * (j * i) == -(j * i);
  }

  lemma PathThroughBin(w: Twiddle, x: seq<Cpx>, t: int, j: int)
    requires |x| >= 1 && 0 <= j < |x|
    ensures RowSums(Path(w, x, t), |x|)(j)
         == Terms(Signed(w, 1), Spectrum(Signed(w, -1), x), 0, 1, |x|, t)(j)
  {
    var n := |x|;
    var inner, row := Terms(Signed(w, -1), x, 0, 1, n, j), Grid(Path(w, x, t), j);
    forall i | 0 <= i < n
      ensures row(i) == Mul(inner(i), w(t * j, n))
    {
      PathOfBin(w, x, t, j, i);
    }
    SumScaled(n, inner, w(t * j, n), row);
    BinTerm(w, x, t, j);
  }

  lemma BinTerm(w: Twiddle, x: seq<Cpx>, t: int, j: int)
    requires 0 <= j < |x|
    ensures Terms(Signed(w, 1), Spectrum(Signed(w, -1), x), 0, 1, |x|, t)(j)
         == Mul(Dft(Signed(w, -1), x, 0, 1, |x|, j), w(t * j, |x|))
  {
    assert 0 + j * 1 == j && 1 * (t * j) == t * j;
    var spec := Spectrum(Signed(w, -1), x);
    assert spec[j] == Dft(Signed(w, -1), x, 0, 1, |x|, j);
    assert At(spec, 0 + j * 1) == spec[j];
    assert Signed(w, 1)(t * j, |x|) == w(t * j, |x|);
  }

  lemma PathTerm(w: Twiddle, x: seq<Cpx>, t: int, i: int, j: int)
    requires RootsOfUnity(w) && 0 <= i < |x|
    ensures Path(w, x, t)(j, i) == Mul(w(j * (t - i), |x|), x[i])
  {
    var n := |x|;
    assert AddLaw(w, -(j * i), t * j, n);
    assert -(j * i) + t * j == j * (t - i);
    MulAssociative(x[i], w(-(j * i), n), w(t * j, n));
    MulCommutes(x[i], w(j * (t - i), n));
  }

  lemma PathsScaled(w: Twiddle, x: seq<Cpx>, t: int, i: int)
    requires RootsOfUnity(w) && 0 <= i < |x|
    ensures TransposedSums(Path(w, x, t), |x|)(i) == Mul(Sum(|x|, Powers(w, |x|, t - i)), x[i])
  {
    var n := |x|;
    var f, column := Powers(w, n, t - i), Transposed(Path(w, x, t), i);
    forall j | 0 <= j < n
      ensures column(j) == Mul(f(j), x[i])
    {
      PathTerm(w, x, t, i, j);
    }
    SumScaled(n, f, x[i], column);
  }

  lemma AllOnes(w: Twiddle, n: nat)
    requires n >= 1 && RootsOfUnity(w)
    ensures Sum(n, Powers(w, n, 0)) == Cpx(n as real, 0.0)
  {
    UnityAtZero(w, n);
    var f := Powers(w, n, 0);
    assert forall j :: f(j) == w(j * 0, n) == ONE;
    SumOfOnes(n, f);
  }

  lemma PathFromInput(w: Twiddle, x: seq<Cpx>, t: int, i: int)
    requires RootsOfUnity(w) && PrimitiveAt(w, |x|) && 0 <= t < |x| && 0 <= i < |x|
    ensures TransposedSums(Path(w, x, t), |x|)(i) == if i == t then Times(|x|, x[t]) else ZERO
  {
    var n, d := |x|, t - i;
    PathsScaled(w, x, t, i);
    if i == t {
      AllOnes(w, n);
    } else {
      if d > 0 {
        DivModUnique(d, n, 0, d);
      } else {
        DivModUnique(d, n, -1, d + n);
      }
      PowersCancel(w, n, d);
    }
  }

  /** The unnormalised inverse transform of the forward transform is the input times its length. */
  lemma InverseUndoesForward(w: Twiddle, x: seq<Cpx>, t: int)
    requires RootsOfUnity(w) && PrimitiveAt(w, |x|) && 0 <= t < |x|
    ensures Spectrum(Signed(w, 1), Spectrum(Signed(w, -1), x))[t] == Times(|x|, x[t])
  {
    var n := |x|;
    var f := Path(w, x, t);
    forall j | 0 <= j < n
      ensures RowSums(f, n)(j) == Terms(Signed(w, 1), Spectrum(Signed(w, -1), x), 0, 1, n, t)(j)
    {
      PathThroughBin(w, x, t, j);
    }
    SumExtensional(n, RowSums(f, n), Terms(Signed(w, 1), Spectrum(Signed(w, -1), x), 0, 1, n, t));
    SumExchange(n, n, f);
    forall i | 0 <= i < n
      ensures TransposedSums(f, n)(i) == if i == t then Times(n, x[t]) else ZERO
    {
      PathFromInput(w, x, t, i);
    }
    SumSingle(n, TransposedSums(f, n), t);
  }

  // ----- the packed real layout -----

  function Complexify(time: seq<real>): (x: seq<Cpx>)
    ensures |x| == |time|
  {
    seq(|time|, i requires 0 <= i < |time| => Cpx(time[i], 0.0))
  }

  function RealSpectrum(w: Twiddle, time: seq<real>): (spec: seq<Cpx>)
    ensures |spec| == |time|
  {
    Spectrum(Signed(w, -1), Complexify(time))
  }

  /** The ordered layout of a spectrum: DC, Nyquist, then the pairs of the bins between. */
  ghost predicate Packs(f: seq<real>, spec: seq<Cpx>) {
    && |f| == |spec| >= 2
    && f[0] == spec[0].re && f[1] == spec[|f| / 2].re
    && forall i :: 1 <= i < |f| / 2 ==> f[2 * i] == spec[i].re && f[2 * i + 1] == spec[i].im
  }

  /** The spectrum that the packed layout stands for: the upper bins mirror the lower ones. */
  function Unpacked(f: seq<real>): (spec: seq<Cpx>)
    requires |f| >= 2
    ensures |spec| == |f|
  {
    seq(|f|, i requires 0 <= i < |f| => UnpackedAt(f, i))
  }

  function UnpackedAt(f: seq<real>, i: int): Cpx
    requires 0 <= i < |f| && |f| >= 2
  {
    var n := |f|;
    if i == 0 then Cpx(f[0], 0.0)
    else if i == n / 2 then Cpx(f[1], 0.0)
    else if i < n / 2 then Cpx(f[2 * i], f[2 * i + 1])
    else if i > n - n / 2 then Cpx(f[2 * (n - i)], -f[2 * (n - i) + 1])
    else ZERO
  }

  /** The copy loop of the forward transform. */
  method ToComplex(time: array<real>) returns (cin: array<Cpx>)
    ensures fresh(cin) && cin[..] == Complexify(time[..])
  {
    cin := new Cpx[time.Length](i => ZERO);
    for i := 0 to time.Length
      invariant forall j :: 0 <= j < i ==> cin[j] == Cpx(time[j], 0.0)
    {
      cin[i] := Cpx(time[i], 0.0);
    }
  }

  /** The packing loop of the forward transform. */
  method Pack(spec: array<Cpx>, f: array<real>)
    requires 2 <= f.Length == spec.Length
    modifies f
    ensures Packs(f[..], spec[..])
  {
    var n := f.Length;
    f[0] := spec[0].re;
    f[1] := spec[n / 2].re;
    for i := 1 to n / 2
      invariant f[0] == spec[0].re && f[1] == spec[n / 2].re
      invariant forall j :: 1 <= j < i ==> f[2 * j] == spec[j].re && f[2 * j + 1] == spec[j].im
    {
      f[2 * i] := spec[i].re;
      f[2 * i + 1] := spec[i].im;
    }
  }

  method RfftForwardOrdered(time: array<real>, f: array<real>, w: Twiddle)
    requires time != f && 2 <= time.Length == f.Length
    requires RootsOfUnity(w)
    modifies f
    ensures Packs(f[..], RealSpectrum(w, time[..]))
  {
    var n := time.Length;
    ghost var ts := time[..];
    var cin := ToComplex(time);
    var out := new Cpx[n](i => ZERO);
    Cfft(cin, out, -1, w);
    assert out[..] == out[..n];
    Pack(out, f);
    assert time[..] == ts;
  }

  /** The first half of the backward transform: the loop that rebuilds the spectrum. */
  method Unpack(f: array<real>) returns (spec: array<Cpx>)
    requires f.Length >= 2
    ensures fresh(spec) && spec[..] == Unpacked(f[..])
  {
    var n := f.Length;
    spec := new Cpx[n](i => ZERO);
    spec[0] := Cpx(f[0], 0.0);
    spec[n / 2] := Cpx(f[1], 0.0);
    ghost var fs := f[..];
    for i := 1 to n / 2
      invariant f[..] == fs
      invariant forall j :: 0 <= j < n ==>
                spec[j] == if j < i || j > n - i || j == n / 2 then UnpackedAt(fs, j) else ZERO
    {
      var re, im := f[2 * i], f[2 * i + 1];
      spec[i] := Cpx(re, im);
      spec[n - i] := Cpx(re, -im);
    }
  }

  method RfftBackwardOrdered(f: array<real>, time: array<real>, w: Twiddle)
    requires time != f && 2 <= time.Length == f.Length
    requires RootsOfUnity(w)
    modifies time
    ensures forall t :: 0 <= t < time.Length ==> time[t] == Spectrum(Signed(w, 1), Unpacked(f[..]))[t].re
  {
    var n := f.Length;
    ghost var fs := f[..];
    var spec := Unpack(f);
    var tout := new Cpx[n](i => ZERO);
    Cfft(spec, tout, 1, w);
    ghost var inverse := Spectrum(Signed(w, 1), Unpacked(fs));
    assert tout[..] == inverse by { assert tout[..] == tout[..n]; }
    for i := 0 to n
      invariant f[..] == fs && tout[..] == inverse
      invariant forall t :: 0 <= t < i ==> time[t] == inverse[t].re
    {
      time[i] := tout[i].re;
    }
  }

  // ----- the round trip of the packed layout -----

  lemma BinAt(w: Twiddle, time: seq<real>, k: int)
    requires 0 <= k < |time|
    ensures RealSpectrum(w, time)[k] == Dft(Signed(w, -1), Complexify(time), 0, 1, |time|, k)
  {
  }

  lemma MirrorTerm(w: Twiddle, time: seq<real>, k: int, j: int)
    requires RootsOfUnity(w) && OnUnitCircle(w) && 0 <= j < |time|
    ensures Terms(Signed(w, -1), Complexify(time), 0, 1, |time|, |time| - k)(j)
         == Conj(Terms(Signed(w, -1), Complexify(time), 0, 1, |time|, k)(j))
  {
    var n := |time|;
    var a := Cpx(time[j], 0.0);
    assert 0 + j * 1 == j && At(Complexify(time), j) == a;
    assert -1 * (k * j) == -(k * j);
    assert Conj(w(-(k * j), n)) == w(k * j, n);
    TimesDistributes(n, -k, j);
    assert -1 * ((n - k) * j) == k * j + (-j) * n;
    Periodic(w, k * j, n, -j);
    ConjMul(a, w(-(k * j), n));
  }

  /** The spectrum of a real signal mirrors: bin n - k is the conjugate of bin k. */
  lemma BinsMirror(w: Twiddle, time: seq<real>, k: int)
    requires RootsOfUnity(w) && OnUnitCircle(w) && 1 <= k < |time|
    ensures RealSpectrum(w, time)[|time| - k] == Conj(RealSpectrum(w, time)[k])
  {
    var n, x := |time|, Complexify(time);
    var f, g := Terms(Signed(w, -1), x, 0, 1, n, k), Terms(Signed(w, -1), x, 0, 1, n, n - k);
    forall j | 0 <= j < n
      ensures g(j) == Conj(f(j))
    {
      MirrorTerm(w, time, k, j);
    }
    SumConj(n, f, g);
    BinAt(w, time, k);
    BinAt(w, time, n - k);
  }

  lemma {:induction false} SumOfReals(n: nat, f: int -> Cpx)
    requires forall i :: 0 <= i < n ==> f(i).im == 0.0
    ensures Sum(n, f).im == 0.0
  {
    if n > 0 {
      SumOfReals(n - 1, f);
    }
  }

  /** Where the twiddle angle is zero the term is the sample itself. */
  lemma PlainTerm(w: Twiddle, x: seq<Cpx>, sign: int, n: int, k: int, j: int)
    requires RootsOfUnity(w) && n >= 1 && (k == 0 || j == 0)
    ensures Terms(Signed(w, sign), x, 0, 1, n, k)(j) == At(x, j)
  {
    UnityAtZero(w, n);
    assert k * j == 0 && sign * (k * j) == 0;
    assert Signed(w, sign)(k * j, n) == w(0, n);
    assert 0 + j * 1 == j;
    assert Mul(At(x, j), ONE) == At(x, j);
  }

  lemma DcIsReal(w: Twiddle, time: seq<real>)
    requires RootsOfUnity(w) && |time| >= 1
    ensures RealSpectrum(w, time)[0].im == 0.0
  {
    var n := |time|;
    var f := Terms(Signed(w, -1), Complexify(time), 0, 1, n, 0);
    forall j | 0 <= j < n
      ensures f(j).im == 0.0
    {
      PlainTerm(w, Complexify(time), -1, n, 0, j);
    }
    SumOfReals(n, f);
    BinAt(w, time, 0);
  }

  /** For an even length nothing is lost by packing. */
  lemma UnpackedIsSpectrum(w: Twiddle, time: seq<real>, f: seq<real>)
    requires RootsOfUnity(w) && OnUnitCircle(w)
    requires |time| >= 2 && |time| % 2 == 0 && Packs(f, RealSpectrum(w, time))
    ensures Unpacked(f) == RealSpectrum(w, time)
  {
    var n, spec := |time|, RealSpectrum(w, time);
    DcIsReal(w, time);
    BinsMirror(w, time, n / 2);
    assert spec[n / 2] == Conj(spec[n / 2]);
    forall i | 0 <= i < n
      ensures Unpacked(f)[i] == spec[i]
    {
      if i > n / 2 {
        BinsMirror(w, time, n - i);
      }
    }
  }

  ghost predicate Recovers(w: Twiddle, time: seq<real>, f: seq<real>)
    requires |f| == |time| >= 2
  {
    forall t :: 0 <= t < |time| ==> Spectrum(Signed(w, 1), Unpacked(f))[t].re == |time| as real * time[t]
  }

  /** An even-length real signal comes back from the packed layout times its length. */
  lemma EvenRoundTrip(w: Twiddle, time: seq<real>, f: seq<real>)
    requires RootsOfUnity(w) && OnUnitCircle(w) && PrimitiveAt(w, |time|)
    requires |time| >= 2 && |time| % 2 == 0 && Packs(f, RealSpectrum(w, time))
    ensures Recovers(w, time, f)
  {
    hide RootsOfUnity, OnUnitCircle, Packs, Unpacked;
    UnpackedIsSpectrum(w, time, f);
    forall t | 0 <= t < |time|
      ensures Spectrum(Signed(w, 1), Unpacked(f))[t].re == |time| as real * time[t]
    {
      InverseUndoesForward(w, Complexify(time), t);
    }
  }

  function Impulse(n: nat): (time: seq<real>)
    ensures |time| == n
  {
    seq(n, i => if i == 0 then 1.0 else 0.0)
  }

  lemma ImpulseSpectrum(w: Twiddle, n: nat, k: int)
    requires RootsOfUnity(w) && 0 <= k < n
    ensures RealSpectrum(w, Impulse(n))[k] == ONE
  {
    var time := Impulse(n);
    var f := Terms(Signed(w, -1), Complexify(time), 0, 1, n, k);
    PlainTerm(w, Complexify(time), -1, n, k, 0);
    assert f(0) == ONE;
    forall j | 0 <= j < n && j != 0
      ensures f(j) == ZERO
    {
      assert 0 + j * 1 == j && At(Complexify(time), j) == ZERO;
      MulZero(w(-1 * (k * j), n));
    }
    SumSingle(n, f, 0);
    BinAt(w, time, k);
  }

  lemma {:induction false} SumOfOnesButOne(n: nat, f: int -> Cpx, hole: nat)
    requires hole < n && f(hole) == ZERO && forall i :: 0 <= i < n && i != hole ==> f(i) == ONE
    ensures Sum(n, f) == Cpx((n - 1) as real, 0.0)
  {
    if hole == n - 1 {
      SumOfOnes(n - 1, f);
    } else {
      SumOfOnesButOne(n - 1, f, hole);
    }
  }

  function PackedImpulse(n: nat): (f: seq<real>)
    ensures |f| == n
  {
    seq(n, i => if i < 2 || i % 2 == 0 then 1.0 else 0.0)
  }

  lemma ImpulsePacks(w: Twiddle, n: nat)
    requires RootsOfUnity(w) && n >= 3
    ensures Packs(PackedImpulse(n), RealSpectrum(w, Impulse(n)))
  {
    hide RealSpectrum, Impulse;
    forall k | 0 <= k < n
      ensures RealSpectrum(w, Impulse(n))[k] == ONE
    {
      ImpulseSpectrum(w, n, k);
    }
  }

  lemma ImpulseUnpacked(n: nat, j: int)
    requires n >= 3 && n % 2 == 1 && 0 <= j < n
    ensures Unpacked(PackedImpulse(n))[j] == if j == n / 2 + 1 then ZERO else ONE
  {
    assert Unpacked(PackedImpulse(n))[j] == UnpackedAt(PackedImpulse(n), j);
  }

  lemma ImpulseComesBackShort(w: Twiddle, n: nat)
    requires RootsOfUnity(w) && n >= 3 && n % 2 == 1
    ensures Spectrum(Signed(w, 1), Unpacked(PackedImpulse(n)))[0].re == (n - 1) as real
  {
    var spec := Unpacked(PackedImpulse(n));
    var g := Terms(Signed(w, 1), spec, 0, 1, n, 0);
    forall j | 0 <= j < n
      ensures g(j) == if j == n / 2 + 1 then ZERO else ONE
    {
      PlainTerm(w, spec, 1, n, 0, j);
      ImpulseUnpacked(n, j);
    }
    SumOfOnesButOne(n, g, n / 2 + 1);
    assert Spectrum(Signed(w, 1), spec)[0] == Dft(Signed(w, 1), spec, 0, 1, n, 0);
  }

  /** For an odd length bin n / 2 + 1 has no place in the layout, and the unit impulse comes back short. */
  lemma OddRoundTripFails(w: Twiddle, n: nat)
    requires RootsOfUnity(w) && n >= 3 && n % 2 == 1
    ensures Packs(PackedImpulse(n), RealSpectrum(w, Impulse(n)))
    ensures !Recovers(w, Impulse(n), PackedImpulse(n))
  {
    ImpulsePacks(w, n);
    ImpulseComesBackShort(w, n);
    assert Impulse(n)[0] == 1.0;
  }

  ghost predicate AlwaysRecovers(w: Twiddle, n: nat)
    requires n >= 2
  {
    forall time: seq<real>, f: seq<real> ::
      |time| == n && |f| == n && Packs(f, RealSpectrum(w, time)) ==> Recovers(w, time, f)
  }

  /** The packed real transform pair loses nothing exactly when the length is even. */
  lemma RoundTripExactlyWhenEven(w: Twiddle, n: nat)
    requires RootsOfUnity(w) && OnUnitCircle(w) && PrimitiveAt(w, n) && n >= 2
    ensures AlwaysRecovers(w, n) <==> n % 2 == 0
  {
    if n % 2 == 0 {
      forall time: seq<real>, f: seq<real> | |time| == n && |f| == n && Packs(f, RealSpectrum(w, time))
        ensures Recovers(w, time, f)
      {
        EvenRoundTrip(w, time, f);
      }
    } else {
      OddRoundTripFails(w, n);
    }
  }
}
