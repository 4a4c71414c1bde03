/**
  What the numbers of the root search mean: how close the fixed-point values are to the polynomials and to the
  chirped coefficients, and where in a table step the refined root lies.
 */
module RootMeaning {
  import opened Arith
  import opened Reals
  import opened Fixed
  import opened A2Nlsf
  import opened RootScan
  import opened RootSearch
  import opened TameSearch
  import opened SmallCoefficients

  // ----- values of polynomials -----

  /** The polynomial from coefficient n on, at x / 4096, without rounding. */
  function Exact(p: seq<int>, x: int, n: nat): real
    requires n < |p|
    decreases |p| - n
  {
    if n == |p| - 1 then p[n] as real else p[n] as real + Exact(p, x, n + 1) * (x as real / 4096.0)
  }

  /** One step of Horner's rule, when nothing wraps around. */
  lemma HornerRounds(a: int, y: int, x: int)
    requires InTable(x) && Abs(a) + 2 * Abs(y) < SAFE
    ensures var v := a as real + y as real * (x as real / 4096.0);
            v - 1.0 < Smlaww(a, y, Wrap32(x * 16)) as real <= v
  {
    var c, m := x * 16, y * (x * 16);
    TimesMonotone(-131072, c, Abs(y));
    TimesMonotone(c, 131072, Abs(y));
    assert m == Abs(y) * c || m == -(Abs(y) * c);
    assert -TWO31 <= a + m / 65536 < TWO31;
    var f := m / 65536;
    assert 65536 * f <= m < 65536 * f + 65536;
    assert m as real == y as real * (x as real * 16.0);
    assert y as real * (x as real / 4096.0) == m as real / 65536.0;
  }

  /** Polynomials of small size are evaluated up to a rounding error below 2 to the degree. */
  lemma {:induction false} EvalIsNear(p: seq<int>, x: int, n: nat)
    requires n < |p| && InTable(x) && Size(p[n..]) < SAFE
    ensures Near(EvalFrom(p, x, n) as real, Exact(p, x, n), Pow2(|p| - 1 - n) as real - 1.0)
    decreases |p| - n
  {
    hide Size, Smlaww, Abs;
    if n < |p| - 1 {
      TailSize(p, n);
      ValueBelowSize(p, x, n + 1);
      EvalIsNear(p, x, n + 1);
      var y, e, z := EvalFrom(p, x, n + 1), Exact(p, x, n + 1), x as real / 4096.0;
      HornerRounds(p[n], y, x);
      ProductBounded(y as real - e, Pow2(|p| - 2 - n) as real - 1.0, z, 2.0);
      assert (y as real - e) * z == y as real * z - e * z;
    }
  }

  // ----- the chirp -----

  /** The chirp factor at coefficient i. */
  function ChirpAt(c: int, i: nat): int {
    if i == 0 then c
    else
      var before := ChirpAt(c, i - 1);
      Wrap32(before + RshiftRound16(Wrap32(before * Wrap32(c - 65536))))
  }

  lemma {:induction false} ExpandFromAt(a: seq<int>, d: nat, i: nat, c: int, k: nat)
    requires 1 <= d <= |a| && i < d && k < |a|
    ensures ExpandFrom(a, d, i, ChirpAt(c, i), Wrap32(c - 65536))[k] ==
            if i <= k < d then Chirped(ChirpAt(c, k), a[k]) else a[k]
    decreases d - i
  {
    hide Wrap32, Chirped, RshiftRound16;
    if i < d - 1 {
      ExpandFromAt(a[i := Chirped(ChirpAt(c, i), a[i])], d, i + 1, c, k);
    }
  }

  lemma RoundedShift(x: int)
    ensures 2 * x - 65536 <= 2 * 65536 * RshiftRound16(x) <= 2 * x + 65536
  {
  }

  lemma ChirpProduct(c: int, before: int)
    requires 0 <= before <= c <= 65536
    ensures var m := before * (c - 65536);
            -TWO31 <= m <= 0 && m == c * before - 65536 * before && 0 <= c * before
  {
    TimesMonotone(before, c, 65536 - c);
    TimesMonotone(0, before, 65536 - c);
    assert (c - 32768) * (c - 32768) >= 0;
    assert c * (65536 - c) == 32768 * 32768 - (c - 32768) * (c - 32768);
  }

  /** The factor after one more step: c / 65536 of the one before, up to half a unit. */
  lemma ChirpStep(c: int, before: int)
    requires 0 <= before <= c <= 65536
    ensures var next := Wrap32(before + RshiftRound16(Wrap32(before * Wrap32(c - 65536))));
            0 <= next <= c && 2 * c * before - 65536 <= 2 * 65536 * next <= 2 * c * before + 65536
  {
    var m := before * (c - 65536);
    ChirpProduct(c, before);
    RoundedShift(m);
    var product, shifted := c * before, RshiftRound16(m);
    assert m == product - 65536 * before;
    hide RshiftRound16;
    assert Wrap32(c - 65536) == c - 65536 && Wrap32(m) == m;
    assert 2 * product - 65536 <= 2 * 65536 * (before + shifted) <= 2 * product + 65536;
    assert 0 <= before + shifted <= before;
  }

  /** A chirp factor is power i + 1 of the first one, up to half a unit for each step. */
  ghost predicate IsChirp(chirp: int, c: int, i: nat) {
    Near(chirp as real, 65536.0 * Power(c as real / 65536.0, i + 1), i as real / 2.0)
  }

  lemma FirstChirp(c: int)
    ensures IsChirp(c, c, 0)
  {
    var r := c as real / 65536.0;
    assert Power(r, 1) == r * Power(r, 0);
  }

  lemma NextChirp(before: int, next: int, c: int, i: nat)
    requires 0 <= c <= 65536 && IsChirp(before, c, i)
    requires 2 * c * before - 65536 <= 2 * 65536 * next <= 2 * c * before + 65536
    ensures IsChirp(next, c, i + 1)
  {
    var r := c as real / 65536.0;
    var p, b := Power(r, i + 1), before as real;
    var e := b - 65536.0 * p;
    assert (c * before) as real == 65536.0 * (r * b);
    assert Near(next as real, r * b, 0.5);
    assert r * b - 65536.0 * (r * p) == r * e;
    ProductBounded(r, 1.0, e, i as real / 2.0);
    assert Power(r, i + 2) == r * p;
  }

  lemma {:induction false} ChirpIsPower(c: int, i: nat)
    requires 0 <= c <= 65536
    ensures 0 <= ChirpAt(c, i) <= c && IsChirp(ChirpAt(c, i), c, i)
  {
    hide Wrap32, RshiftRound16, IsChirp;
    if i == 0 {
      FirstChirp(c);
    } else {
      ChirpIsPower(c, i - 1);
      ChirpStep(c, ChirpAt(c, i - 1));
      NextChirp(ChirpAt(c, i - 1), ChirpAt(c, i), c, i - 1);
    }
  }

  lemma ExpandAt(a: seq<int>, d: nat, c: int, k: nat)
    requires 1 <= d <= |a| && k < |a|
    ensures Expand(a, d, c)[k] == if k < d then Chirped(ChirpAt(c, k), a[k]) else a[k]
  {
    assert ChirpAt(c, 0) == c;
    hide ChirpAt, ExpandFrom, Wrap32, Chirped;
    ExpandFromAt(a, d, 0, c, k);
  }

  /** The coefficient v scaled by power k + 1 of c / 65536, up to one unit and k half units of the factor. */
  ghost predicate IsScaled(scaled: int, v: int, c: int, k: nat) {
    Near(scaled as real, v as real * Power(c as real / 65536.0, k + 1),
         1.0 + Abs(v) as real * (k as real / 2.0 / 65536.0))
  }

  /** Bandwidth expansion scales coefficient k by power k + 1 of the factor; coefficients from d on stay. */
  lemma ExpandScales(a: seq<int>, d: nat, c: int, k: nat)
    requires 1 <= d <= |a| && k < |a| && 0 <= c <= 65536 && IsInt32(a[k])
    ensures if k < d then IsScaled(Expand(a, d, c)[k], a[k], c, k) else Expand(a, d, c)[k] == a[k]
  {
    hide IsScaled, IsChirp, Chirped, ChirpAt, Expand;
    ExpandAt(a, d, c, k);
    ChirpIsPower(c, k);
    ScaledNear(a[k], ChirpAt(c, k), c, k);
  }

  lemma FloorFits(v: int, chirp: int)
    requires IsInt32(v) && 0 <= chirp <= 65536
    ensures IsInt32(chirp * v / 65536)
  {
    TimesMonotone(0, chirp, Abs(v));
    TimesMonotone(chirp, 65536, Abs(v));
    assert chirp * v == chirp * Abs(v) || chirp * v == -(chirp * Abs(v));
  }

  lemma FloorNear(m: int)
    ensures Near((m / 65536) as real, m as real / 65536.0, 1.0)
  {
    var f := m / 65536;
    assert 65536 * f <= m < 65536 * f + 65536;
  }

  lemma ScaledNear(v: int, chirp: int, c: int, k: nat)
    requires IsInt32(v) && 0 <= chirp <= 65536 && IsChirp(chirp, c, k)
    ensures IsScaled(Chirped(chirp, v), v, c, k)
  {
    FloorFits(v, chirp);
    FloorNear(chirp * v);
    var p, w := Power(c as real / 65536.0, k + 1), v as real;
    var e := chirp as real / 65536.0 - p;
    ProductBounded(w, Abs(v) as real, e, k as real / 2.0 / 65536.0);
    QuotientOfProduct(chirp, v);
    assert w * (e + p) == w * e + w * p;
  }

  lemma QuotientOfProduct(c: int, v: int)
    ensures (c * v) as real / 65536.0 == v as real * (c as real / 65536.0)
  {
    assert (c * v) as real == c as real * v as real;
  }

  // ----- where in a table step the root is -----

  /** The interval is number c of w equal parts of the start, each end within a few units, and ffrac says so. */
  ghost predicate IsPart(start: Interval, b: Interval, w: int, c: int, error: int)
    requires w != 0
  {
    && 0 <= c < w && b.ffrac == start.ffrac + c * (256 / w)
    && IsMark(start, b.x0, w, c, error) && IsMark(start, b.x1, w, c + 1, error)
  }

  /** The point lies c of w equal parts into the start, within a few units at that scale. */
  ghost predicate IsMark(start: Interval, x: int, w: int, c: int, error: int) {
    -error <= w * (x - start.x0) - c * (start.x1 - start.x0) <= error
  }

  lemma MidpointIsMiddle(b: Interval)
    requires InTable(b.x0) && InTable(b.x1)
    ensures -1 <= 2 * Midpoint(b) - b.x0 - b.x1 <= 1
  {
  }

  lemma FinerMark(start: Interval, x: int, w: int, c: int, error: int)
    requires w > 0 && IsMark(start, x, w, c, error)
    ensures IsMark(start, x, 2 * w, 2 * c, 2 * error + w)
  {
    var u, span := x - start.x0, start.x1 - start.x0;
    assert (2 * w) * u == 2 * (w * u) && (2 * c) * span == 2 * (c * span);
  }

  lemma MiddleMark(start: Interval, x: int, y: int, m: int, w: int, c: int, error: int)
    requires w > 0 && IsMark(start, x, w, c, error) && IsMark(start, y, w, c + 1, error)
    requires -1 <= 2 * m - x - y <= 1
    ensures IsMark(start, m, 2 * w, 2 * c + 1, 2 * error + w)
  {
    var u, v, n, span := x - start.x0, y - start.x0, m - start.x0, start.x1 - start.x0;
    var slip := 2 * n - u - v;
    MiddleTerms(w, n, u, v, slip);
    assert (2 * c + 1) * span == c * span + (c + 1) * span;
  }

  lemma MiddleTerms(w: int, n: int, u: int, v: int, slip: int)
    requires w > 0 && slip == 2 * n - u - v && -1 <= slip <= 1
    ensures -w <= (2 * w) * n - w * u - w * v <= w
  {
    TimesMonotone(slip, 1, w);
    TimesMonotone(-1, slip, w);
    assert (2 * w) * n - w * u - w * v == slip * w;
  }

  lemma HalfOfPart(p: seq<int>, start: Interval, b: Interval, w: int, c: int, error: int) returns (n: int)
    requires |p| >= 1 && (w == 1 || w == 2 || w == 4) && IsPart(start, b, w, c, error)
    requires InTable(b.x0) && InTable(b.x1)
    ensures IsPart(start, Halve(p, b, 128 / w), 2 * w, n, 2 * error + w)
  {
    hide Eval, Midpoint, IsMark;
    MidpointIsMiddle(b);
    FinerMark(start, b.x0, w, c, error);
    FinerMark(start, b.x1, w, c + 1, error);
    MiddleMark(start, b.x0, b.x1, Midpoint(b), w, c, error);
    n := if Brackets(b.y0, Eval(p, Midpoint(b))) then 2 * c else 2 * c + 1;
  }

  /** Three halvings end in one of the eight equal parts of the table step, which ffrac counts in 1/256 of it. */
  lemma NarrowedIsPart(p: seq<int>, ylo: int, k: nat) returns (c: int)
    requires |p| >= 1 && 1 <= k <= TABLE_STEPS && Brackets(ylo, Eval(p, CosAt(k)))
    ensures var start := Interval(CosAt(k - 1), ylo, CosAt(k), Eval(p, CosAt(k)), -256);
            IsPart(start, Narrowed(p, CosAt(k - 1), ylo, CosAt(k), Eval(p, CosAt(k))), 8, c, 12)
  {
    hide Eval, Halve, Bisected, Narrows;
    var start := Interval(CosAt(k - 1), ylo, CosAt(k), Eval(p, CosAt(k)), -256);
    assert IsPart(start, start, 1, 0, 0);
    NarrowsItself(p, start);
    var b1 := Halve(p, start, 128);
    var b2 := Halve(p, b1, 64);
    HalveStaysInTable(p, start, start, 128);
    HalveStaysInTable(p, start, b1, 64);
    hide IsPart;
    var c1 := HalfOfPart(p, start, start, 1, 0, 0);
    var c2 := HalfOfPart(p, start, b1, 2, c1, 1);
    c := HalfOfPart(p, start, b2, 4, c2, 4);
    ThreeHalvings(p, start);
  }

  lemma HalveStaysInTable(p: seq<int>, start: Interval, b: Interval, half: int)
    requires |p| >= 1 && InTable(start.x0) && InTable(start.x1) && Narrows(p, start, b)
    ensures Narrows(p, start, Halve(p, b, half))
    ensures InTable(Halve(p, b, half).x0) && InTable(Halve(p, b, half).x1)
  {
    hide Eval, Midpoint;
    HalveNarrows(p, start, b, half);
  }

  // ----- the interpolation -----

  lemma TruncBounds(a: int, b: int)
    requires b != 0
    ensures var q := TruncDiv(a, b); -AbsOf(b) < a - q * b < AbsOf(b)
  {
  }

  function AbsOf(x: int): int {
    if x < 0 then -x else x
  }

  /** Going v parts in 32 from y0 to y1 = y0 - den comes within two parts of the zero of the line between them. */
  ghost predicate IsCrossing(v: int, den: int, y0: int) {
    -2 * AbsOf(den) <= v * den - 32 * y0 <= 2 * AbsOf(den)
  }

  lemma FineQuotient(y0: int, den: int)
    requires den != 0
    ensures IsCrossing(TruncDiv(y0 * 32 + den / 2, den), den, y0)
  {
    TruncBounds(y0 * 32 + den / 2, den);
    hide TruncDiv;
  }

  lemma CoarseQuotient(y0: int, den: int)
    requires AbsOf(den) >= 65536 && 0 <= TruncDiv(y0, den / 32) <= 33
    ensures IsCrossing(TruncDiv(y0, den / 32), den, y0)
  {
    TruncBounds(y0, den / 32);
    var shifted, v := den / 32, TruncDiv(y0, den / 32);
    hide TruncDiv;
    assert 32 * shifted <= den < 32 * shifted + 32;
    SlackOfShift(v, shifted, den, y0);
  }

  /** Without overflow the interpolation is one of two quotients. */
  lemma QuotientUsed(y0: int, y1: int)
    requires Brackets(y0, y1) && IsSafe(y0) && IsSafe(y1)
    ensures var (den, r) := (y0 - y1, Interpolation(y0, y1));
            && r.Root?
            && if -65536 < y0 < 65536 then r.value == if den != 0 then TruncDiv(y0 * 32 + den / 2, den) else 0
               else den / 32 != 0 && 0 <= TruncDiv(y0, den / 32) <= 33 && r.value == TruncDiv(y0, den / 32)
  {
    var den := y0 - y1;
    if !(-65536 < y0 < 65536) {
      CoarseBounded(y0, den);
    } else if den != 0 {
      FineBounded(y0, den);
    }
    hide TruncDiv;
    assert Wrap32(den) == den && Wrap32(-y0) == -y0;
  }

  /** The interpolation is linear. */
  lemma InterpolationIsLinear(y0: int, y1: int)
    requires Brackets(y0, y1) && IsSafe(y0) && IsSafe(y1)
    ensures Interpolation(y0, y1).Root? && IsCrossing(Interpolation(y0, y1).value, y0 - y1, y0)
  {
    QuotientUsed(y0, y1);
    var den := y0 - y1;
    hide Interpolation, TruncDiv;
    if !(-65536 < y0 < 65536) {
      CoarseQuotient(y0, den);
    } else if den != 0 {
      FineQuotient(y0, den);
    }
  }

  lemma SlackOfShift(v: int, shifted: int, den: int, y0: int)
    requires 32 * shifted <= den < 32 * shifted + 32 && 0 <= v <= 33
    requires -AbsOf(shifted) < y0 - v * shifted < AbsOf(shifted)
    requires AbsOf(den) >= 65536
    ensures -2 * AbsOf(den) <= v * den - 32 * y0 <= 2 * AbsOf(den)
  {
    var rest := den - 32 * shifted;
    assert v * den == 32 * (v * shifted) + v * rest;
    TimesMonotone(0, v, rest);
    TimesMonotone(v, 33, rest);
  }

  /**
    The refined root in 1/256 of a table step: as many eighths as lie before the narrowed interval, and the
    place in it where the line through its ends crosses zero, capped at 16 bits.
   */
  lemma RefinedMeans(p: seq<int>, ylo: int, k: nat) returns (b: Interval, c: int, v: int)
    requires |p| >= 1 && 1 <= k <= TABLE_STEPS && Tame(p) && IsSafe(ylo) && Brackets(ylo, Eval(p, CosAt(k)))
    ensures var start := Interval(CosAt(k - 1), ylo, CosAt(k), Eval(p, CosAt(k)), -256);
            Narrows(p, start, b) && IsPart(start, b, 8, c, 12)
    ensures 0 <= v <= 33 && IsCrossing(v, b.y0 - b.y1, b.y0)
    ensures Refined(p, ylo, k) == Root(Min(256 * (k - 1) + 32 * c + v, INT16_MAX))
  {
    hide Eval, Interpolation, Narrowed, Tame;
    b := Narrowed(p, CosAt(k - 1), ylo, CosAt(k), Eval(p, CosAt(k)));
    RefinedBracket(p, ylo, k);
    c := NarrowedIsPart(p, ylo, k);
    SafeBracket(p, ylo, k);
    v := Interpolation(b.y0, b.y1).value;
    InterpolationBounded(b.y0, b.y1);
    InterpolationIsLinear(b.y0, b.y1);
  }

  lemma SafeBracket(p: seq<int>, ylo: int, k: nat)
    requires |p| >= 1 && 1 <= k <= TABLE_STEPS && Tame(p) && IsSafe(ylo) && Brackets(ylo, Eval(p, CosAt(k)))
    ensures var b := Narrowed(p, CosAt(k - 1), ylo, CosAt(k), Eval(p, CosAt(k)));
            Brackets(b.y0, b.y1) && IsSafe(b.y0) && IsSafe(b.y1) && Interpolation(b.y0, b.y1).Root?
  {
    hide Eval, Interpolation, Narrowed;
    var b := Narrowed(p, CosAt(k - 1), ylo, CosAt(k), Eval(p, CosAt(k)));
    RefinedBracket(p, ylo, k);
    InterpolationBounded(b.y0, b.y1);
  }
}
