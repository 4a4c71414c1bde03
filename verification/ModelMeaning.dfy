/** How the fixed-point model of the pulse tables relates to what it stands for. */
module ModelMeaning {
  import opened Arith
  import opened Reals
  import opened Fixed
  import opened Wrappers
  import opened PulseModel
  import opened PulseTables
  import Cmf

  // ----- logarithm and power -----

  lemma {:induction false} FloorLog2Is(u: nat)
    requires u > 0
    ensures Pow2(FloorLog2(u)) <= u < 2 * Pow2(FloorLog2(u))
  {
    if u > 1 {
      FloorLog2Is(u / 2);
    }
  }

  /** Seven bits below the leading one. */
  lemma FracBelow(frac: int)
    requires 0 <= frac < 128
    ensures 0 <= Smlawb(frac, frac * (128 - frac), 179) < 128
    ensures frac == 0 ==> Smlawb(frac, frac * (128 - frac), 179) == 0
  {
    TimesMonotone(0, frac, 128 - frac);
    TimesMonotone(frac, 128, 128 - frac);
    FracBent(frac, frac * (128 - frac));
  }

  lemma FracBent(frac: int, b: int)
    requires 0 <= frac < 128 && 0 <= b <= 128 * (128 - frac)
    ensures 0 <= Smlawb(frac, b, 179) < 128
    ensures b == 0 ==> Smlawb(frac, b, 179) == frac
  {
    assert Wrap16(179) == 179;
    assert 0 <= b * 179 / 65536 <= 128 - frac;
    assert frac == 127 ==> b <= 128;
    assert frac + b * 179 / 65536 < 128;
  }

  /** The logarithm lies in the octave of its argument, and is exact at powers of two. */
  lemma {:induction false} Lin2logRange(x: int)
    requires 0 < x < TWO31
    ensures 128 * FloorLog2(x) <= Lin2log(x) < 128 * FloorLog2(x) + 128
    ensures x == Pow2(FloorLog2(x)) ==> Lin2log(x) == 128 * FloorLog2(x)
  {
    assert x % TWO32 == x;
    FloorLog2Is(x);
    var place := FloorLog2(x);
    OctavesFit(x);
    var frac := (x * 128 / Pow2(place)) % 128;
    FracBelow(frac);
    hide Smlawb;
    if x == Pow2(place) {
      DivModUnique(x * 128, Pow2(place), 128, 0);
    }
  }

  lemma {:induction false} OctavesFit(x: int)
    requires 0 < x < TWO31
    ensures FloorLog2(x) <= 30
  {
    FloorLog2Is(x);
    Pow2Values();
    if FloorLog2(x) > 30 {
      Pow2Monotone(31, FloorLog2(x));
    }
  }

  /** Taking the power of the logarithm stays within the octave. */
  lemma {:induction false} PowerOfLogarithm(x: int)
    requires 0 < x < TWO31 && Lin2log(x) < 3967
    ensures Pow2(FloorLog2(x)) <= Log2lin(Lin2log(x)) < 2 * Pow2(FloorLog2(x))
    ensures x == Pow2(FloorLog2(x)) ==> Log2lin(Lin2log(x)) == x
  {
    var place, y := FloorLog2(x), Lin2log(x);
    Lin2logRange(x);
    assert y / 128 == place;
    Log2linRange(y);
    hide Lin2log, Log2lin;
    if x == Pow2(place) {
      PowerAtOctave(y);
    }
  }

  lemma {:induction false} PowerAtOctave(x: int)
    requires 0 <= x < 3967 && x % 128 == 0
    ensures Log2lin(x) == Pow2(x / 128)
  {
    hide *;
    var k := x / 128;
    PowerParts(x);
    NothingBelow(x % 128);
    OctaveFits(k);
    NotStretched(Pow2(k), x < 2048);
  }

  lemma {:induction false} PowerParts(x: int)
    requires 0 <= x < 3967
    ensures Log2lin(x) == Stretched(Pow2(x / 128), Smlawb(x % 128, Smulbb(x % 128, 128 - x % 128), -174), x < 2048)
  {
    hide Smlawb, Smulbb, Pow2, Stretched;
  }

  lemma {:induction false} OctaveFits(k: nat)
    requires k <= 30
    ensures IsInt32(Pow2(k))
  {
    Pow2Values();
    Pow2Monotone(k, 30);
  }

  lemma NotStretched(out: int, before: bool)
    requires IsInt32(out)
    ensures Stretched(out, 0, before) == out
  {
  }

  lemma NothingBelow(frac: int)
    requires frac == 0
    ensures Smlawb(frac, Smulbb(frac, 128 - frac), -174) == 0
  {
    assert Wrap16(0) == 0;
    assert Smulbb(0, 128) == 0;
  }

  // ----- the probability of a split -----

  /** Which half comes first does not matter. */
  lemma {:induction false} SplitIsSymmetric(k: nat, n: nat)
    requires k <= n && 12 * n < TWO31
    ensures ProbSplitFast(k, n) == ProbSplitFast(n - k, n)
  {
    hide Stirling;
    assert Stirling(n) - Stirling(k) - Stirling(n - k) == Stirling(n) - Stirling(n - k) - Stirling(k);
  }

  /** The weights of a split table read the same from both ends. */
  lemma {:induction false} SplitPdfMirrors(numPulses: nat, i: nat)
    requires 1 <= numPulses <= 159 && i < |SplitPdf(numPulses)|
    ensures SplitPdf(numPulses)[|SplitPdf(numPulses)| - 1 - i] == SplitPdf(numPulses)[i]
  {
    hide ProbSplitFast;
    var n, lo := numPulses, MinSplit(numPulses);
    SplitIsSymmetric(lo + i, n);
    assert SplitPdf(n)[i] == SplitWeight(lo + i, n);
    assert SplitPdf(n)[n - lo - lo - i] == SplitWeight(n - lo - i, n);
  }

  // ----- the sigmoid -----

  lemma SigmoidMirrors(x: int)
    ensures 32767 <= Sigmoid(x) + Sigmoid(-x) <= 32768
  {
    var v := if x < 0 then -x else x;
    if x == 0 {
      assert Sigmoid(0) == 16384;
    } else if v < 192 {
      SigmoidPieces(v);
    }
  }

  /** Both branches on one piece. */
  lemma SigmoidPieces(v: int)
    requires 0 < v < 192
    ensures Sigmoid(v) == POS[v / 32] + SLOPE[v / 32] * (v % 32)
    ensures Sigmoid(-v) == NEG[v / 32] - SLOPE[v / 32] * (v % 32)
    ensures 32767 <= POS[v / 32] + NEG[v / 32] <= 32768
  {
    var i := v / 32;
    assert i == 0 || i == 1 || i == 2 || i == 3 || i == 4 || i == 5;
    assert 0 <= SLOPE[i] < 32768;
    assert Wrap16(SLOPE[i]) == SLOPE[i] && Wrap16(v % 32) == v % 32;
  }

  lemma SigmoidEnds()
    ensures Sigmoid(-192) == 0 && Sigmoid(-191) == 2 && Sigmoid(191) == 32765 && Sigmoid(192) == 32767
    ensures Sigmoid(-1) == 16147 && Sigmoid(0) == 16384 && Sigmoid(1) == 16621
  {
    SigmoidPieces(191);
    SigmoidPieces(1);
    assert SLOPE[5] == 7 && POS[5] == 32548 && NEG[5] == 219;
    assert SLOPE[0] == 237 && POS[0] == 16384 && NEG[0] == 16384;
    assert Wrap16(0) == 0;
  }

  /** At the knots each piece stays below the next, except for the last one, where it overshoots by two. */
  lemma Knots(i: nat)
    requires i <= 4
    ensures i < 4 ==> POS[i] + 31 * SLOPE[i] <= POS[i + 1] && NEG[i] - 31 * SLOPE[i] >= NEG[i + 1]
    ensures i == 4 ==> POS[i] + 31 * SLOPE[i] == POS[i + 1] + 2 && NEG[i] - 31 * SLOPE[i] == NEG[i + 1] - 2
  {
    assert i == 0 || i == 1 || i == 2 || i == 3 || i == 4;
  }

  lemma PieceStep(v: int)
    requires 0 < v < 191
    ensures POS[v / 32] + SLOPE[v / 32] * (v % 32) <= POS[(v + 1) / 32] + SLOPE[(v + 1) / 32] * ((v + 1) % 32)
            <==> v != 159
    ensures NEG[v / 32] - SLOPE[v / 32] * (v % 32) >= NEG[(v + 1) / 32] - SLOPE[(v + 1) / 32] * ((v + 1) % 32)
            <==> v != 159
  {
    var i, r := v / 32, v % 32;
    assert v == 32 * i + r;
    if r == 31 {
      DivModUnique(v + 1, 32, i + 1, 0);
      Knots(i);
    } else {
      DivModUnique(v + 1, 32, i, r + 1);
      assert SLOPE[i] > 0 by {
        assert i == 0 || i == 1 || i == 2 || i == 3 || i == 4 || i == 5;
      }
      assert SLOPE[i] * (r + 1) == SLOPE[i] * r + SLOPE[i];
    }
  }

  /** The sigmoid grows from one step to the next, except at the last knot on either side, where it falls. */
  lemma SigmoidGrowsExactly(x: int)
    ensures Sigmoid(x) <= Sigmoid(x + 1) <==> x != 159 && x != -160
  {
    SigmoidEnds();
    if 0 < x < 191 {
      SigmoidPieces(x);
      SigmoidPieces(x + 1);
      PieceStep(x);
    } else if -192 < x < -1 {
      SigmoidPieces(-x);
      SigmoidPieces(-x - 1);
      PieceStep(-x - 1);
    } else {
      SigmoidOutside(x);
      SigmoidOutside(x + 1);
    }
  }

  lemma SigmoidOutside(x: int)
    ensures x <= -192 ==> Sigmoid(x) == 0
    ensures x >= 192 ==> Sigmoid(x) == 32767
  {
  }

  // ----- the run lengths are a distribution -----

  lemma SharesOut(a: int, b: int)
    requires 0 <= a <= ONE && 0 <= b <= ONE
    ensures a - 1 <= Shr31(a * b) + Shr31(a * (ONE - b)) <= a
  {
    assert a * (ONE - b) == a * ONE - a * b;
    var m, q := a * b, a * b / ONE;
    assert ONE * q <= m < ONE * q + ONE;
    var n, r := a * ONE - m, (a * ONE - m) / ONE;
    assert ONE * r <= n < ONE * r + ONE;
  }

  /** What the first n samples take and what reaches the next add up to certainty, but for a unit for each. */
  lemma {:induction false} RunsShareOut(ms: nat, nump: nat, n: nat)
    requires nump > 0 && n <= ms
    ensures ONE - n <= SumOf(RunPdf(ms, nump)[..n]) + Reaches(ms, nump, n + 1) <= ONE
  {
    hide EndsAt, Shr31;
    var p := RunPdf(ms, nump);
    if n == 0 {
      assert p[..0] == [];
    } else {
      RunsShareOut(ms, nump, n - 1);
      assert p[..n] == p[..n - 1] + [p[n - 1]];
      assert p[..n][..n - 1] == p[..n - 1];
      ReachesRange(ms, nump, n);
      EndsAtRange(ms, nump, n);
      SharesOut(Reaches(ms, nump, n), EndsAt(ms, nump, n));
    }
  }

  ghost predicate IsDamped(d: int, p: int, f: int, r: nat) {
    Near(d as real, p as real * Power(f as real / 2147483648.0, r), r as real)
  }

  lemma {:induction false} NotDamped(p: int, f: int)
    ensures IsDamped(p, p, f, 0)
  {
    assert p as real * 1.0 == p as real;
  }

  lemma {:induction false} DampedOnce(d: int, p: int, f: int, r: nat)
    requires 0 <= d && 0 <= f <= ONE && IsDamped(d, p, f, r)
    ensures 0 <= Shr31(d * f) <= d && IsDamped(Shr31(d * f), p, f, r + 1)
  {
    var c := f as real / 2147483648.0;
    PowerNext(c, r);
    var power, next := Power(c, r), Power(c, r + 1);
    hide Shr31, Power;
    DampStep(d, f, c, p as real, power, r as real);
    assert next == c * power;
  }

  /** The damping is the power it stands for, up to a unit for each step. */
  lemma {:induction false} DampedIsPower(p: int, f: int, r: nat)
    requires 0 <= p <= ONE && 0 <= f <= ONE
    ensures 0 <= Damped(p, f, r) <= p && IsDamped(Damped(p, f, r), p, f, r)
  {
    hide IsDamped, Shr31;
    if r == 0 {
      NotDamped(p, f);
    } else {
      DampedIsPower(p, f, r - 1);
      DampedOnce(Damped(p, f, r - 1), p, f, r - 1);
    }
  }

  lemma DampStep(d: int, f: int, c: real, p: real, power: real, error: real)
    requires 0 <= d && 0 <= f <= ONE && c == f as real / 2147483648.0 && Near(d as real, p * power, error)
    ensures 0 <= Shr31(d * f) <= d
    ensures Near(Shr31(d * f) as real, p * (c * power), error + 1.0)
  {
    var q := Shr31(d * f);
    assert ONE * q <= d * f < ONE * q + ONE;
    TimesMonotone(0, f, d);
    TimesMonotone(f, ONE, d);
    assert (d * f) as real == 2147483648.0 * (d as real * c);
    assert Near(q as real, d as real * c, 1.0);
    var e := d as real - p * power;
    ProductBounded(e, error, c, 1.0);
    assert e * c == d as real * c - p * (c * power);
  }

  // ----- table rows -----

  /** Each symbol gets one entry and its share of the rest, rounded down. */
  lemma StepIsShare(ws: seq<int>, i: nat)
    requires Cmf.Weights(ws) && i < |ws|
    ensures var step := Cmf.Table(ws)[i + 1] - Cmf.Table(ws)[i];
            (step - 1) * SumOf(ws) <= ws[i] * (32767 - |ws|) < step * SumOf(ws)
  {
    var share := Cmf.Share(ws[i], SumOf(ws), |ws|);
    Cmf.ShareBounds(ws[i], SumOf(ws), |ws|);
    assert Cmf.Table(ws)[i + 1] - Cmf.Table(ws)[i] == share + 1;
    hide Cmf.Table, Cmf.Share;
    TimesSuccessor(share, SumOf(ws));
  }
}
