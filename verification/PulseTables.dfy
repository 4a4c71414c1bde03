/** The tables behind the pulse symbols: their shapes, and room for every symbol the encoder writes. */
module PulseTables {
  import opened Arith
  import opened Fixed
  import opened Symbols
  import opened PulseRuns
  import opened PulseTotal
  import opened PulseModel
  import Cmf

  method Damp(f: int, r: nat) returns (p: int)
    ensures p == Damped(f, f, r)
  {
    p := f;
    for i := 0 to r
      invariant p == Damped(f, f, i)
    {
      p := Shr31(p * f);
    }
  }

  method EndProbability(ms: nat, nump: nat, nums: nat) returns (p: int)
    requires 0 < nums <= ms && nump > 0
    ensures p == EndsAt(ms, nump, nums)
  {
    hide Damped, Log2lin, Lin2log, Scale;
    var stays := ONE - ONE / (ms - nums + 1);
    p := Damp(stays, nump - 1);
    p := ONE - p;
    if p > CAP {
      p := CAP;
    }
    var log := Wrap32(Scale(ms, nump) * (Lin2log(ONE - p) - 3968));
    p := ONE - Log2lin(Wrap32(Shr(log, 32768) + 3968));
    if p > CAP {
      p := CAP;
    }
  }

  method RunProbabilities(ms: nat, nump: nat) returns (p: array<int>)
    requires nump > 0
    ensures fresh(p) && p[..] == RunPdf(ms, nump)
  {
    hide EndsAt, Shr31;
    p := new int[ms](i => 0);
    var reaches := ONE;
    for nums := 1 to ms + 1
      invariant reaches == Reaches(ms, nump, nums)
      invariant forall i :: 0 <= i < nums - 1 ==> p[i] == RunPdf(ms, nump)[i]
    {
      var ends := EndProbability(ms, nump, nums);
      p[nums - 1] := Shr31(reaches * ends);
      reaches := Shr31(reaches * (ONE - ends));
    }
  }

  /** The row for one pulse count. */
  function RunRow(ms: nat, nump: nat): (row: seq<int>)
    requires nump > 0 && ms <= Cmf.MAXVAL
    ensures |row| == ms + 1
  {
    RunPdfIsWeights(ms, nump);
    Cmf.Table(RunPdf(ms, nump))
  }

  /** One row for each pulse count, each row one entry longer than the table's samples. */
  method CreateRunlenTable(maxSamples: nat) returns (cmfs: seq<seq<int>>)
    requires maxSamples <= Cmf.MAXVAL
    ensures |cmfs| == MAX_PULSES_PER_SF
    ensures forall i :: 0 <= i < MAX_PULSES_PER_SF ==> cmfs[i] == RunRow(maxSamples, i + 1)
  {
    hide Cmf.Table, RunPdf;
    cmfs := [];
    for nump := 1 to MAX_PULSES_PER_SF + 1
      invariant |cmfs| == nump - 1
      invariant forall i :: 0 <= i < nump - 1 ==> cmfs[i] == RunRow(maxSamples, i + 1)
    {
      RunPdfIsWeights(maxSamples, nump);
      var p := RunProbabilities(maxSamples, nump);
      var row, _ := Cmf.PdfToCmf(p[..]);
      cmfs := cmfs + [row[..]];
    }
  }

  // ----- the split tables -----

  /** The first halves that leave at most 80 pulses to either half. */
  function MinSplit(numPulses: nat): nat {
    Max(numPulses - 2 * MAX_PULSES_PER_SF, 0)
  }

  function SplitWeight(k: nat, numPulses: nat): int
    requires k <= numPulses <= 4 * MAX_PULSES_PER_SF
  {
    var p := ProbSplitFast(k, numPulses);
    if p.Some? then p.value else 0
  }

  function SplitPdf(numPulses: nat): (p: seq<int>)
    requires 1 <= numPulses <= 4 * MAX_PULSES_PER_SF - 1
    ensures |p| + 1 == SplitTableLen(numPulses)
  {
    var lo := MinSplit(numPulses);
    seq(numPulses - lo - lo + 1, i requires 0 <= i < numPulses - lo - lo + 1 => SplitWeight(lo + i, numPulses))
  }

  /** A probability that divides by zero, for one of the first k halves. */
  ghost predicate NoProbability(numPulses: nat, k: nat)
    requires numPulses <= 4 * MAX_PULSES_PER_SF && k <= numPulses + 1
  {
    exists i: nat :: MinSplit(numPulses) <= i < k && ProbSplitFast(i, numPulses).None?
  }

  /** The row of this count cannot be built. */
  ghost predicate SplitFails(numPulses: nat)
    requires 1 <= numPulses <= 4 * MAX_PULSES_PER_SF - 1
  {
    NoProbability(numPulses, numPulses - MinSplit(numPulses) + 1) || SumOf(SplitPdf(numPulses)) == 0
  }

  lemma {:induction false} NaturalSum(ws: seq<int>)
    requires forall i :: 0 <= i < |ws| ==> ws[i] >= 0
    ensures SumOf(ws) >= 0
  {
    if ws != [] {
      NaturalSum(ws[..|ws| - 1]);
    }
  }

  lemma SplitPdfIsWeights(numPulses: nat)
    requires 1 <= numPulses <= 4 * MAX_PULSES_PER_SF - 1 && !SplitFails(numPulses)
    ensures Cmf.Weights(SplitPdf(numPulses))
  {
    hide ProbSplitFast;
    var p := SplitPdf(numPulses);
    forall i | 0 <= i < |p|
      ensures p[i] >= 0
    {
      assert p[i] == SplitWeight(MinSplit(numPulses) + i, numPulses);
      ProbSplitRange(MinSplit(numPulses) + i, numPulses);
    }
    NaturalSum(p);
  }

  /** The inner loop: the probabilities of one row. */
  method SplitProbabilities(numPulses: nat) returns (p: seq<int>, panicked: bool)
    requires 1 <= numPulses <= 4 * MAX_PULSES_PER_SF - 1
    ensures panicked <==> NoProbability(numPulses, numPulses - MinSplit(numPulses) + 1)
    ensures !panicked ==> p == SplitPdf(numPulses)
  {
    hide ProbSplitFast;
    var minSplit := numPulses - MAX_PULSES_PER_SF * 2;
    if minSplit < 0 {
      minSplit := 0;
    }
    var maxSplit := numPulses - minSplit;
    p := [];
    for k := minSplit to maxSplit + 1
      invariant p == SplitPdf(numPulses)[..k - minSplit]
      invariant !NoProbability(numPulses, k)
    {
      var prob := ProbSplitFast(k, numPulses);
      if prob.None? {
        return [], true;
      }
      assert SplitPdf(numPulses)[k - minSplit] == SplitWeight(k, numPulses);
      p := p + [prob.value];
    }
    panicked := false;
  }

  /** The panic is that of a probability or of a row without weight. */
  method CreateSplitCmfs() returns (out: seq<seq<int>>, panicked: bool)
    ensures panicked <==> exists n: nat :: 1 <= n <= 4 * MAX_PULSES_PER_SF - 1 && SplitFails(n)
    ensures !panicked ==> |out| == 4 * MAX_PULSES_PER_SF - 1
    ensures !panicked ==> forall n :: 1 <= n <= |out| ==>
              |out[n - 1]| == SplitTableLen(n) && Cmf.Weights(SplitPdf(n)) && out[n - 1] == Cmf.Table(SplitPdf(n))
  {
    hide Cmf.Table, Cmf.Weights, SplitPdf, NoProbability, SumOf;
    out := [];
    for numPulses := 1 to 4 * MAX_PULSES_PER_SF
      invariant |out| == numPulses - 1
      invariant forall n: nat :: 1 <= n < numPulses ==> !SplitFails(n)
      invariant forall n :: 1 <= n < numPulses ==>
                  |out[n - 1]| == SplitTableLen(n) && Cmf.Weights(SplitPdf(n)) && out[n - 1] == Cmf.Table(SplitPdf(n))
    {
      var p, noProbability := SplitProbabilities(numPulses);
      if noProbability {
        assert SplitFails(numPulses);
        return [], true;
      }
      var row, empty := Cmf.PdfToCmf(p);
      if empty {
        assert SplitFails(numPulses);
        return [], true;
      }
      SplitPdfIsWeights(numPulses);
      out := out + [row[..]];
    }
    panicked := false;
  }

  /** Every run symbol that fits has a nonempty interval of its row, and the window is the row's tail. */
  lemma RunHasRoom(s: Symbol, ws: seq<int>)
    requires RunFits(s) && Cmf.Weights(ws) && |ws| + 1 == RowLen(s.cdf.oct)
    ensures var w := CdfWindow(Cmf.Table(ws), s.cdf.start, s.cdf.n);
            w == Cmf.Table(ws)[s.cdf.start..] && w[s.value] < w[s.value + 1]
  {
    FittingWindow(s, Cmf.Table(ws));
    Cmf.TableShape(ws);
  }

  /** The same for the symbols of the split; here the window may end before the table does. */
  lemma SplitHasRoom(s: Symbol, ws: seq<int>)
    requires SplitFits(s) && Cmf.Weights(ws) && |ws| + 1 == SplitTableLen(s.cdf.count)
    ensures var w := CdfWindow(Cmf.Table(ws), s.cdf.start, s.cdf.n);
            w == Cmf.Table(ws)[s.cdf.start..s.cdf.start + s.cdf.n] && w[s.value] < w[s.value + 1]
  {
    var t := Cmf.Table(ws);
    var w := CdfWindow(t, s.cdf.start, s.cdf.n);
    Cmf.TableShape(ws);
    assert forall i :: 0 <= i < s.cdf.n ==> w[i] == t[s.cdf.start + i];
  }

  // ----- the count in configuration 1 -----

  /** The count bound of a frame in configuration 1, for either stage-1 selector. */
  const LOW_RATE_COUNTS := 32

  /** A coded point, as a share of the whole range, that stands for a count under the encoder's prior. */
  predicate Written(l: nat, total: nat, x: real) {
    var fl := if total > 0 then Tri(l, total - 1) else 0;
    fl as real <= x * CountBound(l) as real < Tri(l, total) as real
  }

  /** The count a table decoder reads from the point. */
  predicate ReadsAs(cdf: seq<int>, x: real, k: nat) {
    k + 1 < |cdf| && cdf[k] as real <= x * cdf[|cdf| - 1] as real < cdf[k + 1] as real
  }

  lemma LowRatePrior()
    ensures Tri(32, 0) == 65 && Tri(32, 1) == 99 && Tri(32, 2) == 132 && CountBound(32) == 657
  {
    TriIsExact(32, 0);
    TriIsExact(32, 1);
    TriIsExact(32, 2);
    TriIsExact(32, 32);
    TriExactClosed(32, 32);
    PairsBelowDoubled(31);
    assert TriExact(32, 1) == TriExact(32, 0) + 34;
    assert TriExact(32, 2) == TriExact(32, 1) + 33;
  }

  /** A point at the boundary a / f of a table of size f lies left of b / 657 if a * 657 does of f * b. */
  lemma PointAt(a: int, f: int)
    requires f > 0
    ensures var x := a as real / f as real; x * f as real == a as real
  {
  }

  lemma Scaled(a: int, f: int, b: int)
    requires f > 0
    ensures var x := a as real / f as real; x * 657.0 < b as real <==> a * 657 < f * b
    ensures var x := a as real / f as real; b as real <= x * 657.0 <==> f * b <= a * 657
  {
    var x := a as real / f as real;
    PointAt(a, f);
    var y := x * 657.0;
    assert y * f as real == a as real * 657.0;
    SameSide(y, b as real, f as real);
    assert b as real * f as real == (f * b) as real;
    assert a as real * 657.0 == (a * 657) as real;
  }

  lemma SameSide(y: real, b: real, f: real)
    requires f > 0.0
    ensures y < b <==> y * f < b * f
  {
    if y < b {
      assert (b - y) * f > 0.0;
    } else {
      assert (y - b) * f >= 0.0;
    }
  }

  /** Tables end above 32767 - n and not above 32767, where no multiple of 657 lies if n is at most 574. */
  lemma NotProportional(f: int, c1: int, c2: int, n: nat)
    requires n <= 574 && 32767 - n < f <= 32767
    ensures c1 * 657 != f * 65 || c2 * 657 != f * 99
  {
    var m := 32 * c1 - 21 * c2;
    assert 657 * m == 32 * (c1 * 657) - 21 * (c2 * 657);
    assert 657 * m != f;
  }

  /**
    Whatever weights the count table of configuration 1 holds, some count that the encoder writes under
    its triangular prior can be read back as another one.
   */
  lemma LowRateCountIsMisread(ws: seq<int>) returns (total: nat, x: real)
    requires Cmf.Weights(ws) && 3 <= |ws| <= 574
    ensures total <= LOW_RATE_COUNTS && Written(LOW_RATE_COUNTS, total, x) && !ReadsAs(Cmf.Table(ws), x, total)
  {
    hide Cmf.Table, Tri, CountBound;
    LowRatePrior();
    Cmf.TableShape(ws);
    var cdf := Cmf.Table(ws);
    var f, c1, c2 := cdf[|ws|], cdf[1], cdf[2];
    NotProportional(f, c1, c2, |ws|);
    if c1 * 657 < f * 65 {
      total, x := 0, c1 as real / f as real;
      PointAt(c1, f);
      Scaled(c1, f, 65);
      Scaled(c1, f, 0);
    } else if c1 * 657 > f * 65 {
      total, x := 1, 65.0 / 657.0;
      EarlyPoint(65, f, c1);
    } else if c2 * 657 < f * 99 {
      total, x := 1, c2 as real / f as real;
      PointAt(c2, f);
      Scaled(c2, f, 99);
      Scaled(c2, f, 65);
    } else {
      total, x := 2, 99.0 / 657.0;
      EarlyPoint(99, f, c2);
    }
  }

  /** The left end of a written interval is read as a smaller count if the table's boundary lies to its right. */
  lemma EarlyPoint(b: int, f: int, c: int)
    requires f > 0 && c * 657 > f * b
    ensures b as real / 657.0 * f as real < c as real
  {
    var x := b as real / 657.0;
    assert x * 657.0 == b as real;
    assert (x * f as real) * 657.0 == b as real * f as real;
    assert b as real * f as real == (f * b) as real && c as real * 657.0 == (c * 657) as real;
    SameSide(x * f as real, c as real, 657.0);
  }
}
