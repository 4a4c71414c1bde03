/** What the symbols of the pulse block say of the frame, apart from how they are computed and read. */
module PulseMeaning {
  import opened Arith
  import opened Symbols
  import opened Pulses
  import opened PulseTotal
  import opened PulseRuns
  import PulseFrame

  /** A subframe has room for 40 pulses, in configuration 1 for 8. */
  lemma RoomForPulses(config: int, stage1: int)
    requires 0 <= config <= 1 && 0 <= stage1 <= 1
    ensures PulseFrame.FrameLen4k(config, stage1) / 4 == if config == 0 then 40 else 8
  {
  }

  // ----- the total -----

  /** The intervals of the counts 0 to l lie side by side from 0 to the bound, each shorter than the one before. */
  lemma IntervalsTile(l: nat, total: nat)
    requires total <= l <= 160
    ensures var s := TotalSymbols(l, total)[0];
            && 0 <= s.fl < s.fh <= s.ft
            && (total == 0 <==> s.fl == 0) && (total == l <==> s.fh == s.ft)
            && s.fh - s.fl == (if total == 0 then 2 * l + 1 else l + 3 - total)
    ensures total < l ==> TotalSymbols(l, total)[0].fh == TotalSymbols(l, total + 1)[0].fl
  {
    TriIsExact(l, total);
    TriIsExact(l, l);
    TriExactBounds(l, l);
    TriExactBounds(l, total);
    if total > 0 {
      TriIsExact(l, total - 1);
      TriExactBounds(l, total - 1);
    }
    if total < l {
      TriGrows(l, total, l);
    }
  }

  // ----- the split -----

  /** A division of the pulses under which neither part exceeds g. */
  predicate Divides(count: int, g: int, s0: int) {
    0 <= s0 <= g && 0 <= count - s0 <= g
  }

  lemma HalvesExactly(count: int, g: int, s0: int)
    ensures HalfLeast(count, g) <= s0 <= HalfMost(count, g) <==> Divides(count, g, s0)
  {
  }

  /**
    A symbol of a pair of subframes names the first one's pulses among the divisions: its window has an entry
    for each, and there is no symbol where there is one division.
   */
  lemma PairNamed(first: int, second: int, g: int)
    requires Divides(first + second, g, first) && first + second <= 80
    ensures var (w, count) := (PairSymbols(first, second, g), first + second);
            && (w == [] <==> forall s0 :: Divides(count, g, s0) ==> s0 == first)
            && |w| <= 1
            && forall s :: s in w ==>
                 && s.Coded? && s.cdf.SplitWindow? && s.cdf.count == count && s.cdf.start + s.value == first
                 && forall s0 :: Divides(count, g, s0) <==> s.cdf.start <= s0 < s.cdf.start + s.cdf.n - 1
  {
    var count := first + second;
    var lo, minSplit := HalfMost(count, g), HalfLeast(count, g);
    HalvesExactly(count, g, lo);
    HalvesExactly(count, g, minSplit);
    forall s0
      ensures minSplit <= s0 <= lo <==> Divides(count, g, s0)
    {
      HalvesExactly(count, g, s0);
    }
  }

  /** The symbol of the two halves names the first one's pulses, counted from the least the table provides for. */
  lemma SumNamed(counts: seq<int>, g: int)
    requires CountsWithin(counts, g) && g <= MAX_PULSES_PER_SF
    ensures var w := SumSymbols(counts, g);
            var (half, total) := (counts[0] + counts[1], Total(counts));
            && (w == [] <==> total == 0 || total == 4 * MAX_PULSES_PER_SF)
            && |w| <= 1
            && forall s :: s in w ==>
                 && s.Coded? && s.cdf.SplitWindow? && s.cdf.count == total
                 && s.cdf.start + s.value == half - Max(total - 80, 0)
  {
  }

  // ----- the runs -----

  function Nonzero(b: seq<int>): seq<int> {
    if b == [] then []
    else Nonzero(b[..|b| - 1]) + if b[|b| - 1] == 0 then [] else [b[|b| - 1]]
  }

  /** Every pulse is as far from the start of its block as the runs up to it add up to, all of them together. */
  lemma RunsLeadToPulse(b: seq<int>, n: nat)
    requires n < |b| && b[n] != 0
    ensures var before, through := Runs(b[..n]), Runs(b[..n + 1]);
            && before < through <= Runs(b)
            && SumOf(before + [through[|before|]]) == n
            && |through| - |before| == Abs(b[n])
            && forall k :: |before| < k < |through| ==> through[k] == 0
  {
    var init, through := b[..n], b[..n + 1];
    assert through[..n] == init;
    RunsAtPulse(through, init);
    RunsSum(init);
    SumAppend(Runs(init), n - LastPulse(init));
    LastPulseBounds(init);
    RunsExtend(b, n + 1);
    var before := Runs(init);
    var r := Runs(through);
    assert r == before + ([n - LastPulse(init)] + Zeros(Abs(b[n]) - 1));
  }

  lemma {:induction false} RunsExtend(b: seq<int>, n: nat)
    requires n <= |b|
    ensures Runs(b[..n]) <= Runs(b)
  {
    if n == |b| {
      assert b[..n] == b;
    } else {
      RunsExtend(b[..|b| - 1], n);
      assert b[..|b| - 1][..n] == b[..n];
    }
  }

  /**
    A run is written under the table for the samples left, rounded up to eights, in the row for the pulses left,
    and its entry is the one for the samples left after it.
   */
  lemma RunNamed(b: seq<int>, k: nat)
    requires |b| == SUBFRAME_LEN && k < |Runs(b)|
    ensures var runs := Runs(b);
            var RunWindow(oct, c, start, n) := RunSymbol(runs, k).cdf;
            var left := SUBFRAME_LEN - SumOf(runs[..k]);
            && 8 * oct - 8 < left <= 8 * oct
            && c == MagnitudeSum(b) - k
            && start + runs[k] == 8 * oct - (left - runs[k])
            && start + n == 8 * oct + 1
  {
    RunsCount(b);
    RunInRange(b, k);
  }

  // ----- the signs -----

  /** One sign for each pulse of the frame, in order. */
  lemma {:induction false} SignsFollow(b: seq<int>)
    ensures |Signs(b)| == |Nonzero(b)|
    ensures forall j :: 0 <= j < |Signs(b)| ==> Nonzero(b)[j] != 0 && (Signs(b)[j] <==> Nonzero(b)[j] > 0)
  {
    if b != [] {
      SignsFollow(b[..|b| - 1]);
    }
  }

  predicate HasBit(sym: nat, place: nat) {
    sym / Pow2(place) % 2 == 1
  }

  /** The bits of a symbol, the highest of its n bits first, are the signs from position `from` on. */
  ghost predicate Carries(s: SignSymbol, signs: seq<bool>, from: nat) {
    && from + s.nbits <= |signs| && s.sym < Pow2(s.nbits)
    && forall place :: 0 <= place < s.nbits ==> (HasBit(s.sym, place) <==> signs[from + s.nbits - 1 - place])
  }

  lemma FirstBatch(signs: seq<bool>, n: nat)
    requires n <= |signs|
    ensures Carries(SignSymbol(Packed(signs[..n]), n), signs, 0)
  {
    PulseFrame.PackedBelow(signs[..n]);
    forall place | 0 <= place < n
      ensures HasBit(Packed(signs[..n]), place) <==> signs[n - 1 - place]
    {
      PackedBits(signs[..n], n - 1 - place);
    }
  }

  lemma LaterBatch(s: SignSymbol, signs: seq<bool>, n: nat, from: nat)
    requires n <= |signs| && Carries(s, signs[n..], from)
    ensures Carries(s, signs, n + from)
  {
    assert forall j :: 0 <= j < |signs| - n ==> signs[n..][j] == signs[n + j];
  }

  lemma SymbolsStep(signs: seq<bool>)
    requires signs != []
    ensures var n := Min(|signs|, SIGN_BATCH);
            && SignSymbols(signs) == [SignSymbol(Packed(signs[..n]), n)] + SignSymbols(signs[n..])
            && (|signs| <= SIGN_BATCH ==> SignSymbols(signs[n..]) == [])
  {
  }

  /** Symbol k carries the signs from 15 k on, fifteen or what is left, the first one in its highest bit. */
  lemma {:induction false} BatchAt(signs: seq<bool>, k: nat)
    requires k < |SignSymbols(signs)|
    ensures var s := SignSymbols(signs)[k];
            && Carries(s, signs, SIGN_BATCH * k) && 0 < s.nbits <= SIGN_BATCH
            && (s.nbits < SIGN_BATCH ==> SIGN_BATCH * k + s.nbits == |signs|)
    decreases |signs|
  {
    assert signs != [];
    SymbolsStep(signs);
    hide Carries, Packed, SignSymbols;
    var n := Min(|signs|, SIGN_BATCH);
    if k > 0 {
      assert n == SIGN_BATCH;
      BatchAt(signs[n..], k - 1);
      LaterBatch(SignSymbols(signs[n..])[k - 1], signs, n, SIGN_BATCH * (k - 1));
    } else {
      FirstBatch(signs, n);
    }
  }

  lemma {:induction false} BatchCount(signs: seq<bool>)
    ensures |SignSymbols(signs)| == (|signs| + SIGN_BATCH - 1) / SIGN_BATCH
    decreases |signs|
  {
    if signs != [] {
      BatchCount(signs[Min(|signs|, SIGN_BATCH)..]);
    }
  }
}
