/** The magnitude block: the encoder's replay of the run lengths and the decoder's reading of them. */
module PulseRuns {
  import opened Arith
  import opened Symbols
  import opened Pulses
  import PulseTotal

  const RUNLEN_STEP := 8
  const RUNLEN_TABLES := 20

  /** The samples of the subframe that remain when run k is written. */
  function PosAt(runs: seq<int>, k: nat): int
    requires k <= |runs|
  {
    SUBFRAME_LEN - SumOf(runs[..k])
  }

  function RunCdf(pos: int, c: int): Cdf {
    var oct := (pos + 7) / 8;
    RunWindow(oct, c, RUNLEN_STEP * oct - pos, pos + 1)
  }

  function RunSymbol(runs: seq<int>, k: nat): Symbol
    requires k < |runs|
  {
    Coded(RunCdf(PosAt(runs, k), |runs| - k), runs[k])
  }

  function RunSymbols(runs: seq<int>): (w: seq<Symbol>)
    ensures |w| == |runs|
  {
    seq(|runs|, k requires 0 <= k < |runs| => RunSymbol(runs, k))
  }

  function RunSymbolsUpTo(frame: seq<int>, sf: nat): seq<Symbol>
    requires |frame| == FRAME_LEN && sf <= SUBFRAMES
  {
    if sf == 0 then [] else RunSymbolsUpTo(frame, sf - 1) + RunSymbols(Runs(Block(frame, sf - 1)))
  }

  // ----- sums of runs -----

  predicate NonNegative(runs: seq<int>) {
    forall k :: 0 <= k < |runs| ==> runs[k] >= 0
  }

  lemma SumAppend(runs: seq<int>, m: int)
    ensures SumOf(runs + [m]) == SumOf(runs) + m
  {
    assert (runs + [m])[..|runs|] == runs;
  }

  lemma {:induction false} SumZeros(runs: seq<int>, z: nat)
    ensures SumOf(runs + Zeros(z)) == SumOf(runs)
  {
    if z == 0 {
      assert runs + Zeros(0) == runs;
    } else {
      SumZeros(runs, z - 1);
      assert runs + Zeros(z) == runs + Zeros(z - 1) + [0];
      SumAppend(runs + Zeros(z - 1), 0);
    }
  }

  /** The runs of a block add up to the place of its last pulse. */
  lemma {:induction false} RunsSum(b: seq<int>)
    ensures SumOf(Runs(b)) == LastPulse(b)
  {
    if b != [] {
      var init := b[..|b| - 1];
      RunsSum(init);
      if b[|b| - 1] != 0 {
        RunsAtPulse(b, init);
        var m := |init| - LastPulse(init);
        SumAppend(Runs(init), m);
        SumZeros(Runs(init) + [m], Abs(b[|b| - 1]) - 1);
      }
    }
  }

  lemma {:induction false} RunsNonNegative(b: seq<int>)
    ensures NonNegative(Runs(b))
  {
    if b != [] {
      var init := b[..|b| - 1];
      RunsNonNegative(init);
      LastPulseBounds(init);
    }
  }

  lemma {:induction false} PrefixSum(runs: seq<int>, k: nat)
    requires NonNegative(runs) && k <= |runs|
    ensures 0 <= SumOf(runs[..k]) <= SumOf(runs)
  {
    if k == |runs| {
      assert runs[..k] == runs;
      if runs != [] {
        PrefixSum(runs[..k - 1], k - 1);
        assert runs[..k - 1][..k - 1] == runs[..k - 1];
      }
    } else {
      var init := runs[..|runs| - 1];
      PrefixSum(init, k);
      assert init[..k] == runs[..k];
    }
  }

  /** A run is always shorter than what remains of its subframe, and something always remains. */
  lemma RunInRange(b: seq<int>, k: nat)
    requires |b| == SUBFRAME_LEN && k < |Runs(b)|
    ensures 0 <= Runs(b)[k] < PosAt(Runs(b), k) <= SUBFRAME_LEN
  {
    var runs := Runs(b);
    RunsSum(b);
    RunsNonNegative(b);
    LastPulseBounds(b);
    PrefixSum(runs, k);
    PrefixSum(runs, k + 1);
    assert runs[..k + 1] == runs[..k] + [runs[k]];
    SumAppend(runs[..k], runs[k]);
  }

  // ----- the windows -----

  /** A run-length table has a row for each of 1 to 40 pulses, and rows end after the table's sample count. */
  predicate RowExists(oct: int, c: int) {
    1 <= oct <= RUNLEN_TABLES && 1 <= c <= PulseTotal.MAX_PULSES_PER_SF
  }

  function RowLen(oct: int): int {
    RUNLEN_STEP * oct + 1
  }

  /** The row exists, the window ends exactly where the row ends, and the symbol lies in the window. */
  ghost predicate RunFits(s: Symbol) {
    && s.Coded? && s.cdf.RunWindow?
    && RowExists(s.cdf.oct, s.cdf.c)
    && 0 <= s.cdf.start && s.cdf.start + s.cdf.n == RowLen(s.cdf.oct)
    && 0 <= s.value < s.cdf.n - 1
  }

  /** The window of a table row, entries outside the row read as zero. */
  function CdfWindow(base: seq<int>, start: int, n: nat): (w: seq<int>)
    ensures |w| == n
  {
    seq(n, i requires 0 <= i < n => if 0 <= start + i < |base| then base[start + i] else 0)
  }

  /** Where symbols fit, the window is the tail of the row: nothing is filled with zeros. */
  lemma FittingWindow(s: Symbol, row: seq<int>)
    requires RunFits(s) && |row| == RowLen(s.cdf.oct)
    ensures CdfWindow(row, s.cdf.start, s.cdf.n) == row[s.cdf.start..]
  {
    var w := CdfWindow(row, s.cdf.start, s.cdf.n);
    assert forall i :: 0 <= i < s.cdf.n ==> w[i] == row[s.cdf.start..][i];
  }

  lemma RunSymbolFits(b: seq<int>, k: nat)
    requires |b| == SUBFRAME_LEN && k < |Runs(b)|
    ensures RunFits(RunSymbol(Runs(b), k)) <==> |Runs(b)| - k <= PulseTotal.MAX_PULSES_PER_SF
  {
    RunInRange(b, k);
  }

  /** All symbols of a subframe fit exactly when it has at most 40 pulses. */
  lemma SubframeFits(b: seq<int>)
    requires |b| == SUBFRAME_LEN
    ensures (forall s :: s in RunSymbols(Runs(b)) ==> RunFits(s)) <==> MagnitudeSum(b) <= PulseTotal.MAX_PULSES_PER_SF
  {
    var runs := Runs(b);
    RunsCount(b);
    if MagnitudeSum(b) <= PulseTotal.MAX_PULSES_PER_SF {
      forall k | 0 <= k < |runs|
        ensures RunFits(RunSymbols(runs)[k])
      {
        RunSymbolFits(b, k);
      }
    } else {
      RunSymbolFits(b, 0);
      assert RunSymbols(runs)[0] in RunSymbols(runs);
    }
  }

  /** The whole magnitude block stays inside its tables exactly when no subframe has more than 40 pulses. */
  lemma {:induction false} FrameFits(frame: seq<int>, sf: nat)
    requires |frame| == FRAME_LEN && sf <= SUBFRAMES
    ensures (forall s :: s in RunSymbolsUpTo(frame, sf) ==> RunFits(s))
       <==> (forall i :: 0 <= i < sf ==> Counts(frame)[i] <= PulseTotal.MAX_PULSES_PER_SF)
  {
    if sf > 0 {
      FrameFits(frame, sf - 1);
      var b := Block(frame, sf - 1);
      SubframeFits(b);
      var before, last := RunSymbolsUpTo(frame, sf - 1), RunSymbols(Runs(b));
      assert forall s :: s in before + last <==> s in before || s in last;
      assert Counts(frame)[sf - 1] == MagnitudeSum(b);
    }
  }

  // ----- the encoder's replay -----

  ghost predicate InRange(runs: seq<int>) {
    forall k :: 0 <= k < |runs| ==> 0 <= runs[k] < PosAt(runs, k) <= SUBFRAME_LEN
  }

  lemma PosStep(runs: seq<int>, k: nat)
    requires k < |runs|
    ensures PosAt(runs, k + 1) == PosAt(runs, k) - runs[k]
    ensures RunSymbols(runs)[..k + 1] == RunSymbols(runs)[..k] + [RunSymbol(runs, k)]
  {
    assert runs[..k + 1] == runs[..k] + [runs[k]];
    SumAppend(runs[..k], runs[k]);
  }

  lemma PosStart(runs: seq<int>)
    ensures PosAt(runs, 0) == SUBFRAME_LEN
  {
    assert runs[..0] == [];
  }

  /** More pulses than the tables have rows for; looking such a row up panics. */
  predicate TooMany(cnt: int) {
    cnt > PulseTotal.MAX_PULSES_PER_SF
  }

  /** One subframe: the run at magIdx is written under the window for what remains. */
  method WriteSubframe(enc: SymbolWriter, magRuns: seq<int>, magIdx0: nat, cnt: int, ghost runs: seq<int>)
    returns (magIdx: nat, panicked: bool)
    requires InRange(runs) && cnt == |runs|
    requires magIdx0 + |runs| <= |magRuns| && magRuns[magIdx0..magIdx0 + |runs|] == runs
    modifies enc
    ensures panicked <==> TooMany(cnt)
    ensures !panicked ==> enc.written == old(enc.written) + RunSymbols(runs) && magIdx == magIdx0 + |runs|
  {
    PosStart(runs);
    magIdx, panicked := magIdx0, false;
    var pos := SUBFRAME_LEN;
    var c := cnt;
    var k := 0;
    ghost var before := enc.written;
    while k < cnt
      invariant 0 <= k <= cnt && c == cnt - k && magIdx == magIdx0 + k
      invariant k > 0 ==> !TooMany(cnt)
      invariant pos == PosAt(runs, k)
      invariant enc.written == before + RunSymbols(runs)[..k]
    {
      PosStep(runs, k);
      assert 0 <= runs[k] < PosAt(runs, k) <= SUBFRAME_LEN;
      var oct := (pos + 7) / 8;
      if !RowExists(oct, c) {
        return magIdx, true;
      }
      var start := RUNLEN_STEP * oct - pos;
      var m := magRuns[magIdx];
      assert m == magRuns[magIdx0..magIdx0 + |runs|][k] == runs[k];
      magIdx := magIdx + 1;
      enc.EncodeCdf(m, RunWindow(oct, c, start, pos + 1));
      if m > 0 || k == 0 {
        pos := pos - m;
      }
      c := c - 1;
      k := k + 1;
    }
    assert RunSymbols(runs)[..cnt] == RunSymbols(runs);
  }

  lemma BlockInRange(b: seq<int>)
    requires |b| == SUBFRAME_LEN
    ensures InRange(Runs(b))
  {
    forall k | 0 <= k < |Runs(b)|
      ensures 0 <= Runs(b)[k] < PosAt(Runs(b), k) <= SUBFRAME_LEN
    {
      RunInRange(b, k);
    }
  }

  lemma {:induction false} RunsAt(frame: seq<int>, sf: nat, last: nat)
    requires |frame| == FRAME_LEN && sf < last <= SUBFRAMES
    ensures var a, b := RunsUpTo(frame, sf), Runs(Block(frame, sf));
            |a| + |b| <= |RunsUpTo(frame, last)| && RunsUpTo(frame, last)[|a|..|a| + |b|] == b
    decreases last
  {
    hide Runs, Block;
    var a, b := RunsUpTo(frame, sf), Runs(Block(frame, sf));
    var prior := RunsUpTo(frame, last - 1);
    if sf == last - 1 {
    } else {
      RunsAt(frame, sf, last - 1);
      assert RunsUpTo(frame, last)[..|prior|] == prior;
      assert RunsUpTo(frame, last)[|a|..|a| + |b|] == prior[|a|..|a| + |b|];
    }
  }

  /** One turn of the encoder's outer loop. */
  method WriteNext(enc: SymbolWriter, magRuns: seq<int>, magIdx0: nat, cnt: int, ghost b: seq<int>)
    returns (magIdx: nat, panicked: bool)
    requires |b| == SUBFRAME_LEN && cnt == MagnitudeSum(b)
    requires magIdx0 + |Runs(b)| <= |magRuns| && magRuns[magIdx0..magIdx0 + |Runs(b)|] == Runs(b)
    modifies enc
    ensures panicked <==> TooMany(cnt)
    ensures !panicked ==> enc.written == old(enc.written) + RunSymbols(Runs(b)) && magIdx == magIdx0 + |Runs(b)|
  {
    magIdx, panicked := magIdx0, false;
    if cnt <= 0 {
      NoPulses(b);
    } else {
      RunsCount(b);
      BlockInRange(b);
      magIdx, panicked := WriteSubframe(enc, magRuns, magIdx, cnt, Runs(b));
    }
  }

  /** The replay panics exactly if some subframe has too many pulses. */
  method WriteRuns(enc: SymbolWriter, counts: seq<int>, magRuns: seq<int>, ghost frame: seq<int>)
    returns (panicked: bool)
    requires |frame| == FRAME_LEN && counts == Counts(frame) && magRuns == RunsUpTo(frame, SUBFRAMES)
    modifies enc
    ensures panicked <==> exists i :: 0 <= i < SUBFRAMES && TooMany(counts[i])
    ensures !panicked ==> enc.written == old(enc.written) + RunSymbolsUpTo(frame, SUBFRAMES)
  {
    hide Block, Runs, RunSymbols, MagnitudeSum;
    var magIdx := 0;
    panicked := false;
    ghost var before := enc.written;
    for sf := 0 to SUBFRAMES
      invariant magIdx == |RunsUpTo(frame, sf)| && !panicked
      invariant forall i :: 0 <= i < sf ==> !TooMany(counts[i])
      invariant enc.written == before + RunSymbolsUpTo(frame, sf)
    {
      RunsAt(frame, sf, SUBFRAMES);
      magIdx, panicked := WriteNext(enc, magRuns, magIdx, counts[sf], Block(frame, sf));
      if panicked {
        return;
      }
      AssociatesRight(before, RunSymbolsUpTo(frame, sf), RunSymbols(Runs(Block(frame, sf))));
    }
  }

  lemma AssociatesRight(a: seq<Symbol>, b: seq<Symbol>, c: seq<Symbol>)
    ensures a + b + c == a + (b + c)
  {
  }

  // ----- the decoder's reading -----

  /** The decoder keeps places and magnitudes in two lists. */
  ghost predicate Holds(posList: seq<int>, magList: seq<int>, found: seq<Pulse>) {
    && |posList| == |magList| == |found|
    && forall i :: 0 <= i < |found| ==> posList[i] == found[i].pos && magList[i] == found[i].mag
  }

  lemma {:induction false} ReaderFound(found: seq<Pulse>, base: nat, runs: seq<int>)
    ensures |ReadRuns(Reader(found, base), runs).found| >= |found| + (if runs == [] then 0 else 1)
  {
    if runs != [] {
      ReaderFound(found, base, runs[..|runs| - 1]);
    }
  }

  /** What the reader knows after k runs. */
  ghost function After(found: seq<Pulse>, base: nat, runs: seq<int>, k: nat): Reader
    requires k <= |runs|
  {
    ReadRuns(Reader(found, base), runs[..k])
  }

  lemma AfterStep(found: seq<Pulse>, base: nat, runs: seq<int>, k: nat)
    requires k < |runs| && InRange(runs)
    ensures After(found, base, runs, 0) == Reader(found, base)
    ensures After(found, base, runs, k + 1) == ReadRun(After(found, base, runs, k), runs[k], k == 0)
    ensures k > 0 ==> |After(found, base, runs, k).found| > 0
  {
    assert 0 <= runs[k] < PosAt(runs, k);
    assert runs[..0] == [];
    assert runs[..k + 1] == runs[..k] + [runs[k]];
    ReadAppended(Reader(found, base), runs[..k], runs[k]);
    ReaderFound(found, base, runs[..k]);
  }

  method ReadSubframe(dec: SymbolReader, posList0: seq<int>, magList0: seq<int>, basePos: nat, cnt: int,
                      ghost runs: seq<int>, ghost found: seq<Pulse>)
    returns (posList: seq<int>, magList: seq<int>, panicked: bool)
    requires InRange(runs) && cnt == |runs| > 0
    requires Holds(posList0, magList0, found)
    requires At(dec.stream, dec.next, RunSymbols(runs))
    modifies dec
    ensures panicked <==> TooMany(cnt)
    ensures !panicked ==> dec.next == old(dec.next) + |runs|
    ensures !panicked ==> Holds(posList, magList, After(found, basePos, runs, |runs|).found)
  {
    AfterStep(found, basePos, runs, 0);
    PosStart(runs);
    posList, magList, panicked := posList0, magList0, false;
    var runPos := basePos;
    var pos := SUBFRAME_LEN;
    var c := cnt;
    var k := 0;
    while k < cnt
      invariant 0 <= k <= cnt && c == cnt - k && (k > 0 ==> !TooMany(cnt))
      invariant dec.next == old(dec.next) + k
      invariant pos == PosAt(runs, k)
      invariant runPos == After(found, basePos, runs, k).runPos
      invariant Holds(posList, magList, After(found, basePos, runs, k).found)
    {
      AfterStep(found, basePos, runs, k);
      PosStep(runs, k);
      assert 0 <= runs[k] < PosAt(runs, k) <= SUBFRAME_LEN;
      if pos < 0 {
        break;
      }
      var oct := (pos + 7) / 8;
      if !RowExists(oct, c) {
        return posList, magList, true;
      }
      var start := RUNLEN_STEP * oct - pos;
      AtElement(dec.stream, old(dec.next), RunSymbols(runs), k);
      var m := dec.DecodeCdf(RunWindow(oct, c, start, pos + 1));
      if m > 0 || k == 0 {
        runPos := runPos + m;
        posList := posList + [runPos];
        magList := magList + [1];
        pos := pos - m;
      } else if |posList| > 0 {
        var pulseIdx := |posList| - 1;
        magList := magList[pulseIdx := magList[pulseIdx] + 1];
      }
      c := c - 1;
      k := k + 1;
    }
  }

  lemma AfterBlock(found: seq<Pulse>, base: nat, b: seq<int>)
    ensures After(found, base, Runs(b), |Runs(b)|).found == found + PulsesOf(base, b)
  {
    assert Runs(b)[..|Runs(b)|] == Runs(b);
    ReadRunsOfBlock(found, base, b);
  }

  lemma NothingHeld(frame: seq<int>)
    requires |frame| == FRAME_LEN
    ensures Holds([], [], PulsesOf(0, frame[..SUBFRAME_LEN * 0]))
  {
  }

  /** One turn of the decoder's outer loop. */
  method ReadNext(dec: SymbolReader, posList0: seq<int>, magList0: seq<int>, sf: nat, cnt: int, ghost frame: seq<int>)
    returns (posList: seq<int>, magList: seq<int>, panicked: bool)
    requires |frame| == FRAME_LEN && sf < SUBFRAMES && cnt == MagnitudeSum(Block(frame, sf))
    requires Holds(posList0, magList0, PulsesOf(0, frame[..SUBFRAME_LEN * sf]))
    requires At(dec.stream, dec.next, RunSymbols(Runs(Block(frame, sf))))
    modifies dec
    ensures panicked <==> TooMany(cnt)
    ensures !panicked ==> dec.next == old(dec.next) + |RunSymbols(Runs(Block(frame, sf)))|
    ensures !panicked ==> Holds(posList, magList, PulsesOf(0, frame[..SUBFRAME_LEN * (sf + 1)]))
  {
    posList, magList, panicked := posList0, magList0, false;
    ghost var b := Block(frame, sf);
    FoundUpTo(frame, sf);
    if cnt <= 0 {
      NoPulses(b);
      NoPulsesFound(SUBFRAME_LEN * sf, b);
    } else {
      ghost var found := PulsesOf(0, frame[..SUBFRAME_LEN * sf]);
      RunsCount(b);
      BlockInRange(b);
      AfterBlock(found, SUBFRAME_LEN * sf, b);
      posList, magList, panicked := ReadSubframe(dec, posList, magList, SUBFRAME_LEN * sf, cnt, Runs(b), found);
    }
  }

  /** The decoder finds every pulse of the frame, unless some subframe has too many for its tables. */
  method ReadRunBlock(dec: SymbolReader, counts: seq<int>, ghost frame: seq<int>)
    returns (posList: seq<int>, magList: seq<int>, panicked: bool)
    requires |frame| == FRAME_LEN && counts == Counts(frame)
    requires At(dec.stream, dec.next, RunSymbolsUpTo(frame, SUBFRAMES))
    modifies dec
    ensures panicked <==> exists i :: 0 <= i < SUBFRAMES && TooMany(counts[i])
    ensures !panicked ==> dec.next == old(dec.next) + |RunSymbolsUpTo(frame, SUBFRAMES)|
    ensures !panicked ==> Holds(posList, magList, PulsesOf(0, frame))
  {
    hide Block, Runs, RunSymbols, MagnitudeSum, Holds;
    posList, magList, panicked := [], [], false;
    NothingHeld(frame);
    for sf := 0 to SUBFRAMES
      invariant !panicked && forall i :: 0 <= i < sf ==> !TooMany(counts[i])
      invariant dec.next == old(dec.next) + |RunSymbolsUpTo(frame, sf)|
      invariant Holds(posList, magList, PulsesOf(0, frame[..SUBFRAME_LEN * sf]))
    {
      SymbolsAt(dec.stream, old(dec.next), frame, sf, SUBFRAMES);
      posList, magList, panicked := ReadNext(dec, posList, magList, sf, counts[sf], frame);
      if panicked {
        return;
      }
    }
    assert frame[..FRAME_LEN] == frame;
  }

  lemma FoundUpTo(frame: seq<int>, sf: nat)
    requires |frame| == FRAME_LEN && sf < SUBFRAMES
    ensures PulsesOf(0, frame[..SUBFRAME_LEN * (sf + 1)])
         == PulsesOf(0, frame[..SUBFRAME_LEN * sf]) + PulsesOf(SUBFRAME_LEN * sf, Block(frame, sf))
  {
    var before := frame[..SUBFRAME_LEN * sf];
    PulsesAppend(0, before, Block(frame, sf));
    assert before + Block(frame, sf) == frame[..SUBFRAME_LEN * (sf + 1)];
  }

  lemma {:induction false} NoPulsesFound(base: nat, b: seq<int>)
    requires forall i :: 0 <= i < |b| ==> b[i] == 0
    ensures PulsesOf(base, b) == []
  {
    if b != [] {
      NoPulsesFound(base, b[..|b| - 1]);
    }
  }

  lemma {:induction false} SymbolsAt(stream: seq<Symbol>, i: nat, frame: seq<int>, sf: nat, last: nat)
    requires |frame| == FRAME_LEN && sf < last <= SUBFRAMES && At(stream, i, RunSymbolsUpTo(frame, last))
    ensures At(stream, i + |RunSymbolsUpTo(frame, sf)|, RunSymbols(Runs(Block(frame, sf))))
    decreases last
  {
    AtSplit(stream, i, RunSymbolsUpTo(frame, last - 1), RunSymbols(Runs(Block(frame, last - 1))));
    if sf < last - 1 {
      SymbolsAt(stream, i, frame, sf, last - 1);
    }
  }
}
