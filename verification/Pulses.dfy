/**
  Pulse coding: a frame of signed pulses becomes pulse counts per subframe, run lengths, and packed
  signs; the decoder's loops turn these back into the frame.
 */
module Pulses {
  import opened Arith

  const SUBFRAMES := 4
  const SUBFRAME_LEN := 80
  const FRAME_LEN := 320
  const SIGN_BATCH := 15

  function Abs(x: int): (r: nat)
    ensures r == x || r == -x
  {
    if x < 0 then -x else x
  }

  function MagnitudeSum(b: seq<int>): nat {
    if b == [] then 0 else MagnitudeSum(b[..|b| - 1]) + Abs(b[|b| - 1])
  }

  function Zeros(n: nat): (z: seq<int>)
    ensures |z| == n && forall i :: 0 <= i < n ==> z[i] == 0
  {
    seq(n, i => 0)
  }

  /** The last position of a pulse before the end of the block, or 0 if there is none. */
  function LastPulse(b: seq<int>): nat {
    if b == [] then 0 else if b[|b| - 1] != 0 then |b| - 1 else LastPulse(b[..|b| - 1])
  }

  /** For each pulse the distance to the one before it, then a zero for each further unit of magnitude. */
  function Runs(b: seq<int>): seq<int> {
    if b == [] then []
    else
      var n := |b| - 1;
      var before := Runs(b[..n]);
      if b[n] == 0 then before
      else before + [n - LastPulse(b[..n])] + Zeros(Abs(b[n]) - 1)
  }

  function Signs(b: seq<int>): seq<bool> {
    if b == [] then []
    else if b[|b| - 1] == 0 then Signs(b[..|b| - 1])
    else Signs(b[..|b| - 1]) + [b[|b| - 1] > 0]
  }

  lemma {:induction false} RunsCount(b: seq<int>)
    ensures |Runs(b)| == MagnitudeSum(b)
  {
    if b != [] {
      RunsCount(b[..|b| - 1]);
    }
  }

  lemma {:induction false} LastPulseBounds(b: seq<int>)
    ensures b != [] ==> LastPulse(b) < |b|
    ensures MagnitudeSum(b) > 0 ==> b != [] && b[LastPulse(b)] != 0
    ensures forall i :: 0 <= i < |b| && b[i] != 0 ==> i <= LastPulse(b)
    ensures MagnitudeSum(b) == 0 ==> LastPulse(b) == 0
  {
    if b != [] {
      var n := |b| - 1;
      LastPulseBounds(b[..n]);
      assert forall i :: 0 <= i < n ==> b[..n][i] == b[i];
    }
  }

  // ----- the decoder's reading of the runs -----

  datatype Pulse = Pulse(pos: nat, mag: int)

  /** The pulses of a block that starts at `base`. */
  function PulsesOf(base: nat, b: seq<int>): seq<Pulse> {
    if b == [] then []
    else
      var n := |b| - 1;
      if b[n] == 0 then PulsesOf(base, b[..n]) else PulsesOf(base, b[..n]) + [Pulse(base + n, Abs(b[n]))]
  }

  datatype Reader = Reader(found: seq<Pulse>, runPos: nat)

  /** One run-length symbol: a new position if it is positive or the first, else one more unit on the last pulse. */
  function ReadRun(r: Reader, m: nat, first: bool): Reader {
    if m > 0 || first then Reader(r.found + [Pulse(r.runPos + m, 1)], r.runPos + m)
    else if r.found != [] then
      var last := |r.found| - 1;
      r.(found := r.found[last := r.found[last].(mag := r.found[last].mag + 1)])
    else r
  }

  function ReadRuns(r: Reader, runs: seq<int>): Reader {
    if runs == [] then r
    else
      var k := |runs| - 1;
      ReadRun(ReadRuns(r, runs[..k]), Abs(runs[k]), k == 0)
  }

  lemma ReadAppended(r: Reader, runs: seq<int>, m: int)
    ensures ReadRuns(r, runs + [m]) == ReadRun(ReadRuns(r, runs), Abs(m), runs == [])
  {
    assert (runs + [m])[..|runs|] == runs;
  }

  lemma {:induction false} ReadZeros(r: Reader, runs: seq<int>, found: seq<Pulse>, pos: nat, mag: int, runPos: nat,
                                     z: nat)
    requires runs != [] && ReadRuns(r, runs) == Reader(found + [Pulse(pos, mag)], runPos)
    ensures ReadRuns(r, runs + Zeros(z)) == Reader(found + [Pulse(pos, mag + z)], runPos)
  {
    if z == 0 {
      assert runs + Zeros(0) == runs;
    } else {
      ReadZeros(r, runs, found, pos, mag, runPos, z - 1);
      assert runs + Zeros(z) == (runs + Zeros(z - 1)) + [0];
      ReadAppended(r, runs + Zeros(z - 1), 0);
    }
  }

  /** The run of one pulse and the zeros after it add that pulse to what has been found. */
  lemma ReadOnePulse(r: Reader, before: seq<int>, m: nat, mag: nat)
    requires mag >= 1 && (m > 0 || before == [])
    ensures var a := ReadRuns(r, before);
            ReadRuns(r, before + [m] + Zeros(mag - 1)) == Reader(a.found + [Pulse(a.runPos + m, mag)], a.runPos + m)
  {
    hide ReadRuns, Zeros;
    var a := ReadRuns(r, before);
    ReadAppended(r, before, m);
    ReadZeros(r, before + [m], a.found, a.runPos + m, 1, a.runPos + m, mag - 1);
  }

  lemma RunsOfZero(init: seq<int>)
    ensures Runs(init + [0]) == Runs(init) && LastPulse(init + [0]) == LastPulse(init)
  {
    assert (init + [0])[..|init|] == init;
  }

  lemma RunsAtPulse(b: seq<int>, init: seq<int>)
    requires b != [] && b[|b| - 1] != 0 && init == b[..|b| - 1]
    ensures Runs(b) == Runs(init) + [|init| - LastPulse(init)] + Zeros(Abs(b[|b| - 1]) - 1)
    ensures LastPulse(b) == |init|
  {
  }

  lemma PulsesOfNext(base: nat, init: seq<int>, x: int)
    ensures PulsesOf(base, init + [x]) == PulsesOf(base, init) + (if x == 0 then [] else [Pulse(base + |init|, Abs(x))])
  {
    assert (init + [x])[..|init|] == init;
  }

  /** Reading the runs of a block finds its pulses, at their places and with their magnitudes. */
  lemma {:induction false} ReadRunsOfBlock(found: seq<Pulse>, base: nat, b: seq<int>)
    ensures ReadRuns(Reader(found, base), Runs(b)) == Reader(found + PulsesOf(base, b), base + LastPulse(b))
  {
    if b == [] {
      assert found + PulsesOf(base, b) == found;
    } else {
      var n := |b| - 1;
      var init, x := b[..n], b[n];
      assert b == init + [x];
      ReadRunsOfBlock(found, base, init);
      PulsesOfNext(base, init, x);
      if x == 0 {
        RunsOfZero(init);
      } else {
        RunsAtPulse(b, init);
        RunsCount(init);
        LastPulseBounds(init);
        ReadOnePulse(Reader(found, base), Runs(init), n - LastPulse(init), Abs(x));
        assert found + (PulsesOf(base, init) + [Pulse(base + n, Abs(x))])
            == (found + PulsesOf(base, init)) + [Pulse(base + n, Abs(x))];
      }
    }
  }

  // ----- sign packing -----

  function Bit(b: bool): nat {
    if b then 1 else 0
  }

  /** The bits as a number, the first bit the most significant. */
  function Packed(bits: seq<bool>): nat {
    if bits == [] then 0 else 2 * Packed(bits[..|bits| - 1]) + Bit(bits[|bits| - 1])
  }

  /** Bit j from the front, out of n. */
  function BitAt(sym: nat, n: nat, j: nat): bool
    requires j < n
  {
    (sym / Pow2(n - 1 - j)) % 2 == 1
  }

  lemma {:induction false} PackedBits(bits: seq<bool>, j: nat)
    requires j < |bits|
    ensures BitAt(Packed(bits), |bits|, j) == bits[j]
  {
    var n := |bits|;
    var init := bits[..n - 1];
    if j == n - 1 {
      assert Pow2(0) == 1;
    } else {
      PackedBits(init, j);
      var half := Pow2(n - 2 - j);
      assert Pow2(n - 1 - j) == 2 * half;
      HalveBoth(Packed(bits), Packed(init), half, Bit(bits[n - 1]));
    }
  }

  lemma HalveBoth(x: nat, y: nat, half: nat, bit: nat)
    requires x == 2 * y + bit && bit <= 1 && half >= 1
    ensures x / (2 * half) == y / half
  {
    var q, r := y / half, y % half;
    assert y == half * q + r;
    assert x == (2 * half) * q + (2 * r + bit);
    DivModUnique(x, 2 * half, q, 2 * r + bit);
  }

  datatype SignSymbol = SignSymbol(sym: nat, nbits: nat)

  /** The signs in batches of at most fifteen. */
  function SignSymbols(signs: seq<bool>): seq<SignSymbol> {
    if signs == [] then []
    else
      var n := Min(|signs|, SIGN_BATCH);
      [SignSymbol(Packed(signs[..n]), n)] + SignSymbols(signs[n..])
  }

  function ReadSigns(symbols: seq<SignSymbol>): seq<bool> {
    if symbols == [] then []
    else
      var s := symbols[0];
      seq(s.nbits, j requires 0 <= j < s.nbits => BitAt(s.sym, s.nbits, j)) + ReadSigns(symbols[1..])
  }

  lemma {:induction false} SignsRoundTrip(signs: seq<bool>)
    ensures ReadSigns(SignSymbols(signs)) == signs
    ensures forall s :: s in SignSymbols(signs) ==> 1 <= s.nbits <= SIGN_BATCH
    decreases |signs|
  {
    if signs != [] {
      var n := Min(|signs|, SIGN_BATCH);
      var batch := signs[..n];
      SignsRoundTrip(signs[n..]);
      var symbols := SignSymbols(signs);
      assert symbols[1..] == SignSymbols(signs[n..]);
      forall j | 0 <= j < n
        ensures BitAt(Packed(batch), n, j) == batch[j]
      {
        PackedBits(batch, j);
      }
      assert ReadSigns(symbols) == batch + signs[n..] == signs;
    }
  }

  // ----- the frame -----

  function Block(frame: seq<int>, sf: nat): (b: seq<int>)
    requires |frame| == FRAME_LEN && sf < SUBFRAMES
    ensures |b| == SUBFRAME_LEN
  {
    frame[SUBFRAME_LEN * sf..SUBFRAME_LEN * (sf + 1)]
  }

  function Counts(frame: seq<int>): (counts: seq<int>)
    requires |frame| == FRAME_LEN
    ensures |counts| == SUBFRAMES
  {
    seq(SUBFRAMES, sf requires 0 <= sf < SUBFRAMES => MagnitudeSum(Block(frame, sf)))
  }

  /** The runs of the first sf subframes, one after another. */
  function RunsUpTo(frame: seq<int>, sf: nat): seq<int>
    requires |frame| == FRAME_LEN && sf <= SUBFRAMES
  {
    if sf == 0 then [] else RunsUpTo(frame, sf - 1) + Runs(Block(frame, sf - 1))
  }

  lemma {:induction false} NoPulses(b: seq<int>)
    requires MagnitudeSum(b) == 0
    ensures Runs(b) == [] && Signs(b) == [] && forall i :: 0 <= i < |b| ==> b[i] == 0
  {
    if b != [] {
      NoPulses(b[..|b| - 1]);
    }
  }

  lemma {:induction false} SignsAppend(a: seq<int>, b: seq<int>)
    ensures Signs(a + b) == Signs(a) + Signs(b)
  {
    if b == [] {
      assert a + b == a;
    } else {
      SignsAppend(a, b[..|b| - 1]);
      assert (a + b)[..|a + b| - 1] == a + b[..|b| - 1];
    }
  }

  lemma {:induction false} PulsesAppend(base: nat, a: seq<int>, b: seq<int>)
    ensures PulsesOf(base, a + b) == PulsesOf(base, a) + PulsesOf(base + |a|, b)
  {
    if b == [] {
      assert a + b == a;
    } else {
      PulsesAppend(base, a, b[..|b| - 1]);
      assert (a + b)[..|a + b| - 1] == a + b[..|b| - 1];
    }
  }

  // ----- the encoder -----

  method CountMagnitudes(pulse: array<int>, sf: nat) returns (s: int)
    requires pulse.Length == FRAME_LEN && sf < SUBFRAMES
    ensures s == MagnitudeSum(Block(pulse[..], sf))
  {
    s := 0;
    ghost var b := Block(pulse[..], sf);
    for n := sf * SUBFRAME_LEN to (sf + 1) * SUBFRAME_LEN
      invariant s == MagnitudeSum(b[..n - sf * SUBFRAME_LEN])
    {
      assert b[..n + 1 - sf * SUBFRAME_LEN][..n - sf * SUBFRAME_LEN] == b[..n - sf * SUBFRAME_LEN];
      var a := pulse[n];
      if a < 0 {
        a := -a;
      }
      s := s + a;
    }
    assert b[..SUBFRAME_LEN] == b;
  }

  /** The inner loop of the encoder: appends the runs and signs of one subframe. */
  /** A run of length zero for each further unit of magnitude. */
  method AppendZeros(runs0: seq<int>, n: nat) returns (runs: seq<int>)
    ensures runs == runs0 + Zeros(n)
  {
    runs := runs0;
    for k := 0 to n
      invariant runs == runs0 + Zeros(k)
    {
      runs := runs + [0];
      assert Zeros(k) + [0] == Zeros(k + 1);
    }
  }

  method AppendSubframe(pulse: array<int>, sf: nat, runs0: seq<int>, signs0: seq<bool>)
    returns (magRuns: seq<int>, signs: seq<bool>)
    requires pulse.Length == FRAME_LEN && sf < SUBFRAMES
    ensures magRuns == runs0 + Runs(Block(pulse[..], sf))
    ensures signs == signs0 + Signs(Block(pulse[..], sf))
  {
    magRuns, signs := runs0, signs0;
    var basePos := SUBFRAME_LEN * sf;
    var runPos := basePos;
    var first := true;
    ghost var b := Block(pulse[..], sf);
    assert b == pulse[basePos..basePos + SUBFRAME_LEN];
    hide Block;
    for n := basePos to basePos + SUBFRAME_LEN
      invariant magRuns == runs0 + Runs(b[..n - basePos])
      invariant signs == signs0 + Signs(b[..n - basePos])
      invariant runPos == basePos + LastPulse(b[..n - basePos])
      invariant first ==> runPos == basePos
    {
      ghost var init := b[..n - basePos];
      ghost var next := b[..n + 1 - basePos];
      assert next[..n - basePos] == init && next[n - basePos] == pulse[n];
      if pulse[n] != 0 {
        var magv := pulse[n];
        var mag := if magv < 0 then -magv else magv;
        var m := if first then n - basePos else n - runPos;
        magRuns := magRuns + [m];
        runPos := n;
        magRuns := AppendZeros(magRuns, mag - 1);
        signs := signs + [magv > 0];
        first := false;
        assert magRuns == runs0 + Runs(next);
      }
    }
    assert b[..SUBFRAME_LEN] == b;
  }

  /** The inner loop of the sign packing: one batch of signs from p on. */
  method PackBatch(signs: seq<bool>, p: nat, nbits: nat) returns (sym: nat)
    requires p + nbits <= |signs|
    ensures sym == Packed(signs[p..p + nbits])
  {
    ghost var batch := signs[p..p + nbits];
    sym := 0;
    for q := 0 to nbits
      invariant sym == Packed(batch[..q]) * Pow2(nbits - q)
    {
      assert batch[..q + 1][..q] == batch[..q];
      ShiftIn(Packed(batch[..q]), Bit(batch[q]), nbits - q);
      var bit := if signs[p + q] then 1 else 0;
      sym := sym + bit * Pow2(nbits - 1 - q);
    }
    assert batch[..nbits] == batch;
  }

  method PackSigns(signs: seq<bool>) returns (signSyms: seq<SignSymbol>)
    ensures signSyms == SignSymbols(signs)
  {
    signSyms := [];
    var p := 0;
    while p < |signs|
      invariant 0 <= p <= |signs|
      invariant signSyms + SignSymbols(signs[p..]) == SignSymbols(signs)
    {
      var nbits := |signs| - p;
      if nbits > SIGN_BATCH {
        nbits := SIGN_BATCH;
      }
      var sym := PackBatch(signs, p, nbits);
      assert signs[p..][..nbits] == signs[p..p + nbits];
      assert signs[p..][nbits..] == signs[p + nbits..];
      signSyms := signSyms + [SignSymbol(sym, nbits)];
      p := p + nbits;
    }
  }

  lemma ShiftIn(high: nat, bit: nat, places: nat)
    requires places >= 1
    ensures high * Pow2(places) + bit * Pow2(places - 1) == (2 * high + bit) * Pow2(places - 1)
  {
    TimesDistributes(2 * high, bit, Pow2(places - 1));
    TimesAssociative(high, 2, Pow2(places - 1));
  }

  datatype PulseParams = PulseParams(subfr: seq<int>, total: int, magRuns: seq<int>, signSyms: seq<SignSymbol>)

  method CountSubframes(pulse: array<int>) returns (subfr: seq<int>)
    requires pulse.Length == FRAME_LEN
    ensures subfr == Counts(pulse[..])
  {
    subfr := [];
    for sf := 0 to SUBFRAMES
      invariant subfr == Counts(pulse[..])[..sf]
    {
      var s := CountMagnitudes(pulse, sf);
      subfr := subfr + [s];
    }
  }

  /** The second outer loop: subframes without pulses are skipped. */
  method AppendAll(pulse: array<int>, subfr: seq<int>) returns (magRuns: seq<int>, signs: seq<bool>)
    requires pulse.Length == FRAME_LEN && subfr == Counts(pulse[..])
    ensures magRuns == RunsUpTo(pulse[..], SUBFRAMES) && signs == Signs(pulse[..])
  {
    ghost var frame := pulse[..];
    magRuns, signs := [], [];
    for sf := 0 to SUBFRAMES
      invariant magRuns == RunsUpTo(frame, sf)
      invariant signs == Signs(frame[..SUBFRAME_LEN * sf])
    {
      ghost var b := Block(frame, sf);
      SignsAppend(frame[..SUBFRAME_LEN * sf], b);
      assert frame[..SUBFRAME_LEN * sf] + b == frame[..SUBFRAME_LEN * (sf + 1)];
      if subfr[sf] <= 0 {
        NoPulses(b);
      } else {
        magRuns, signs := AppendSubframe(pulse, sf, magRuns, signs);
      }
    }
    assert frame[..FRAME_LEN] == frame;
  }

  method BuildPulseParams(pulse: array<int>) returns (pp: PulseParams)
    requires pulse.Length == FRAME_LEN
    ensures pp.subfr == Counts(pulse[..])
    ensures pp.total == |pp.magRuns| == MagnitudeSum(pulse[..])
    ensures pp.magRuns == RunsUpTo(pulse[..], SUBFRAMES)
    ensures pp.signSyms == SignSymbols(Signs(pulse[..]))
  {
    var subfr := CountSubframes(pulse);
    var total := subfr[0] + subfr[1] + subfr[2] + subfr[3];
    var magRuns, signs := AppendAll(pulse, subfr);
    var signSyms := PackSigns(signs);
    RunsTotal(pulse[..], SUBFRAMES);
    FrameTotal(pulse[..], SUBFRAMES);
    FourCounts(subfr);
    pp := PulseParams(subfr, total, magRuns, signSyms);
  }

  function CountsSum(counts: seq<int>, sf: nat): int
    requires sf <= |counts|
  {
    if sf == 0 then 0 else CountsSum(counts, sf - 1) + counts[sf - 1]
  }

  lemma FourCounts(counts: seq<int>)
    requires |counts| == SUBFRAMES
    ensures CountsSum(counts, SUBFRAMES) == counts[0] + counts[1] + counts[2] + counts[3]
  {
    assert CountsSum(counts, 1) == counts[0];
    assert CountsSum(counts, 2) == counts[0] + counts[1];
    assert CountsSum(counts, 3) == counts[0] + counts[1] + counts[2];
  }

  lemma {:induction false} RunsTotal(frame: seq<int>, sf: nat)
    requires |frame| == FRAME_LEN && sf <= SUBFRAMES
    ensures |RunsUpTo(frame, sf)| == CountsSum(Counts(frame), sf)
  {
    if sf > 0 {
      RunsTotal(frame, sf - 1);
      RunsCount(Block(frame, sf - 1));
    }
  }

  lemma {:induction false} MagnitudeAppend(a: seq<int>, b: seq<int>)
    ensures MagnitudeSum(a + b) == MagnitudeSum(a) + MagnitudeSum(b)
  {
    if b == [] {
      assert a + b == a;
    } else {
      MagnitudeAppend(a, b[..|b| - 1]);
      assert (a + b)[..|a + b| - 1] == a + b[..|b| - 1];
    }
  }

  lemma {:induction false} FrameTotal(frame: seq<int>, sf: nat)
    requires |frame| == FRAME_LEN && sf <= SUBFRAMES
    ensures MagnitudeSum(frame[..SUBFRAME_LEN * sf]) == CountsSum(Counts(frame), sf)
    ensures sf == SUBFRAMES ==> MagnitudeSum(frame) == CountsSum(Counts(frame), sf)
  {
    if sf > 0 {
      FrameTotal(frame, sf - 1);
      var b := Block(frame, sf - 1);
      MagnitudeAppend(frame[..SUBFRAME_LEN * (sf - 1)], b);
      assert frame[..SUBFRAME_LEN * (sf - 1)] + b == frame[..SUBFRAME_LEN * sf];
      assert frame[..FRAME_LEN] == frame;
    }
  }
}
