/** The whole pulse block of one 20 ms frame: what the encoder writes, the decoder turns back into the frame. */
module PulseFrame {
  import opened Arith
  import opened Fixed
  import opened Symbols
  import opened Pulses
  import opened PulseRuns
  import PulseTotal

  // ----- signs -----

  function RawSymbols(signSyms: seq<SignSymbol>): (w: seq<Symbol>)
    ensures |w| == |signSyms|
  {
    seq(|signSyms|, i requires 0 <= i < |signSyms| => Raw(signSyms[i].sym, signSyms[i].nbits))
  }

  function Signed(mag: int, positive: bool): int {
    if positive then mag else -mag
  }

  lemma {:induction false} PackedBelow(bits: seq<bool>)
    ensures Packed(bits) < Pow2(|bits|)
  {
    if bits != [] {
      PackedBelow(bits[..|bits| - 1]);
    }
  }

  lemma {:induction false} Pow2Sum(a: nat, b: nat)
    ensures Pow2(a + b) == Pow2(a) * Pow2(b)
  {
    if a > 0 {
      Pow2Sum(a - 1, b);
      TimesAssociative(2, Pow2(a - 1), Pow2(b));
    }
  }

  lemma {:induction false} ShiftDown(x: nat, a: nat, b: nat)
    ensures x * Pow2(a) / Pow2(a + b) == x / Pow2(b)
  {
    if a > 0 {
      ShiftDown(x, a - 1, b);
      HalveBoth(x * Pow2(a), x * Pow2(a - 1), Pow2(a - 1 + b), 0);
    }
  }

  lemma Pow2Fifteen()
    ensures Pow2(15) == 32768
  {
    assert Pow2(5) == 32;
    Pow2Sum(5, 5);
    Pow2Sum(10, 5);
  }

  /** After j shifts the top bit of the 16-bit field is bit j of the symbol, and no bit has left the word. */
  lemma FieldBit(sym: nat, n: nat, j: nat)
    requires j < n <= SIGN_BATCH && sym < Pow2(n)
    ensures sym * Pow2(16 - n + j) < TWO31
    ensures (sym * Pow2(16 - n + j) / 16384 / 2 % 2 == 1) == BitAt(sym, n, j)
  {
    var x := sym * Pow2(16 - n + j);
    Pow2Fifteen();
    ShiftDown(sym, 16 - n + j, n - 1 - j);
    assert x / 16384 / 2 == x / 32768;
    Pow2Sum(16 - n + j, n);
    Pow2Sum(15, 1 + j);
    Pow2Monotone(1 + j, 16);
    Pow2Sum(15, 1);
    Pow2Monotone(16 - n + j + n, 31);
    Pow2Sum(16, 15);
    TimesMonotone(sym, Pow2(n) - 1, Pow2(16 - n + j));
    TimesDistributes(Pow2(n), -1, Pow2(16 - n + j));
  }

  lemma FieldShift(sym: nat, e: nat)
    requires sym * Pow2(e) < TWO31
    ensures sym * Pow2(e) * 2 % TWO32 == sym * Pow2(e + 1)
  {
    var w := Pow2(e);
    assert Pow2(e + 1) == 2 * w;
    TimesAssociative(sym, 2, w);
    assert sym * (2 * w) == sym * w * 2;
  }

  /** The next field, and the factor its top bit stands for. */
  lemma FieldStep(sym: nat, batch: seq<bool>, j: nat, bitfield: int)
    requires j < |batch| <= SIGN_BATCH && sym == Packed(batch)
    requires bitfield == sym * Pow2(16 - |batch| + j)
    ensures bitfield * 2 % TWO32 == sym * Pow2(16 - |batch| + (j + 1))
    ensures bitfield / 16384 / 2 % 2 * 2 - 1 == Signed(1, batch[j])
  {
    PackedBelow(batch);
    PackedBits(batch, j);
    FieldTop(sym, |batch|, j, bitfield);
  }

  lemma FieldTop(sym: nat, n: nat, j: nat, bitfield: int)
    requires j < n <= SIGN_BATCH && sym < Pow2(n) && bitfield == sym * Pow2(16 - n + j)
    ensures bitfield * 2 % TWO32 == sym * Pow2(16 - n + (j + 1))
    ensures bitfield / 16384 / 2 % 2 * 2 - 1 == Signed(1, BitAt(sym, n, j))
  {
    FieldBit(sym, n, j);
    FieldShift(sym, 16 - n + j);
  }

  lemma SignedTimes(mag: int, positive: bool)
    ensures mag * Signed(1, positive) == Signed(mag, positive)
  {
  }

  /** One batch of signs is applied to the magnitudes from p on. */
  method ApplySigns(mags: seq<int>, p: nat, nbits: nat, sym: nat, ghost batch: seq<bool>) returns (magList: seq<int>)
    requires p + nbits <= |mags| && nbits == |batch| <= SIGN_BATCH && sym == Packed(batch)
    ensures |magList| == |mags|
    ensures forall q :: 0 <= q < |mags| ==>
            magList[q] == if p <= q < p + nbits then Signed(mags[q], batch[q - p]) else mags[q]
  {
    magList := mags;
    var bitfield := sym * Pow2(16 - nbits);
    for q := p to p + nbits
      invariant |magList| == |mags|
      invariant bitfield == sym * Pow2(16 - nbits + (q - p))
      invariant forall i :: 0 <= i < |mags| ==>
                magList[i] == if p <= i < q then Signed(mags[i], batch[i - p]) else mags[i]
    {
      FieldStep(sym, batch, q - p, bitfield);
      SignedTimes(mags[q], batch[q - p]);
      var sign := bitfield / 16384 / 2 % 2 * 2 - 1;
      magList := magList[q := magList[q] * sign];
      bitfield := bitfield * 2 % TWO32;
    }
  }

  lemma RawCons(s: SignSymbol, rest: seq<SignSymbol>)
    ensures RawSymbols([s] + rest) == [Raw(s.sym, s.nbits)] + RawSymbols(rest)
  {
    var all := [s] + rest;
    assert forall i :: 0 < i < |all| ==> all[i] == rest[i - 1];
  }

  lemma RawSymbolsStep(signs: seq<bool>)
    requires signs != []
    ensures var n := Min(|signs|, SIGN_BATCH);
            RawSymbols(SignSymbols(signs)) == [Raw(Packed(signs[..n]), n)] + RawSymbols(SignSymbols(signs[n..]))
  {
    var n := Min(|signs|, SIGN_BATCH);
    RawCons(SignSymbol(Packed(signs[..n]), n), SignSymbols(signs[n..]));
  }

  method ReadSignBlock(dec: SymbolReader, mags: seq<int>, ghost signs: seq<bool>) returns (magList: seq<int>)
    requires |mags| == |signs| && At(dec.stream, dec.next, RawSymbols(SignSymbols(signs)))
    modifies dec
    ensures dec.next == old(dec.next) + |SignSymbols(signs)|
    ensures |magList| == |mags| && forall q :: 0 <= q < |mags| ==> magList[q] == Signed(mags[q], signs[q])
  {
    magList := mags;
    var numPos := |mags|;
    var p := 0;
    assert signs[0..] == signs;
    while p < numPos
      invariant 0 <= p <= numPos && |magList| == |mags|
      invariant At(dec.stream, dec.next, RawSymbols(SignSymbols(signs[p..])))
      invariant dec.next + |SignSymbols(signs[p..])| == old(dec.next) + |SignSymbols(signs)|
      invariant forall q :: 0 <= q < |mags| ==> magList[q] == if q < p then Signed(mags[q], signs[q]) else mags[q]
    {
      var nbits := numPos - p;
      if nbits >= SIGN_BATCH {
        nbits := SIGN_BATCH;
      }
      if nbits <= 0 {
        break;
      }
      ghost var rest := signs[p..];
      RawSymbolsStep(rest);
      assert rest[nbits..] == signs[p + nbits..];
      ghost var tail := RawSymbols(SignSymbols(signs[p + nbits..]));
      AtSplit(dec.stream, dec.next, [Raw(Packed(rest[..nbits]), nbits)], tail);
      AtElement(dec.stream, dec.next, [Raw(Packed(rest[..nbits]), nbits)], 0);
      var sym := dec.DecodeRaw(nbits);
      magList := ApplySigns(magList, p, nbits, sym, rest[..nbits]);
      p := p + nbits;
    }
  }

  // ----- the pulses and their signs determine the frame -----

  lemma {:induction false} PulseAt(b: seq<int>, i: nat)
    requires i < |PulsesOf(0, b)|
    ensures |Signs(b)| == |PulsesOf(0, b)|
    ensures var u := PulsesOf(0, b)[i]; u.pos < |b| && b[u.pos] == Signed(u.mag, Signs(b)[i])
  {
    var n := |b| - 1;
    var init := b[..n];
    if i < |PulsesOf(0, init)| {
      PulseAt(init, i);
    } else {
      SameCount(init);
    }
  }

  lemma {:induction false} SameCount(b: seq<int>)
    ensures |Signs(b)| == |PulsesOf(0, b)|
  {
    if b != [] {
      SameCount(b[..|b| - 1]);
    }
  }

  lemma {:induction false} PulseFor(b: seq<int>, n: nat) returns (i: nat)
    requires n < |b| && b[n] != 0
    ensures i < |PulsesOf(0, b)| && PulsesOf(0, b)[i].pos == n
  {
    var last := |b| - 1;
    if n == last {
      i := |PulsesOf(0, b)| - 1;
    } else {
      i := PulseFor(b[..last], n);
    }
  }

  /** Writing the signed pulses into an empty frame restores it. */
  method Scatter(posList: seq<int>, magList: seq<int>, ghost frame: seq<int>) returns (pulses: array<int>)
    requires |posList| == |magList| == |PulsesOf(0, frame)|
    requires forall i :: 0 <= i < |posList| ==> 0 <= posList[i] < |frame| && frame[posList[i]] == magList[i]
    requires forall i :: 0 <= i < |posList| ==> posList[i] == PulsesOf(0, frame)[i].pos
    requires |frame| == FRAME_LEN
    ensures fresh(pulses) && pulses[..] == frame
  {
    pulses := new int[FRAME_LEN](i => 0);
    for i := 0 to |posList|
      invariant forall n :: 0 <= n < FRAME_LEN ==> pulses[n] == 0 || pulses[n] == frame[n]
      invariant forall j :: 0 <= j < i ==> pulses[posList[j]] == magList[j]
    {
      var pp := posList[i];
      if pp >= 0 && pp < pulses.Length {
        pulses[pp] := magList[i];
      }
    }
    forall n | 0 <= n < FRAME_LEN
      ensures pulses[n] == frame[n]
    {
      if frame[n] != 0 {
        var i := PulseFor(frame, n);
        assert pulses[posList[i]] == magList[i];
      }
    }
  }

  // ----- the block -----

  /** The static bytes behind the count of a frame, by configuration and stage-1 selector. */
  const COUNT_BYTES := [80, 160, 160, 16, 32, 32, 0, 0]

  function FrameLen4k(config: int, stage1: int): nat
    requires 0 <= config <= 1 && 0 <= stage1 <= 1
    ensures FrameLen4k(config, stage1) <= 160
  {
    COUNT_BYTES[config * 3 + (1 + stage1)]
  }

  /** No subframe holds more pulses than its share of the frame: 40 with the settings the codec runs with. */
  ghost predicate Encodable(frame: seq<int>, config: int, stage1: int)
    requires 0 <= config <= 1 && 0 <= stage1 <= 1
  {
    && |frame| == FRAME_LEN
    && PulseTotal.CountsWithin(Counts(frame), FrameLen4k(config, stage1) / 4)
  }

  function BodySymbols(frame: seq<int>, g: nat): seq<Symbol>
    requires |frame| == FRAME_LEN
  {
    if MagnitudeSum(frame) == 0 then []
    else
      PulseTotal.SplitSymbols(Counts(frame), g)
      + (RunSymbolsUpTo(frame, SUBFRAMES) + RawSymbols(SignSymbols(Signs(frame))))
  }

  function PulseSymbols(frame: seq<int>, config: int, stage1: int): seq<Symbol>
    requires 0 <= config <= 1 && 0 <= stage1 <= 1 && |frame| == FRAME_LEN
  {
    var l := FrameLen4k(config, stage1);
    PulseTotal.TotalSymbols(l, MagnitudeSum(frame)) + BodySymbols(frame, l / 4)
  }

  lemma TotalIsSum(frame: seq<int>)
    requires |frame| == FRAME_LEN
    ensures PulseTotal.Total(Counts(frame)) == MagnitudeSum(frame)
  {
    FrameTotal(frame, SUBFRAMES);
    FourCounts(Counts(frame));
  }

  method WriteSigns(enc: SymbolWriter, signSyms: seq<SignSymbol>)
    modifies enc
    ensures enc.written == old(enc.written) + RawSymbols(signSyms)
  {
    for i := 0 to |signSyms|
      invariant enc.written == old(enc.written) + RawSymbols(signSyms)[..i]
    {
      enc.EncodeRaw(signSyms[i].sym, signSyms[i].nbits);
    }
    assert RawSymbols(signSyms)[..|signSyms|] == RawSymbols(signSyms);
  }

  ghost predicate Describes(pp: PulseParams, frame: seq<int>)
    requires |frame| == FRAME_LEN
  {
    && pp.subfr == Counts(frame) && pp.total == MagnitudeSum(frame)
    && pp.magRuns == RunsUpTo(frame, SUBFRAMES) && pp.signSyms == SignSymbols(Signs(frame))
  }

  /** Everything after the total, for a frame that has pulses. */
  method EncodeBody(enc: SymbolWriter, g: nat, pp: PulseParams, ghost frame: seq<int>)
    requires |frame| == FRAME_LEN && PulseTotal.CountsWithin(Counts(frame), g) && g <= 40 && Describes(pp, frame)
    requires MagnitudeSum(frame) != 0
    modifies enc
    ensures enc.written == old(enc.written) + BodySymbols(frame, g)
  {
    TotalIsSum(frame);
    ghost var before := enc.written;
    ghost var splits, runs := PulseTotal.SplitSymbols(Counts(frame), g), RunSymbolsUpTo(frame, SUBFRAMES);
    ghost var signs := RawSymbols(SignSymbols(Signs(frame)));
    PulseTotal.WriteSplit(enc, pp.subfr, pp.total, g);
    var panicked := WriteRuns(enc, pp.subfr, pp.magRuns, frame);
    WriteSigns(enc, pp.signSyms);
    assert before + splits + runs + signs == before + (splits + (runs + signs));
  }

  method EncodePulses(enc: SymbolWriter, config: int, stage1: int, pp: PulseParams, ghost frame: seq<int>)
    requires 0 <= config <= 1 && 0 <= stage1 <= 1 && Encodable(frame, config, stage1) && Describes(pp, frame)
    modifies enc
    ensures enc.written == old(enc.written) + PulseSymbols(frame, config, stage1)
  {
    var frameLen4k := FrameLen4k(config, stage1);
    var subfrLen16 := frameLen4k / 4;
    var total := pp.total;
    ghost var before := enc.written;
    ghost var totals, body := PulseTotal.TotalSymbols(frameLen4k, total), BodySymbols(frame, subfrLen16);
    PulseTotal.WriteTotal(enc, frameLen4k, total);
    if total == 0 {
      return;
    }
    EncodeBody(enc, subfrLen16, pp, frame);
    assert before + totals + body == before + (totals + body);
  }

  lemma {:induction false} NoRuns(frame: seq<int>, sf: nat)
    requires |frame| == FRAME_LEN && sf <= SUBFRAMES
    requires forall i :: 0 <= i < sf ==> Counts(frame)[i] == 0
    ensures RunSymbolsUpTo(frame, sf) == []
  {
    if sf > 0 {
      NoRuns(frame, sf - 1);
      assert Counts(frame)[sf - 1] == 0;
      NoPulses(Block(frame, sf - 1));
    }
  }

  lemma NothingToRead(frame: seq<int>)
    requires |frame| == FRAME_LEN && MagnitudeSum(frame) == 0
    ensures RunSymbolsUpTo(frame, SUBFRAMES) == [] && SignSymbols(Signs(frame)) == []
    ensures Counts(frame) == [0, 0, 0, 0]
  {
    TotalIsSum(frame);
    NoPulses(frame);
    NoRuns(frame, SUBFRAMES);
  }

  /** Runs, signs and scatter, given the counts: the frame, or a panic if a subframe has too many pulses. */
  method DecodePositions(dec: SymbolReader, subfr: seq<int>, ghost frame: seq<int>)
    returns (pulses: array<int>, panicked: bool)
    requires |frame| == FRAME_LEN && subfr == Counts(frame)
    requires At(dec.stream, dec.next, RunSymbolsUpTo(frame, SUBFRAMES) + RawSymbols(SignSymbols(Signs(frame))))
    modifies dec
    ensures panicked <==> exists i :: 0 <= i < SUBFRAMES && TooMany(subfr[i])
    ensures !panicked ==> dec.next == old(dec.next) + |RunSymbolsUpTo(frame, SUBFRAMES)| + |SignSymbols(Signs(frame))|
    ensures fresh(pulses) && (!panicked ==> pulses[..] == frame)
  {
    AtSplit(dec.stream, dec.next, RunSymbolsUpTo(frame, SUBFRAMES), RawSymbols(SignSymbols(Signs(frame))));
    SameCount(frame);
    var posList, mags;
    posList, mags, panicked := ReadRunBlock(dec, subfr, frame);
    if panicked {
      pulses := new int[0];
      return;
    }
    var magList := ReadSignBlock(dec, mags, Signs(frame));
    forall i | 0 <= i < |posList|
      ensures 0 <= posList[i] < |frame| && frame[posList[i]] == magList[i]
    {
      PulseAt(frame, i);
    }
    pulses := Scatter(posList, magList, frame);
  }

  lemma OneInterval(l: nat, total: nat)
    ensures |PulseTotal.TotalSymbols(l, total)| == 1
  {
  }

  function PositionSymbols(frame: seq<int>): seq<Symbol>
    requires |frame| == FRAME_LEN
  {
    RunSymbolsUpTo(frame, SUBFRAMES) + RawSymbols(SignSymbols(Signs(frame)))
  }

  /** The split over the subframes; a frame without pulses has nothing to read. */
  method DecodeSplit(dec: SymbolReader, total: int, g: nat, ghost frame: seq<int>) returns (subfr: seq<int>)
    requires |frame| == FRAME_LEN && total == MagnitudeSum(frame) && g <= PulseTotal.MAX_PULSES_PER_SF
    requires PulseTotal.CountsWithin(Counts(frame), g) && At(dec.stream, dec.next, BodySymbols(frame, g))
    modifies dec
    ensures subfr == Counts(frame) && At(dec.stream, dec.next, PositionSymbols(frame))
    ensures dec.next + |PositionSymbols(frame)| == old(dec.next) + |BodySymbols(frame, g)|
  {
    hide MagnitudeSum, Counts, RunSymbolsUpTo, RawSymbols, SignSymbols, Signs, PulseTotal.SplitSymbols;
    subfr := [0, 0, 0, 0];
    if total == 0 {
      NothingToRead(frame);
      assert PositionSymbols(frame) == [];
    } else {
      TotalIsSum(frame);
      AtSplit(dec.stream, dec.next, PulseTotal.SplitSymbols(Counts(frame), g), PositionSymbols(frame));
      subfr := PulseTotal.ReadSplit(dec, total, g, Counts(frame));
    }
  }

  /** The total and its split over the subframes. */
  method DecodeCounts(dec: SymbolReader, stage1: int, ghost frame: seq<int>) returns (subfr: seq<int>)
    requires 0 <= stage1 <= 1 && Encodable(frame, 0, stage1)
    requires At(dec.stream, dec.next, PulseSymbols(frame, 0, stage1))
    modifies dec
    ensures subfr == Counts(frame) && At(dec.stream, dec.next, PositionSymbols(frame))
    ensures dec.next + |PositionSymbols(frame)| == old(dec.next) + |PulseSymbols(frame, 0, stage1)|
  {
    hide MagnitudeSum, PulseTotal.TotalSymbols, BodySymbols, PositionSymbols;
    TotalIsSum(frame);
    var frameLen4k := FrameLen4k(0, stage1);
    var subfrLen16 := frameLen4k / 4;
    OneInterval(frameLen4k, MagnitudeSum(frame));
    AtSplit(dec.stream, dec.next, PulseTotal.TotalSymbols(frameLen4k, MagnitudeSum(frame)),
      BodySymbols(frame, subfrLen16));
    var total := PulseTotal.ReadTotal(dec, frameLen4k, MagnitudeSum(frame));
    subfr := DecodeSplit(dec, total, subfrLen16, frame);
  }

  /** The decoder, on the symbols of a frame, consumes exactly them and returns the frame. */
  method DecodePulses(dec: SymbolReader, stage1: int, ghost frame: seq<int>)
    returns (pulses: array<int>, subfr: seq<int>)
    requires 0 <= stage1 <= 1 && Encodable(frame, 0, stage1)
    requires At(dec.stream, dec.next, PulseSymbols(frame, 0, stage1))
    modifies dec
    ensures dec.next == old(dec.next) + |PulseSymbols(frame, 0, stage1)|
    ensures fresh(pulses) && pulses[..] == frame && subfr == Counts(frame)
  {
    hide PulseSymbols, RunSymbolsUpTo, RawSymbols, SignSymbols, Signs;
    subfr := DecodeCounts(dec, stage1, frame);
    var panicked;
    pulses, panicked := DecodePositions(dec, subfr, frame);
  }

  /** From the pulse vector to symbols and back, through both programs. */
  method RoundTrip(pulse: array<int>, stage1: int) returns (back: array<int>, subfr: seq<int>)
    requires 0 <= stage1 <= 1 && pulse.Length == FRAME_LEN && Encodable(pulse[..], 0, stage1)
    ensures back[..] == pulse[..] && subfr == Counts(pulse[..])
  {
    var pp := BuildPulseParams(pulse);
    var enc := new SymbolWriter();
    EncodePulses(enc, 0, stage1, pp, pulse[..]);
    var dec := new SymbolReader(enc.written);
    assert enc.written[0..0 + |enc.written|] == enc.written;
    back, subfr := DecodePulses(dec, stage1, pulse[..]);
  }
}
