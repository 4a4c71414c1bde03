/**
  Encoder and decoder each keep predictors that choose the tables of later symbols. The decoder's copy
  must follow the encoder's through a packet of three frames, whatever state an earlier packet left.
 */
module Mirror {
  import opened Arith
  import opened Fixed
  import opened Symbols
  import opened Pulses
  import opened PulseFrame
  import PulseTotal

  const COEFFS := 16
  const FRAMES := 3

  datatype LsfParams = LsfParams(stage1: int, grid: int, stage2: seq<int>, extra: int)
  datatype GainParams = GainParams(main: int, delta: int, nrgRes: seq<int>)
  datatype PitchParams = PitchParams(gainIdx: seq<int>, filtIdx: seq<int>, lag: int)
  datatype FrameParams = FrameParams(lsf: LsfParams, pulses: PulseParams, pitch: PitchParams, gains: GainParams)

  ghost predicate WellFormed(ip: FrameParams) {
    && 0 <= ip.lsf.stage1 <= 1 && |ip.lsf.stage2| == COEFFS
    && |ip.pitch.gainIdx| == |ip.pitch.filtIdx| == |ip.gains.nrgRes| == SUBFRAMES
  }

  /** The constants both programs read from the same embedded tables. */
  datatype Rom = Rom(nrgStep: int, gainRecon: int -> int, gainWeight: (bool, int) -> int)

  /** The predictor fields that choose tables. */
  datatype Predictor = Predictor(stage1: int, gainIdx: int, filtIdx: int)

  class LsfState {
    var prevStage1: int
    var prevMatch: bool
    var havePrev: bool
    var prevGainIdx: int
    var prevFiltIdx: int
    var prevLag: int
    var prevFracLag: int
    var prevLagblk: int
    var prevLagidx: int

    constructor ()
      ensures View() == Predictor(0, 0, 0)
    {
      prevStage1, prevGainIdx, prevFiltIdx := 0, 0, 0;
    }

    function View(): Predictor
      reads this
    {
      Predictor(prevStage1, prevGainIdx, prevFiltIdx)
    }
  }

  // ----- the LSF block -----

  predicate Matches(prevStage1: int, intf: nat, stage1: int) {
    intf != 0 && stage1 == prevStage1
  }

  function SelRow(prevStage1: int, intf: nat): int {
    if intf == 0 then 0 else if prevStage1 != 0 then 2 else 1
  }

  function LsfSymbols(p: Predictor, intf: nat, config: int, lsf: LsfParams): seq<Symbol>
    requires |lsf.stage2| == COEFFS
  {
    [Coded(LsfSel(SelRow(p.stage1, intf)), lsf.stage1),
     Coded(LsfGrid(Matches(p.stage1, intf, lsf.stage1), lsf.stage1 != 0), lsf.grid)]
    + (ResidualSymbols(config, lsf) + [Coded(LsfExtra, lsf.extra)])
  }

  function ResidualSymbols(config: int, lsf: LsfParams): (w: seq<Symbol>)
    requires |lsf.stage2| == COEFFS
    ensures |w| == COEFFS
  {
    seq(COEFFS, k requires 0 <= k < COEFFS => Coded(LsfStage2(lsf.stage1, config, lsf.grid, k), lsf.stage2[k]))
  }

  /** A stage-1 selector that does not match the frame before forgets the gain and filter predictors. */
  function AfterLsf(p: Predictor, intf: nat, stage1: int): Predictor {
    if Matches(p.stage1, intf, stage1) then p.(stage1 := stage1) else Predictor(stage1, -1, -1)
  }

  lemma LsfInParts(before: seq<Symbol>, p: Predictor, intf: nat, config: int, lsf: LsfParams)
    requires |lsf.stage2| == COEFFS
    ensures before + [Coded(LsfSel(SelRow(p.stage1, intf)), lsf.stage1)]
            + [Coded(LsfGrid(Matches(p.stage1, intf, lsf.stage1), lsf.stage1 != 0), lsf.grid)]
            + ResidualSymbols(config, lsf) + [Coded(LsfExtra, lsf.extra)]
         == before + LsfSymbols(p, intf, config, lsf)
  {
    hide ResidualSymbols, SelRow, Matches;
  }

  method EncodeLsf(enc: SymbolWriter, st: LsfState, config: int, intf: nat, lsf: LsfParams)
    requires |lsf.stage2| == COEFFS
    modifies enc, st
    ensures enc.written == old(enc.written) + LsfSymbols(old(st.View()), intf, config, lsf)
    ensures st.View() == AfterLsf(old(st.View()), intf, lsf.stage1)
    ensures st.prevMatch == Matches(old(st.prevStage1), intf, lsf.stage1) && st.havePrev
    ensures !st.prevMatch ==> st.prevLag == st.prevFracLag == st.prevLagblk == st.prevLagidx == -1
  {
    hide LsfSymbols;
    ghost var before := enc.written;
    var sel := 0;
    if intf != 0 {
      if st.prevStage1 != 0 {
        sel := 2;
      } else {
        sel := 1;
      }
    }
    var stage1 := lsf.stage1;
    enc.EncodeCdf(stage1, LsfSel(sel));
    var m := intf != 0 && stage1 == st.prevStage1;
    if !m {
      st.prevGainIdx := -1;
      st.prevFiltIdx := -1;
      st.prevLag := -1;
      st.prevFracLag := -1;
      st.prevLagblk := -1;
      st.prevLagidx := -1;
    }
    st.prevStage1 := stage1;
    var gridCdf :=
      if m && stage1 != 0 then LsfGrid(true, true)
      else if m then LsfGrid(true, false)
      else if stage1 != 0 then LsfGrid(false, true)
      else LsfGrid(false, false);
    enc.EncodeCdf(lsf.grid, gridCdf);
    st.prevMatch := m;
    st.havePrev := true;
    ghost var head := enc.written;
    for k := 0 to COEFFS
      invariant enc.written == head + ResidualSymbols(config, lsf)[..k]
      invariant st.View() == AfterLsf(old(st.View()), intf, lsf.stage1)
      invariant st.prevMatch == m && st.havePrev
      invariant !m ==> st.prevLag == st.prevFracLag == st.prevLagblk == st.prevLagidx == -1
    {
      enc.EncodeCdf(lsf.stage2[k], LsfStage2(stage1, config, lsf.grid, k));
    }
    enc.EncodeCdf(lsf.extra, LsfExtra);
    assert ResidualSymbols(config, lsf)[..COEFFS] == ResidualSymbols(config, lsf);
    LsfInParts(before, old(st.View()), intf, config, lsf);
  }

  /** The analysis keeps a copy of the state in step without writing symbols. */
  method AdvanceLsfState(st: LsfState, intf: nat, stage1: int)
    modifies st
    ensures st.View() == AfterLsf(old(st.View()), intf, stage1)
    ensures st.prevMatch == Matches(old(st.prevStage1), intf, stage1) && st.havePrev
    ensures !st.prevMatch ==> st.prevLag == st.prevFracLag == st.prevLagblk == st.prevLagidx == -1
  {
    var m := intf != 0 && stage1 == st.prevStage1;
    if !m {
      st.prevGainIdx := -1;
      st.prevFiltIdx := -1;
      st.prevLag := -1;
      st.prevFracLag := -1;
      st.prevLagblk := -1;
      st.prevLagidx := -1;
    }
    st.prevStage1 := stage1;
    st.prevMatch := m;
    st.havePrev := true;
  }

  method DecodeResiduals(dec: SymbolReader, config: int, stage1: int, grid: int, ghost lsf: LsfParams)
    returns (stage2: seq<int>)
    requires |lsf.stage2| == COEFFS && stage1 == lsf.stage1 && grid == lsf.grid
    requires At(dec.stream, dec.next, ResidualSymbols(config, lsf))
    modifies dec
    ensures dec.next == old(dec.next) + COEFFS && stage2 == lsf.stage2
  {
    stage2 := [];
    for k := 0 to COEFFS
      invariant dec.next == old(dec.next) + k && stage2 == lsf.stage2[..k]
    {
      AtElement(dec.stream, old(dec.next), ResidualSymbols(config, lsf), k);
      var v := dec.DecodeCdf(LsfStage2(stage1, config, grid, k));
      stage2 := stage2 + [v];
    }
  }

  /** The decoder resets four of the fields the encoder resets; the other two it never reads. */
  method DecodeLsf(dec: SymbolReader, st: LsfState, config: int, intf: nat, ghost p: Predictor, ghost lsf: LsfParams)
    returns (idx: LsfParams)
    requires |lsf.stage2| == COEFFS
    requires intf != 0 ==> st.View() == p
    requires At(dec.stream, dec.next, LsfSymbols(p, intf, config, lsf))
    modifies dec, st
    ensures dec.next == old(dec.next) + |LsfSymbols(p, intf, config, lsf)|
    ensures idx == lsf && st.View() == AfterLsf(p, intf, lsf.stage1)
    ensures st.prevMatch == Matches(p.stage1, intf, lsf.stage1) && st.havePrev
    ensures !st.prevMatch ==> st.prevLag == st.prevFracLag == -1
  {
    hide ResidualSymbols;
    ghost var all := LsfSymbols(p, intf, config, lsf);
    AtSplit(dec.stream, dec.next, all[..2], ResidualSymbols(config, lsf) + [Coded(LsfExtra, lsf.extra)]);
    AtElement(dec.stream, dec.next, all[..2], 0);
    AtElement(dec.stream, dec.next, all[..2], 1);
    AtSplit(dec.stream, dec.next + 2, ResidualSymbols(config, lsf), [Coded(LsfExtra, lsf.extra)]);
    AtElement(dec.stream, dec.next + 2 + COEFFS, [Coded(LsfExtra, lsf.extra)], 0);
    var sel := 0;
    if intf != 0 {
      if st.prevStage1 != 0 {
        sel := 2;
      } else {
        sel := 1;
      }
    }
    var stage1 := dec.DecodeCdf(LsfSel(sel));
    var m := intf != 0 && stage1 == st.prevStage1;
    if !m {
      st.prevGainIdx := -1;
      st.prevFiltIdx := -1;
      st.prevLag := -1;
      st.prevFracLag := -1;
    }
    st.prevStage1 := stage1;
    var gridCdf :=
      if m && stage1 != 0 then LsfGrid(true, true)
      else if m then LsfGrid(true, false)
      else if stage1 != 0 then LsfGrid(false, true)
      else LsfGrid(false, false);
    var grid := dec.DecodeCdf(gridCdf);
    st.prevMatch := m;
    st.havePrev := true;
    var stage2 := DecodeResiduals(dec, config, stage1, grid, lsf);
    var extra := dec.DecodeCdf(LsfExtra);
    idx := LsfParams(stage1, grid, stage2, extra);
  }

  // ----- the gains of an unvoiced frame -----

  function GainQ(rom: Rom, main: int, delta: int, sf: nat): int {
    Wrap32(Wrap32(Wrap32(main * rom.nrgStep) - 0x154000) + Wrap32(rom.gainRecon(sf + 4 * delta) * 16))
  }

  /** The row of the residual table, and where its 92-entry window starts. */
  function OffsetCdf(gainQ: int, cnt: int): Cdf {
    var bucket := if cnt >= 30 then 3 else cnt % 65536 / 10;
    var g := Max(Shr(Wrap32(gainQ + 8192), 16384), -85);
    FcbgOffset(bucket, -Min(g, 0))
  }

  /** The table is chosen by tens of pulses, and the window starts at the gain rounded to a whole step below zero. */
  lemma OffsetMeans(gainQ: int, cnt: int)
    requires cnt > 0 && -TWO31 <= gainQ < TWO31 - 8192
    ensures var FcbgOffset(bucket, from) := OffsetCdf(gainQ, cnt);
            && bucket == (if cnt < 10 then 0 else if cnt < 20 then 1 else if cnt < 30 then 2 else 3)
            && 0 <= from <= 85
            && (from == 0 <==> gainQ >= -8192)
            && (0 < from < 85 ==> -8192 <= gainQ + from * 16384 < 8192)
            && (from == 85 <==> gainQ < -84 * 16384 - 8192)
  {
    if cnt < 30 {
      assert cnt % 65536 == cnt;
    }
  }

  /** One of the four buckets, and a window that ends inside the 177-entry row. */
  lemma OffsetInRow(gainQ: int, cnt: int)
    requires cnt > 0
    ensures 0 <= OffsetCdf(gainQ, cnt).bucket <= 3
    ensures 0 <= OffsetCdf(gainQ, cnt).minOffset && OffsetCdf(gainQ, cnt).minOffset + 92 <= 177
  {
    if cnt < 30 {
      assert cnt % 65536 == cnt;
    }
  }

  function NrgSymbolsUpTo(rom: Rom, counts: seq<int>, g: GainParams, sf: nat): seq<Symbol>
    requires |counts| == |g.nrgRes| == SUBFRAMES && sf <= SUBFRAMES
  {
    if sf == 0 then []
    else
      NrgSymbolsUpTo(rom, counts, g, sf - 1)
      + if counts[sf - 1] <= 0 then []
        else [Coded(OffsetCdf(GainQ(rom, g.main, g.delta, sf - 1), counts[sf - 1]), g.nrgRes[sf - 1])]
  }

  function GainSymbols(rom: Rom, counts: seq<int>, g: GainParams): seq<Symbol>
    requires |counts| == |g.nrgRes| == SUBFRAMES
  {
    [Coded(NrgresGain4, g.main), Coded(NrgresShape4, g.delta)] + NrgSymbolsUpTo(rom, counts, g, SUBFRAMES)
  }

  function GainQs(rom: Rom, main: int, delta: int): (q: seq<int>)
    ensures |q| == SUBFRAMES
  {
    seq(SUBFRAMES, sf requires 0 <= sf < SUBFRAMES => GainQ(rom, main, delta, sf))
  }

  /** The reconstruction loop, which is the same text in encoder and decoder. */
  method ReconstructGains(rom: Rom, main: int, delta: int) returns (gainQ: seq<int>)
    ensures gainQ == GainQs(rom, main, delta)
  {
    var off6 := 4 * delta;
    var base7 := Wrap32(Wrap32(main * rom.nrgStep) - 0x154000);
    gainQ := [];
    for sf := 0 to SUBFRAMES
      invariant gainQ == GainQs(rom, main, delta)[..sf]
    {
      var cbv := rom.gainRecon(sf + off6);
      gainQ := gainQ + [Wrap32(base7 + Wrap32(cbv * 16))];
    }
  }

  method ChooseOffset(gainQ: int, cnt: int) returns (cdf: Cdf)
    requires cnt > 0
    ensures cdf == OffsetCdf(gainQ, cnt)
  {
    var bucket;
    if cnt >= 30 {
      bucket := 3;
    } else {
      bucket := cnt % 65536 / 10;
    }
    var g := Shr(Wrap32(gainQ + 8192), 16384);
    if g < -85 {
      g := -85;
    }
    var negPart := if g < 0 then g else 0;
    cdf := FcbgOffset(bucket, -negPart);
  }

  method EncodeGains(enc: SymbolWriter, rom: Rom, counts: seq<int>, gp: GainParams)
    requires |counts| == |gp.nrgRes| == SUBFRAMES
    modifies enc
    ensures enc.written == old(enc.written) + GainSymbols(rom, counts, gp)
  {
    enc.EncodeCdf(gp.main, NrgresGain4);
    enc.EncodeCdf(gp.delta, NrgresShape4);
    ghost var head := enc.written;
    var gainQ := ReconstructGains(rom, gp.main, gp.delta);
    for sf := 0 to SUBFRAMES
      invariant enc.written == head + NrgSymbolsUpTo(rom, counts, gp, sf)
    {
      var cnt := counts[sf];
      if cnt > 0 {
        var cdf := ChooseOffset(gainQ[sf], cnt);
        enc.EncodeCdf(gp.nrgRes[sf], cdf);
      }
    }
  }

  /** What the decoder reports: the value sent for a subframe with pulses, a default for one without. */
  ghost predicate SentWherePulses(counts: seq<int>, sent: seq<int>, default: int, read: seq<int>)
    requires |counts| == |sent| && |read| <= |sent|
  {
    forall sf :: 0 <= sf < |read| ==> read[sf] == if counts[sf] > 0 then sent[sf] else default
  }

  lemma {:induction false} NrgSymbolAt(stream: seq<Symbol>, i: nat, rom: Rom, counts: seq<int>, g: GainParams, sf: nat,
                                       last: nat)
    requires |counts| == |g.nrgRes| == SUBFRAMES && sf < last <= SUBFRAMES && counts[sf] > 0
    requires At(stream, i, NrgSymbolsUpTo(rom, counts, g, last))
    ensures var at := i + |NrgSymbolsUpTo(rom, counts, g, sf)|;
            at < |stream| && stream[at] == Coded(OffsetCdf(GainQ(rom, g.main, g.delta, sf), counts[sf]), g.nrgRes[sf])
    decreases last
  {
    var before := NrgSymbolsUpTo(rom, counts, g, last - 1);
    var all := NrgSymbolsUpTo(rom, counts, g, last);
    AtSplit(stream, i, before, all[|before|..]);
    if sf < last - 1 {
      NrgSymbolAt(stream, i, rom, counts, g, sf, last - 1);
    } else {
      AtElement(stream, i, all, |before|);
    }
  }

  method DecodeNrgRes(dec: SymbolReader, rom: Rom, counts: seq<int>, gainQ: seq<int>, ghost g: GainParams)
    returns (nrgRes: seq<int>)
    requires |counts| == |g.nrgRes| == SUBFRAMES && gainQ == GainQs(rom, g.main, g.delta)
    requires At(dec.stream, dec.next, NrgSymbolsUpTo(rom, counts, g, SUBFRAMES))
    modifies dec
    ensures dec.next == old(dec.next) + |NrgSymbolsUpTo(rom, counts, g, SUBFRAMES)|
    ensures |nrgRes| == SUBFRAMES && SentWherePulses(counts, g.nrgRes, 0, nrgRes)
  {
    nrgRes := [];
    for sf := 0 to SUBFRAMES
      invariant dec.next == old(dec.next) + |NrgSymbolsUpTo(rom, counts, g, sf)|
      invariant |nrgRes| == sf && SentWherePulses(counts, g.nrgRes, 0, nrgRes)
    {
      var v := DecodeResidual(dec, rom, counts, gainQ[sf], sf, old(dec.next), g);
      nrgRes := nrgRes + [v];
    }
  }

  /** One subframe of the residual loop. */
  method DecodeResidual(dec: SymbolReader, rom: Rom, counts: seq<int>, gainQ: int, sf: nat, ghost start: nat,
                        ghost g: GainParams)
    returns (v: int)
    requires |counts| == |g.nrgRes| == SUBFRAMES && sf < SUBFRAMES && gainQ == GainQ(rom, g.main, g.delta, sf)
    requires At(dec.stream, start, NrgSymbolsUpTo(rom, counts, g, SUBFRAMES))
    requires dec.next == start + |NrgSymbolsUpTo(rom, counts, g, sf)|
    modifies dec
    ensures dec.next == start + |NrgSymbolsUpTo(rom, counts, g, sf + 1)|
    ensures v == if counts[sf] > 0 then g.nrgRes[sf] else 0
  {
    v := 0;
    var cnt := counts[sf];
    if cnt > 0 {
      NrgSymbolAt(dec.stream, start, rom, counts, g, sf, SUBFRAMES);
      var cdf := ChooseOffset(gainQ, cnt);
      v := dec.DecodeCdf(cdf);
    }
  }

  method DecodeGains(dec: SymbolReader, rom: Rom, counts: seq<int>, ghost g: GainParams)
    returns (main: int, delta: int, gainQ: seq<int>, nrgRes: seq<int>)
    requires |counts| == |g.nrgRes| == SUBFRAMES
    requires At(dec.stream, dec.next, GainSymbols(rom, counts, g))
    modifies dec
    ensures dec.next == old(dec.next) + |GainSymbols(rom, counts, g)|
    ensures main == g.main && delta == g.delta && gainQ == GainQs(rom, g.main, g.delta)
    ensures |nrgRes| == SUBFRAMES && SentWherePulses(counts, g.nrgRes, 0, nrgRes)
  {
    ghost var head := [Coded(NrgresGain4, g.main), Coded(NrgresShape4, g.delta)];
    AtSplit(dec.stream, dec.next, head, NrgSymbolsUpTo(rom, counts, g, SUBFRAMES));
    AtElement(dec.stream, dec.next, head, 0);
    AtElement(dec.stream, dec.next, head, 1);
    main := dec.DecodeCdf(NrgresGain4);
    delta := dec.DecodeCdf(NrgresShape4);
    gainQ := ReconstructGains(rom, main, delta);
    nrgRes := DecodeNrgRes(dec, rom, counts, gainQ, g);
  }

  // ----- the long-term predictor of a voiced frame -----

  datatype Loop = Loop(symbols: seq<Symbol>, gainIdx: int, filtIdx: int, accum: int)

  function FiltCdf(prev: int): Cdf {
    if prev == -1 then FcbgainV else FcbgainVDelta(prev)
  }

  /** Symbols, predictors and gain sum after sf subframes. */
  function GainLoop(rom: Rom, config: int, p: Predictor, counts: seq<int>, pp: PitchParams, sf: nat): Loop
    requires |counts| == |pp.gainIdx| == |pp.filtIdx| == SUBFRAMES && sf <= SUBFRAMES
  {
    if sf == 0 then Loop([], p.gainIdx, p.filtIdx, 0)
    else
      var l := GainLoop(rom, config, p, counts, pp, sf - 1);
      var gi, fi := pp.gainIdx[sf - 1], pp.filtIdx[sf - 1];
      var gain := [Coded(AcbgainRow(config != 0, l.gainIdx), gi)];
      var accum := Wrap32(l.accum + rom.gainWeight(config != 0, gi));
      if counts[sf - 1] > 0
      then Loop(l.symbols + gain + [Coded(FiltCdf(l.filtIdx), fi)], gi, fi, accum)
      else Loop(l.symbols + gain, gi, l.filtIdx, accum)
  }

  function Mode(accum: int): int {
    var avgGain := TruncDiv(accum, 4);
    if avgGain < 10007 then 0 else if avgGain < 14085 then 1 else 2
  }

  function PitchSymbols(rom: Rom, config: int, p: Predictor, counts: seq<int>, pp: PitchParams): seq<Symbol>
    requires |counts| == |pp.gainIdx| == |pp.filtIdx| == SUBFRAMES
  {
    var l := GainLoop(rom, config, p, counts, pp, SUBFRAMES);
    l.symbols + [Coded(LagBlock(Mode(l.accum)), pp.lag)]
  }

  function AfterPitch(rom: Rom, config: int, p: Predictor, counts: seq<int>, pp: PitchParams): Predictor
    requires |counts| == |pp.gainIdx| == |pp.filtIdx| == SUBFRAMES
  {
    var l := GainLoop(rom, config, p, counts, pp, SUBFRAMES);
    Predictor(p.stage1, l.gainIdx, l.filtIdx)
  }

  method ChooseMode(gainAccum: int) returns (mode: int)
    ensures mode == Mode(gainAccum)
  {
    var avgGain := TruncDiv(gainAccum, 4);
    mode := 0;
    if avgGain >= 10007 {
      if avgGain < 14085 {
        mode := 1;
      } else {
        mode := 2;
      }
    }
  }

  method EncodePitch(enc: SymbolWriter, st: LsfState, rom: Rom, config: int, counts: seq<int>, pp: PitchParams)
    requires |counts| == |pp.gainIdx| == |pp.filtIdx| == SUBFRAMES
    modifies enc, st
    ensures enc.written == old(enc.written) + PitchSymbols(rom, config, old(st.View()), counts, pp)
    ensures st.View() == AfterPitch(rom, config, old(st.View()), counts, pp)
  {
    hide Mode, TruncDiv, Wrap32;
    ghost var before, p := enc.written, st.View();
    var gainAccum := 0;
    for sf := 0 to SUBFRAMES
      invariant enc.written == before + GainLoop(rom, config, p, counts, pp, sf).symbols
      invariant gainAccum == GainLoop(rom, config, p, counts, pp, sf).accum
      invariant st.prevStage1 == p.stage1
      invariant st.prevGainIdx == GainLoop(rom, config, p, counts, pp, sf).gainIdx
      invariant st.prevFiltIdx == GainLoop(rom, config, p, counts, pp, sf).filtIdx
    {
      var gi := pp.gainIdx[sf];
      enc.EncodeCdf(gi, AcbgainRow(config != 0, st.prevGainIdx));
      st.prevGainIdx := gi;
      gainAccum := Wrap32(gainAccum + rom.gainWeight(config != 0, gi));
      if counts[sf] > 0 {
        var fi := pp.filtIdx[sf];
        if st.prevFiltIdx == -1 {
          enc.EncodeCdf(fi, FcbgainV);
        } else {
          enc.EncodeCdf(fi, FcbgainVDelta(st.prevFiltIdx));
        }
        st.prevFiltIdx := fi;
      }
    }
    var mode := ChooseMode(gainAccum);
    enc.EncodeCdf(pp.lag, LagBlock(mode));
  }

  lemma {:induction false} LoopSymbolsAt(stream: seq<Symbol>, i: nat, rom: Rom, config: int, p: Predictor,
                                         counts: seq<int>, pp: PitchParams, sf: nat, last: nat)
    requires |counts| == |pp.gainIdx| == |pp.filtIdx| == SUBFRAMES && sf < last <= SUBFRAMES
    requires At(stream, i, GainLoop(rom, config, p, counts, pp, last).symbols)
    ensures var l := GainLoop(rom, config, p, counts, pp, sf);
            var at := i + |l.symbols|;
            && At(stream, at, [Coded(AcbgainRow(config != 0, l.gainIdx), pp.gainIdx[sf])])
            && (counts[sf] > 0 ==> At(stream, at + 1, [Coded(FiltCdf(l.filtIdx), pp.filtIdx[sf])]))
    decreases last
  {
    var before := GainLoop(rom, config, p, counts, pp, last - 1).symbols;
    var all := GainLoop(rom, config, p, counts, pp, last).symbols;
    assert all == before + all[|before|..];
    AtSplit(stream, i, before, all[|before|..]);
    if sf < last - 1 {
      LoopSymbolsAt(stream, i, rom, config, p, counts, pp, sf, last - 1);
    } else {
      AtElement(stream, i, all, |before|);
      if counts[sf] > 0 {
        AtElement(stream, i, all, |before| + 1);
      }
    }
  }

  /** One subframe of the gain loop: the tables follow from the decoder's own predictors. */
  method DecodeLtp(dec: SymbolReader, st: LsfState, config: int, cnt: int, ghost l: Loop, ghost gain: int,
                   ghost filt: int)
    returns (gi: int, fi: int)
    requires st.prevGainIdx == l.gainIdx && st.prevFiltIdx == l.filtIdx
    requires At(dec.stream, dec.next, [Coded(AcbgainRow(config != 0, l.gainIdx), gain)])
    requires cnt > 0 ==> At(dec.stream, dec.next + 1, [Coded(FiltCdf(l.filtIdx), filt)])
    modifies dec, st
    ensures gi == gain && fi == (if cnt > 0 then filt else -1)
    ensures dec.next == old(dec.next) + if cnt > 0 then 2 else 1
    ensures st.View() == Predictor(old(st.prevStage1), gain, if cnt > 0 then filt else l.filtIdx)
  {
    AtElement(dec.stream, dec.next, [Coded(AcbgainRow(config != 0, l.gainIdx), gain)], 0);
    if cnt > 0 {
      AtElement(dec.stream, dec.next + 1, [Coded(FiltCdf(l.filtIdx), filt)], 0);
    }
    gi := dec.DecodeCdf(AcbgainRow(config != 0, st.prevGainIdx));
    st.prevGainIdx := gi;
    fi := -1;
    if cnt > 0 {
      if st.prevFiltIdx == -1 {
        fi := dec.DecodeCdf(FcbgainV);
      } else {
        fi := dec.DecodeCdf(FcbgainVDelta(st.prevFiltIdx));
      }
      st.prevFiltIdx := fi;
    }
  }

  lemma LoopStart(rom: Rom, config: int, p: Predictor, counts: seq<int>, pp: PitchParams)
    requires |counts| == |pp.gainIdx| == |pp.filtIdx| == SUBFRAMES
    ensures GainLoop(rom, config, p, counts, pp, 0) == Loop([], p.gainIdx, p.filtIdx, 0)
  {
  }

  lemma LoopStep(rom: Rom, config: int, p: Predictor, counts: seq<int>, pp: PitchParams, sf: nat)
    requires |counts| == |pp.gainIdx| == |pp.filtIdx| == SUBFRAMES && sf < SUBFRAMES
    ensures var l, m := GainLoop(rom, config, p, counts, pp, sf), GainLoop(rom, config, p, counts, pp, sf + 1);
            && m.gainIdx == pp.gainIdx[sf] && m.filtIdx == (if counts[sf] > 0 then pp.filtIdx[sf] else l.filtIdx)
            && m.accum == Wrap32(l.accum + rom.gainWeight(config != 0, pp.gainIdx[sf]))
            && |m.symbols| == |l.symbols| + (if counts[sf] > 0 then 2 else 1)
  {
  }

  method DecodeLtpGains(dec: SymbolReader, st: LsfState, rom: Rom, config: int, counts: seq<int>, ghost pp: PitchParams)
    returns (gainIdx: seq<int>, filtIdx: seq<int>, gainAccum: int)
    requires |counts| == |pp.gainIdx| == |pp.filtIdx| == SUBFRAMES
    requires At(dec.stream, dec.next, GainLoop(rom, config, st.View(), counts, pp, SUBFRAMES).symbols)
    modifies dec, st
    ensures var l := GainLoop(rom, config, old(st.View()), counts, pp, SUBFRAMES);
            && dec.next == old(dec.next) + |l.symbols| && gainAccum == l.accum
            && st.View() == Predictor(old(st.prevStage1), l.gainIdx, l.filtIdx)
    ensures gainIdx == pp.gainIdx && |filtIdx| == SUBFRAMES && SentWherePulses(counts, pp.filtIdx, -1, filtIdx)
  {
    hide GainLoop;
    ghost var start, p := dec.next, st.View();
    LoopStart(rom, config, p, counts, pp);
    gainIdx, filtIdx := [], [];
    gainAccum := 0;
    for sf := 0 to SUBFRAMES
      invariant dec.next == start + |GainLoop(rom, config, p, counts, pp, sf).symbols|
      invariant gainAccum == GainLoop(rom, config, p, counts, pp, sf).accum
      invariant st.prevStage1 == p.stage1
      invariant st.prevGainIdx == GainLoop(rom, config, p, counts, pp, sf).gainIdx
      invariant st.prevFiltIdx == GainLoop(rom, config, p, counts, pp, sf).filtIdx
      invariant gainIdx == pp.gainIdx[..sf]
      invariant |filtIdx| == sf && SentWherePulses(counts, pp.filtIdx, -1, filtIdx)
    {
      ghost var l := GainLoop(rom, config, p, counts, pp, sf);
      LoopStep(rom, config, p, counts, pp, sf);
      LoopSymbolsAt(dec.stream, start, rom, config, p, counts, pp, sf, SUBFRAMES);
      var gi, fi := DecodeLtp(dec, st, config, counts[sf], l, pp.gainIdx[sf], pp.filtIdx[sf]);
      gainIdx := gainIdx + [gi];
      filtIdx := filtIdx + [fi];
      gainAccum := Wrap32(gainAccum + rom.gainWeight(config != 0, gi));
    }
  }

  method DecodePitch(dec: SymbolReader, st: LsfState, rom: Rom, config: int, counts: seq<int>, ghost pp: PitchParams)
    returns (gainIdx: seq<int>, filtIdx: seq<int>, lag: int)
    requires |counts| == |pp.gainIdx| == |pp.filtIdx| == SUBFRAMES
    requires At(dec.stream, dec.next, PitchSymbols(rom, config, st.View(), counts, pp))
    modifies dec, st
    ensures dec.next == old(dec.next) + |PitchSymbols(rom, config, old(st.View()), counts, pp)|
    ensures st.View() == AfterPitch(rom, config, old(st.View()), counts, pp)
    ensures gainIdx == pp.gainIdx && lag == pp.lag
    ensures |filtIdx| == SUBFRAMES && SentWherePulses(counts, pp.filtIdx, -1, filtIdx)
  {
    ghost var l := GainLoop(rom, config, st.View(), counts, pp, SUBFRAMES);
    AtSplit(dec.stream, dec.next, l.symbols, [Coded(LagBlock(Mode(l.accum)), pp.lag)]);
    AtElement(dec.stream, dec.next + |l.symbols|, [Coded(LagBlock(Mode(l.accum)), pp.lag)], 0);
    var gainAccum;
    gainIdx, filtIdx, gainAccum := DecodeLtpGains(dec, st, rom, config, counts, pp);
    var segSel := ChooseMode(gainAccum);
    lag := dec.DecodeCdf(LagBlock(segSel));
  }
}
