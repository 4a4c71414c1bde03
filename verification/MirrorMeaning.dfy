/** Which tables the symbols of a packet are written under, said in the parameters of its frames. */
module MirrorMeaning {
  import opened Arith
  import opened Fixed
  import opened Symbols
  import opened Pulses
  import opened Mirror
  import opened PulseFrame
  import opened MirrorPacket

  /** The lag mode by the gains of the four subframes: thresholds on their sum. */
  lemma ModeMeans(accum: int)
    ensures 0 <= Mode(accum) <= 2
    ensures Mode(accum) == 0 <==> accum < 4 * 10007
    ensures Mode(accum) == 2 <==> accum >= 4 * 14085
  {
  }

  // ----- one pitch block -----

  /** The filter index of the last of the first n subframes that has pulses, or the one before the frame. */
  function LastFilter(counts: seq<int>, filtIdx: seq<int>, n: nat, before: int): int
    requires n <= |counts| == |filtIdx|
  {
    if n == 0 then before
    else if counts[n - 1] > 0 then filtIdx[n - 1]
    else LastFilter(counts, filtIdx, n - 1, before)
  }

  lemma {:induction false} LastFilterIs(counts: seq<int>, filtIdx: seq<int>, n: nat, before: int, i: nat)
    requires i < n <= |counts| == |filtIdx| && counts[i] > 0 && forall j :: i < j < n ==> counts[j] <= 0
    ensures LastFilter(counts, filtIdx, n, before) == filtIdx[i]
  {
    if i < n - 1 {
      LastFilterIs(counts, filtIdx, n - 1, before, i);
    }
  }

  function WeightSum(rom: Rom, lowRate: bool, gainIdx: seq<int>): int {
    if gainIdx == [] then 0
    else WeightSum(rom, lowRate, gainIdx[..|gainIdx| - 1]) + rom.gainWeight(lowRate, gainIdx[|gainIdx| - 1])
  }

  lemma WrapSum(a: int, b: int)
    ensures Wrap32(Wrap32(a) + b) == Wrap32(a + b)
  {
    var q, r := (a + TWO31) / TWO32, (a + TWO31) % TWO32;
    var x := r + b;
    DivModUnique(a + b + TWO31, TWO32, q + x / TWO32, x % TWO32);
  }

  /** The predictors before subframe sf, and the sum of the weights of the gains so far. */
  lemma {:induction false} LoopMeans(rom: Rom, config: int, p: Predictor, counts: seq<int>, pp: PitchParams, sf: nat)
    requires |counts| == |pp.gainIdx| == |pp.filtIdx| == SUBFRAMES && sf <= SUBFRAMES
    ensures var l := GainLoop(rom, config, p, counts, pp, sf);
            && l.gainIdx == (if sf == 0 then p.gainIdx else pp.gainIdx[sf - 1])
            && l.filtIdx == LastFilter(counts, pp.filtIdx, sf, p.filtIdx)
            && l.accum == Wrap32(WeightSum(rom, config != 0, pp.gainIdx[..sf]))
  {
    hide Wrap32, GainLoop;
    if sf == 0 {
      LoopStart(rom, config, p, counts, pp);
      NoWeight();
    } else {
      LoopMeans(rom, config, p, counts, pp, sf - 1);
      LoopStep(rom, config, p, counts, pp, sf - 1);
      assert pp.gainIdx[..sf][..sf - 1] == pp.gainIdx[..sf - 1];
      WrapSum(WeightSum(rom, config != 0, pp.gainIdx[..sf - 1]), rom.gainWeight(config != 0, pp.gainIdx[sf - 1]));
    }
  }

  lemma NoWeight()
    ensures Wrap32(0) == 0
  {
  }

  /** The gain of a subframe: steps up from 85 below, and the shape's entry for it, in one wrap-around. */
  lemma GainQMeans(rom: Rom, main: int, delta: int, sf: nat)
    ensures GainQ(rom, main, delta, sf) ==
            Wrap32(main * rom.nrgStep - 85 * 16384 + 16 * rom.gainRecon(4 * delta + sf))
  {
    var a, b := main * rom.nrgStep, rom.gainRecon(sf + 4 * delta) * 16;
    WrapSum(a, -0x154000);
    hide Wrap32;
    assert Wrap32(Wrap32(a) - 0x154000) == Wrap32(a - 0x154000);
    WrapSum(b, Wrap32(a - 0x154000));
    WrapSum(a - 0x154000, b);
  }

  // ----- a packet -----

  predicate Voiced(ip: FrameParams) {
    ip.lsf.stage1 == 1
  }

  /** The filter index a voiced frame starts from: the last one sent in the voiced frames right before it. */
  ghost function FilterBefore(config: int, ips: seq<FrameParams>, frames: seq<seq<int>>, f: nat): int
    requires PacketOk(config, ips, frames) && f <= FRAMES
  {
    if f == 0 then -1
    else
      assert FrameOk(config, ips[f - 1], frames[f - 1]);
      if !Voiced(ips[f - 1]) then -1
      else
        LastFilter(Counts(frames[f - 1]), ips[f - 1].pitch.filtIdx, SUBFRAMES, FilterBefore(config, ips, frames, f - 1))
  }

  /** The predictor fields that the symbols of frame f after its LSF block are written under. */
  ghost function InFrame(rom: Rom, config: int, p: Predictor, ips: seq<FrameParams>, frames: seq<seq<int>>, f: nat)
    : Predictor
    requires PacketOk(config, ips, frames) && f < FRAMES
  {
    AfterLsf(StateAt(rom, config, p, ips, frames, f), f, ips[f].lsf.stage1)
  }

  lemma StateStep(rom: Rom, config: int, p: Predictor, ips: seq<FrameParams>, frames: seq<seq<int>>, f: nat)
    requires PacketOk(config, ips, frames) && f < FRAMES
    ensures FrameOk(config, ips[f], frames[f])
    ensures var q, next := InFrame(rom, config, p, ips, frames, f), StateAt(rom, config, p, ips, frames, f + 1);
            && next.stage1 == ips[f].lsf.stage1
            && (Voiced(ips[f]) ==>
                  && next.gainIdx == ips[f].pitch.gainIdx[SUBFRAMES - 1]
                  && next.filtIdx == LastFilter(Counts(frames[f]), ips[f].pitch.filtIdx, SUBFRAMES, q.filtIdx))
  {
    assert FrameOk(config, ips[f], frames[f]);
    var q := InFrame(rom, config, p, ips, frames, f);
    LoopMeans(rom, config, q, Counts(frames[f]), ips[f].pitch, SUBFRAMES);
    hide Encodable, Describes, GainLoop, LastFilter, Counts;
  }

  /**
    From whatever state a packet starts: the selector row is 0 in the first frame and tells later ones whether the
    frame before was voiced; the grid table tells whether the two agree. A voiced frame predicts its first gain
    from the last gain of a voiced frame right before it, and its filter from the last one sent since the last
    unvoiced frame; where there is none, from nothing.
   */
  lemma {:induction false} TablesFromFrames(rom: Rom, config: int, p: Predictor, ips: seq<FrameParams>,
                                            frames: seq<seq<int>>, f: nat)
    requires PacketOk(config, ips, frames) && f < FRAMES
    ensures var s := StateAt(rom, config, p, ips, frames, f);
            && SelRow(s.stage1, f) == (if f == 0 then 0 else if Voiced(ips[f - 1]) then 2 else 1)
            && (Matches(s.stage1, f, ips[f].lsf.stage1) <==>
                  f > 0 && ips[f].lsf.stage1 == ips[f - 1].lsf.stage1)
    ensures var q := InFrame(rom, config, p, ips, frames, f);
            Voiced(ips[f]) ==>
              && FrameOk(config, ips[f], frames[f])
              && (f > 0 && Voiced(ips[f - 1]) ==> FrameOk(config, ips[f - 1], frames[f - 1]))
              && q.gainIdx == (if f > 0 && Voiced(ips[f - 1]) then ips[f - 1].pitch.gainIdx[SUBFRAMES - 1] else -1)
              && q.filtIdx == FilterBefore(config, ips, frames, f)
  {
    assert FrameOk(config, ips[f], frames[f]);
    if f > 0 {
      TablesFromFrames(rom, config, p, ips, frames, f - 1);
      StateStep(rom, config, p, ips, frames, f - 1);
      hide StateAt, Encodable, Describes, LastFilter, Counts;
    }
  }
}
