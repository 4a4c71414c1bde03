/** A packet of three 20 ms frames through the encoder and the decoder. */
module MirrorPacket {
  import opened Symbols
  import opened Pulses
  import opened PulseFrame
  import opened Mirror

  /** Every frame's parameters are complete, and its pulse parameters describe an encodable pulse vector. */
  ghost predicate PacketOk(config: int, ips: seq<FrameParams>, frames: seq<seq<int>>) {
    && 0 <= config <= 1 && |ips| == |frames| == FRAMES
    && forall f :: 0 <= f < FRAMES ==> FrameOk(config, ips[f], frames[f])
  }

  ghost predicate FrameOk(config: int, ip: FrameParams, frame: seq<int>)
    requires 0 <= config <= 1
  {
    && WellFormed(ip) && |frame| == FRAME_LEN
    && Encodable(frame, config, ip.lsf.stage1) && Describes(ip.pulses, frame)
  }

  /** Voiced frames carry a pitch block, unvoiced ones gains. */
  function TailSymbols(rom: Rom, config: int, p: Predictor, ip: FrameParams, counts: seq<int>): seq<Symbol>
    requires |counts| == |ip.pitch.gainIdx| == |ip.pitch.filtIdx| == |ip.gains.nrgRes| == SUBFRAMES
  {
    if ip.lsf.stage1 == 1 then PitchSymbols(rom, config, p, counts, ip.pitch) else GainSymbols(rom, counts, ip.gains)
  }

  ghost function FrameSymbols(rom: Rom, config: int, p: Predictor, f: nat, ip: FrameParams, frame: seq<int>)
    : seq<Symbol>
    requires 0 <= config <= 1 && FrameOk(config, ip, frame)
  {
    LsfSymbols(p, f, config, ip.lsf)
    + (PulseSymbols(frame, config, ip.lsf.stage1)
       + TailSymbols(rom, config, AfterLsf(p, f, ip.lsf.stage1), ip, Counts(frame)))
  }

  ghost function AfterFrame(rom: Rom, config: int, p: Predictor, f: nat, ip: FrameParams, frame: seq<int>): Predictor
    requires 0 <= config <= 1 && FrameOk(config, ip, frame)
  {
    var q := AfterLsf(p, f, ip.lsf.stage1);
    if ip.lsf.stage1 == 1 then AfterPitch(rom, config, q, Counts(frame), ip.pitch) else q
  }

  ghost function StateAt(rom: Rom, config: int, p: Predictor, ips: seq<FrameParams>, frames: seq<seq<int>>, n: nat)
    : Predictor
    requires PacketOk(config, ips, frames) && n <= FRAMES
  {
    if n == 0 then p
    else AfterFrame(rom, config, StateAt(rom, config, p, ips, frames, n - 1), n - 1, ips[n - 1], frames[n - 1])
  }

  ghost function SymbolsUpTo(rom: Rom, config: int, p: Predictor, ips: seq<FrameParams>, frames: seq<seq<int>>, n: nat)
    : seq<Symbol>
    requires PacketOk(config, ips, frames) && n <= FRAMES
  {
    if n == 0 then []
    else
      SymbolsUpTo(rom, config, p, ips, frames, n - 1)
      + FrameSymbols(rom, config, StateAt(rom, config, p, ips, frames, n - 1), n - 1, ips[n - 1], frames[n - 1])
  }

  /** Self-synchronisation: the first frame of a packet forgets whatever state came before it. */
  lemma {:induction false} StateIsForgotten(rom: Rom, config: int, p: Predictor, q: Predictor,
                                            ips: seq<FrameParams>, frames: seq<seq<int>>, n: nat)
    requires PacketOk(config, ips, frames) && n <= FRAMES
    ensures SymbolsUpTo(rom, config, p, ips, frames, n) == SymbolsUpTo(rom, config, q, ips, frames, n)
    ensures n > 0 ==> StateAt(rom, config, p, ips, frames, n) == StateAt(rom, config, q, ips, frames, n)
  {
    if n > 0 {
      StateIsForgotten(rom, config, p, q, ips, frames, n - 1);
      if n == 1 {
        assert FrameOk(config, ips[0], frames[0]);
        FirstFrameForgets(rom, config, p, q, ips[0], frames[0]);
      }
    }
  }

  lemma FirstFrameForgets(rom: Rom, config: int, p: Predictor, q: Predictor, ip: FrameParams, frame: seq<int>)
    requires 0 <= config <= 1 && FrameOk(config, ip, frame)
    ensures FrameSymbols(rom, config, p, 0, ip, frame) == FrameSymbols(rom, config, q, 0, ip, frame)
    ensures AfterFrame(rom, config, p, 0, ip, frame) == AfterFrame(rom, config, q, 0, ip, frame)
  {
    assert AfterLsf(p, 0, ip.lsf.stage1) == AfterLsf(q, 0, ip.lsf.stage1);
  }

  // ----- the encoder -----

  method EncodeFrame(enc: SymbolWriter, st: LsfState, rom: Rom, config: int, f: nat, ip: FrameParams,
                     ghost frame: seq<int>)
    requires 0 <= config <= 1 && FrameOk(config, ip, frame)
    modifies enc, st
    ensures enc.written == old(enc.written) + FrameSymbols(rom, config, old(st.View()), f, ip, frame)
    ensures st.View() == AfterFrame(rom, config, old(st.View()), f, ip, frame)
  {
    ghost var before, p := enc.written, st.View();
    ghost var q := AfterLsf(p, f, ip.lsf.stage1);
    EncodeLsf(enc, st, config, f, ip.lsf);
    EncodePulses(enc, config, ip.lsf.stage1, ip.pulses, frame);
    if ip.lsf.stage1 == 1 {
      EncodePitch(enc, st, rom, config, ip.pulses.subfr, ip.pitch);
    } else {
      EncodeGains(enc, rom, ip.pulses.subfr, ip.gains);
    }
    Associates(before, LsfSymbols(p, f, config, ip.lsf), PulseSymbols(frame, config, ip.lsf.stage1),
               TailSymbols(rom, config, q, ip, Counts(frame)));
  }

  lemma Associates(a: seq<Symbol>, b: seq<Symbol>, c: seq<Symbol>, d: seq<Symbol>)
    ensures a + b + c + d == a + (b + (c + d))
  {
  }

  /** The first n frames: symbols and predictors are those of the specification. */
  method EncodePrefix(enc: SymbolWriter, st: LsfState, rom: Rom, config: int, ips: seq<FrameParams>, n: nat,
                      ghost frames: seq<seq<int>>)
    requires PacketOk(config, ips, frames) && n <= FRAMES
    modifies enc, st
    ensures enc.written == old(enc.written) + SymbolsUpTo(rom, config, old(st.View()), ips, frames, n)
    ensures st.View() == StateAt(rom, config, old(st.View()), ips, frames, n)
  {
    hide FrameSymbols, AfterFrame, FrameOk;
    ghost var before, p := enc.written, st.View();
    for f := 0 to n
      invariant enc.written == before + SymbolsUpTo(rom, config, p, ips, frames, f)
      invariant st.View() == StateAt(rom, config, p, ips, frames, f)
    {
      ghost var done := SymbolsUpTo(rom, config, p, ips, frames, f);
      ghost var more := FrameSymbols(rom, config, StateAt(rom, config, p, ips, frames, f), f, ips[f], frames[f]);
      EncodeFrame(enc, st, rom, config, f, ips[f], frames[f]);
      Associates(before, done, more, []);
      assert more + [] == more;
    }
  }

  /** A packet starts from a fresh state. */
  method EncodePacket(enc: SymbolWriter, rom: Rom, config: int, ips: seq<FrameParams>, ghost frames: seq<seq<int>>)
    returns (st: LsfState)
    requires PacketOk(config, ips, frames)
    modifies enc
    ensures fresh(st)
    ensures enc.written == old(enc.written) + SymbolsUpTo(rom, config, Predictor(0, 0, 0), ips, frames, FRAMES)
    ensures st.View() == StateAt(rom, config, Predictor(0, 0, 0), ips, frames, FRAMES)
  {
    hide FrameSymbols, AfterFrame, FrameOk, SymbolsUpTo, StateAt;
    st := new LsfState();
    EncodePrefix(enc, st, rom, config, ips, FRAMES, frames);
  }

  // ----- the decoder -----

  datatype Decoded =
    | Voiced(lsf: LsfParams, pulses: seq<int>, gainIdx: seq<int>, filtIdx: seq<int>, lag: int)
    | Unvoiced(lsf: LsfParams, pulses: seq<int>, main: int, delta: int, gainQ: seq<int>, nrgRes: seq<int>)

  /** Everything that was sent came back; where a subframe has no pulses nothing was sent. */
  ghost predicate Recovers(rom: Rom, d: Decoded, ip: FrameParams, frame: seq<int>)
    requires FrameOk(0, ip, frame)
  {
    && d.lsf == ip.lsf && d.pulses == frame && d.Voiced? == (ip.lsf.stage1 == 1)
    && match d {
         case Voiced(_, _, gainIdx, filtIdx, lag) =>
           && gainIdx == ip.pitch.gainIdx && lag == ip.pitch.lag
           && |filtIdx| == SUBFRAMES && SentWherePulses(Counts(frame), ip.pitch.filtIdx, -1, filtIdx)
         case Unvoiced(_, _, main, delta, gainQ, nrgRes) =>
           && main == ip.gains.main && delta == ip.gains.delta && gainQ == GainQs(rom, main, delta)
           && |nrgRes| == SUBFRAMES && SentWherePulses(Counts(frame), ip.gains.nrgRes, 0, nrgRes)
       }
  }

  method DecodeTail(dec: SymbolReader, st: LsfState, rom: Rom, config: int, lsf: LsfParams, pulses: seq<int>,
                    counts: seq<int>, ghost ip: FrameParams)
    returns (d: Decoded)
    requires FrameOk(0, ip, pulses) && lsf == ip.lsf && counts == Counts(pulses)
    requires At(dec.stream, dec.next, TailSymbols(rom, config, st.View(), ip, counts))
    modifies dec, st
    ensures dec.next == old(dec.next) + |TailSymbols(rom, config, old(st.View()), ip, counts)|
    ensures lsf.stage1 == 1 ==> st.View() == AfterPitch(rom, config, old(st.View()), counts, ip.pitch)
    ensures lsf.stage1 != 1 ==> st.View() == old(st.View())
    ensures Recovers(rom, d, ip, pulses)
  {
    var voiced := lsf.stage1 == 1;
    if voiced {
      var gainIdx, filtIdx, lag := DecodePitch(dec, st, rom, config, counts, ip.pitch);
      d := Voiced(lsf, pulses, gainIdx, filtIdx, lag);
    } else {
      var main, delta, gainQ, nrgRes := DecodeGains(dec, rom, counts, ip.gains);
      d := Unvoiced(lsf, pulses, main, delta, gainQ, nrgRes);
    }
  }

  method DecodeFrame(dec: SymbolReader, st: LsfState, rom: Rom, f: nat, ghost p: Predictor, ghost ip: FrameParams,
                     ghost frame: seq<int>)
    returns (d: Decoded)
    requires FrameOk(0, ip, frame) && (f != 0 ==> st.View() == p)
    requires At(dec.stream, dec.next, FrameSymbols(rom, 0, p, f, ip, frame))
    modifies dec, st
    ensures dec.next == old(dec.next) + |FrameSymbols(rom, 0, p, f, ip, frame)|
    ensures st.View() == AfterFrame(rom, 0, p, f, ip, frame)
    ensures Recovers(rom, d, ip, frame)
  {
    hide PulseSymbols, LsfSymbols, Encodable, Describes;
    ghost var q := AfterLsf(p, f, ip.lsf.stage1);
    ghost var pulseSyms, tail := PulseSymbols(frame, 0, ip.lsf.stage1), TailSymbols(rom, 0, q, ip, Counts(frame));
    AtSplit(dec.stream, dec.next, LsfSymbols(p, f, 0, ip.lsf), pulseSyms + tail);
    var lsf := DecodeLsf(dec, st, 0, f, p, ip.lsf);
    AtSplit(dec.stream, dec.next, pulseSyms, tail);
    var pulses, subfr := DecodePulses(dec, lsf.stage1, frame);
    d := DecodeTail(dec, st, rom, 0, lsf, pulses[..], subfr, ip);
  }

  lemma {:induction false} FrameAt(stream: seq<Symbol>, i: nat, rom: Rom, config: int, p: Predictor,
                                   ips: seq<FrameParams>, frames: seq<seq<int>>, f: nat, n: nat)
    requires PacketOk(config, ips, frames) && f < n <= FRAMES
    requires At(stream, i, SymbolsUpTo(rom, config, p, ips, frames, n))
    ensures FrameOk(config, ips[f], frames[f])
    ensures At(stream, i + |SymbolsUpTo(rom, config, p, ips, frames, f)|,
               FrameSymbols(rom, config, StateAt(rom, config, p, ips, frames, f), f, ips[f], frames[f]))
    decreases n
  {
    hide FrameSymbols, AfterFrame, FrameOk;
    AtSplit(stream, i, SymbolsUpTo(rom, config, p, ips, frames, n - 1),
            FrameSymbols(rom, config, StateAt(rom, config, p, ips, frames, n - 1), n - 1, ips[n - 1], frames[n - 1]));
    if f < n - 1 {
      FrameAt(stream, i, rom, config, p, ips, frames, f, n - 1);
    }
  }

  /**
    From any predictor state, the decoder reads the symbols of the first n frames under the tables they
    were written with, recovers the frames, and then has the encoder's predictors.
   */
  method DecodePrefix(dec: SymbolReader, st: LsfState, rom: Rom, n: nat, ghost p: Predictor,
                      ghost ips: seq<FrameParams>, ghost frames: seq<seq<int>>)
    returns (out: seq<Decoded>)
    requires PacketOk(0, ips, frames) && n <= FRAMES
    requires At(dec.stream, dec.next, SymbolsUpTo(rom, 0, p, ips, frames, n))
    modifies dec, st
    ensures dec.next == old(dec.next) + |SymbolsUpTo(rom, 0, p, ips, frames, n)|
    ensures |out| == n && forall f :: 0 <= f < n ==> Recovers(rom, out[f], ips[f], frames[f])
    ensures n > 0 ==> st.View() == StateAt(rom, 0, p, ips, frames, n)
  {
    hide FrameSymbols, AfterFrame, FrameOk;
    ghost var start := dec.next;
    out := [];
    for f := 0 to n
      invariant dec.next == start + |SymbolsUpTo(rom, 0, p, ips, frames, f)|
      invariant f > 0 ==> st.View() == StateAt(rom, 0, p, ips, frames, f)
      invariant |out| == f && forall i :: 0 <= i < f ==> Recovers(rom, out[i], ips[i], frames[i])
    {
      FrameAt(dec.stream, start, rom, 0, p, ips, frames, f, n);
      var d := DecodeFrame(dec, st, rom, f, StateAt(rom, 0, p, ips, frames, f), ips[f], frames[f]);
      out := out + [d];
    }
  }

  method DecodePacket(dec: SymbolReader, st: LsfState, rom: Rom, ghost ips: seq<FrameParams>,
                      ghost frames: seq<seq<int>>)
    returns (out: seq<Decoded>)
    requires PacketOk(0, ips, frames)
    requires At(dec.stream, dec.next, SymbolsUpTo(rom, 0, Predictor(0, 0, 0), ips, frames, FRAMES))
    modifies dec, st
    ensures dec.next == old(dec.next) + |SymbolsUpTo(rom, 0, Predictor(0, 0, 0), ips, frames, FRAMES)|
    ensures |out| == FRAMES && forall f :: 0 <= f < FRAMES ==> Recovers(rom, out[f], ips[f], frames[f])
    ensures st.View() == StateAt(rom, 0, Predictor(0, 0, 0), ips, frames, FRAMES)
  {
    hide FrameSymbols, AfterFrame, FrameOk, SymbolsUpTo, StateAt, Recovers;
    out := DecodePrefix(dec, st, rom, FRAMES, Predictor(0, 0, 0), ips, frames);
  }

  /**
    Encoder and decoder side by side after any number of frames, from unrelated states: the frames are
    recovered, nothing is left to read, and both have the same predictors.
   */
  method RoundTrip(encoderState: LsfState, decoderState: LsfState, rom: Rom, ips: seq<FrameParams>, n: nat,
                   ghost frames: seq<seq<int>>)
    returns (out: seq<Decoded>, unread: int)
    requires PacketOk(0, ips, frames) && 0 < n <= FRAMES && encoderState != decoderState
    modifies encoderState, decoderState
    ensures unread == 0
    ensures |out| == n && forall f :: 0 <= f < n ==> Recovers(rom, out[f], ips[f], frames[f])
    ensures decoderState.View() == encoderState.View()
  {
    hide FrameSymbols, AfterFrame, FrameOk, SymbolsUpTo, StateAt, Recovers;
    ghost var p := encoderState.View();
    var enc := new SymbolWriter();
    EncodePrefix(enc, encoderState, rom, 0, ips, n, frames);
    var dec := new SymbolReader(enc.written);
    assert enc.written == SymbolsUpTo(rom, 0, p, ips, frames, n);
    assert enc.written[0..0 + |enc.written|] == enc.written;
    out := DecodePrefix(dec, decoderState, rom, n, p, ips, frames);
    unread := |dec.stream| - dec.next;
  }
}
