/** The jitter pacer: audio samples come in bursts and leave in frames of a fixed size. */
module Pacer {
  import opened Arith

  const COMPACT_AT := 8192

  /** The pacer as a bounded queue that remembers, since the last Clear, what it took in and gave out. */
  datatype Fifo = Fifo(live: seq<real>, playing: bool, accepted: seq<real>, emitted: seq<real>)

  datatype Settings = Settings(frameSamples: nat, prebufferSamples: nat, maxSamples: nat)

  function Fresh(): Fifo {
    Fifo([], false, [], [])
  }

  /** The prefix that fits; the rest of the burst is dropped. */
  function Fitting(cfg: Settings, q: Fifo, samples: seq<real>): seq<real> {
    var available := cfg.maxSamples - |q.live|;
    if available <= 0 then [] else if |samples| > available then samples[..available] else samples
  }

  function Enqueued(cfg: Settings, q: Fifo, samples: seq<real>): Fifo {
    var fitting := Fitting(cfg, q, samples);
    q.(live := q.live + fitting, accepted := q.accepted + fitting)
  }

  /** A frame leaves unless the queue is still filling up or has run dry. */
  predicate FrameReady(cfg: Settings, q: Fifo) {
    (q.playing || |q.live| >= cfg.prebufferSamples) && |q.live| >= cfg.frameSamples
  }

  function AfterFrame(cfg: Settings, q: Fifo): Fifo {
    if FrameReady(cfg, q)
    then Fifo(q.live[cfg.frameSamples..], true, q.accepted, q.emitted + q.live[..cfg.frameSamples])
    else q.(playing := false)
  }

  lemma Cut(queue: seq<real>, head: nat, n: nat, emitted: seq<real>)
    requires head + n <= |queue|
    ensures queue[head..][..n] == queue[head..head + n] && queue[head..][n..] == queue[head + n..]
    ensures emitted + queue[head..] == emitted + queue[head..head + n] + queue[head + n..]
  {
    assert queue[head..] == queue[head..head + n] + queue[head + n..];
  }

  class PcmPacer {
    const cfg: Settings
    var queue: seq<real>
    var head: nat
    var playing: bool
    ghost var accepted: seq<real>
    ghost var emitted: seq<real>

    ghost predicate Sound()
      reads this
    {
      && head <= |queue|
      && accepted == emitted + queue[head..]
      && |queue| - head <= cfg.maxSamples
    }

    ghost predicate Valid()
      reads this
    {
      Sound() && (head < COMPACT_AT || 2 * head < |queue|)
    }

    ghost function View(): Fifo
      requires Sound()
      reads this
    {
      Fifo(queue[head..], playing, accepted, emitted)
    }

    constructor (cfg: Settings)
      ensures this.cfg == cfg && Valid() && View() == Fresh()
    {
      this.cfg := cfg;
      queue, head, playing := [], 0, false;
      accepted, emitted := [], [];
    }

    method Enqueue(samples0: seq<real>)
      requires Valid()
      modifies this
      ensures Valid() && View() == Enqueued(cfg, old(View()), samples0)
    {
      var samples := samples0;
      if |samples| == 0 {
        return;
      }
      var available := cfg.maxSamples - (|queue| - head);
      if available <= 0 {
        return;
      }
      if |samples| > available {
        samples := samples[..available];
      }
      queue := queue + samples;
      accepted := accepted + samples;
    }

    method Clear()
      requires Valid()
      modifies this
      ensures Valid() && View() == Fresh()
    {
      queue, head, playing := [], 0, false;
      accepted, emitted := [], [];
    }

    /** Dropping the part of the buffer already played cannot be seen from outside. */
    method Compact()
      requires Sound()
      modifies this
      ensures Valid() && View() == old(View())
    {
      if head >= COMPACT_AT && head * 2 >= |queue| {
        queue := queue[head..];
        head := 0;
        assert queue[head..] == queue;
      }
    }

    method CutFrame() returns (frame: seq<real>)
      requires Sound() && head + cfg.frameSamples <= |queue|
      modifies this`head, this`emitted
      ensures Sound() && frame == old(View()).live[..cfg.frameSamples]
      ensures View() == old(View()).(live := old(View()).live[cfg.frameSamples..], emitted := old(emitted) + frame)
    {
      frame := queue[head..head + cfg.frameSamples];
      Cut(queue, head, cfg.frameSamples, emitted);
      head := head + cfg.frameSamples;
      emitted := emitted + frame;
    }

    method NextFrame() returns (frame: seq<real>)
      requires Valid()
      modifies this
      ensures Valid() && View() == AfterFrame(cfg, old(View()))
      ensures frame == if FrameReady(cfg, old(View())) then old(View()).live[..cfg.frameSamples] else []
    {
      var available := |queue| - head;
      if !playing {
        if available < cfg.prebufferSamples {
          return [];
        }
        playing := true;
      }
      if available < cfg.frameSamples {
        playing := false;
        return [];
      }
      frame := CutFrame();
      Compact();
    }
  }

  /** The physical buffer is bounded too: the played part is at most 8191 samples or less than the live part. */
  lemma BufferBound(p: PcmPacer)
    requires p.Valid()
    ensures |p.queue| < p.cfg.maxSamples + (if p.cfg.maxSamples > COMPACT_AT then p.cfg.maxSamples else COMPACT_AT)
  {
    assert p.head >= COMPACT_AT ==> p.head < |p.queue| - p.head;
  }

  // ----- whole runs -----

  datatype Op = Put(samples: seq<real>) | Take | Reset

  function Apply(cfg: Settings, q: Fifo, op: Op): Fifo {
    match op
    case Put(samples) => Enqueued(cfg, q, samples)
    case Take => AfterFrame(cfg, q)
    case Reset => Fresh()
  }

  function Run(cfg: Settings, q: Fifo, ops: seq<Op>): Fifo {
    if ops == [] then q else Apply(cfg, Run(cfg, q, ops[..|ops| - 1]), ops[|ops| - 1])
  }

  /** Whole frames only, nothing lost, nothing reordered, never more than the maximum waiting. */
  ghost predicate Orderly(cfg: Settings, q: Fifo) {
    && q.accepted == q.emitted + q.live
    && |q.live| <= cfg.maxSamples
    && (cfg.frameSamples > 0 ==> |q.emitted| % cfg.frameSamples == 0)
  }

  lemma FrameKeepsOrder(cfg: Settings, q: Fifo)
    requires Orderly(cfg, q)
    ensures Orderly(cfg, AfterFrame(cfg, q))
  {
    if FrameReady(cfg, q) {
      assert q.live == q.live[..cfg.frameSamples] + q.live[cfg.frameSamples..];
      var n, m := |q.emitted|, cfg.frameSamples;
      if m > 0 {
        DivModUnique(n + m, m, n / m + 1, 0);
      }
    }
  }

  lemma PutKeepsOrder(cfg: Settings, q: Fifo, samples: seq<real>)
    requires Orderly(cfg, q)
    ensures Orderly(cfg, Enqueued(cfg, q, samples))
  {
  }

  lemma FreshIsOrderly(cfg: Settings)
    ensures Orderly(cfg, Fresh())
  {
  }

  lemma OpKeepsOrder(cfg: Settings, q: Fifo, op: Op)
    requires Orderly(cfg, q)
    ensures Orderly(cfg, Apply(cfg, q, op))
  {
    hide Orderly;
    match op {
      case Put(samples) => PutKeepsOrder(cfg, q, samples);
      case Take => FrameKeepsOrder(cfg, q);
      case Reset => FreshIsOrderly(cfg);
    }
  }

  lemma {:induction false} FirstInFirstOut(cfg: Settings, ops: seq<Op>)
    ensures Orderly(cfg, Run(cfg, Fresh(), ops))
  {
    hide Orderly;
    if ops == [] {
      FreshIsOrderly(cfg);
    } else {
      FirstInFirstOut(cfg, ops[..|ops| - 1]);
      OpKeepsOrder(cfg, Run(cfg, Fresh(), ops[..|ops| - 1]), ops[|ops| - 1]);
    }
  }

  // ----- when frames come -----

  function Takes(ops: seq<Op>): nat {
    if ops == [] then 0 else Takes(ops[..|ops| - 1]) + if ops[|ops| - 1].Take? then 1 else 0
  }

  /** Samples that leave in n frames. */
  function InFrames(cfg: Settings, n: nat): nat {
    n * cfg.frameSamples
  }

  ghost predicate NoReset(ops: seq<Op>) {
    forall i :: 0 <= i < |ops| ==> !ops[i].Reset?
  }

  /** What is waiting at step i. */
  function Waiting(cfg: Settings, q: Fifo, ops: seq<Op>, i: nat): nat
    requires i <= |ops|
  {
    |Run(cfg, q, ops[..i]).live|
  }

  ghost predicate FoundAtLeast(cfg: Settings, q: Fifo, ops: seq<Op>, least: nat) {
    forall i: nat :: i < |ops| && ops[i].Take? ==> Waiting(cfg, q, ops, i) >= least
  }

  ghost predicate FoundLess(cfg: Settings, q: Fifo, ops: seq<Op>, most: nat) {
    forall i: nat :: i < |ops| && ops[i].Take? ==> Waiting(cfg, q, ops, i) < most
  }

  lemma WaitingBefore(cfg: Settings, q: Fifo, ops: seq<Op>, n: nat)
    requires n <= |ops|
    ensures forall i: nat :: i <= n ==> Waiting(cfg, q, ops[..n], i) == Waiting(cfg, q, ops, i)
  {
    forall i: nat | i <= n
      ensures Waiting(cfg, q, ops[..n], i) == Waiting(cfg, q, ops, i)
    {
      assert ops[..n][..i] == ops[..i];
    }
  }

  lemma NoFrames(cfg: Settings, q: Fifo, least: nat)
    ensures InFrames(cfg, 0) == 0 && FoundAtLeast(cfg, q, [], least)
  {
  }

  lemma FramesAdd(cfg: Settings, n: nat)
    ensures InFrames(cfg, n + 1) == InFrames(cfg, n) + cfg.frameSamples
  {
  }

  lemma StepEmits(cfg: Settings, q: Fifo, op: Op)
    requires !op.Reset?
    ensures var r := Apply(cfg, q, op);
            && |r.emitted| == |q.emitted| + (if op.Take? && FrameReady(cfg, q) then cfg.frameSamples else 0)
            && r.playing == if op.Take? then FrameReady(cfg, q) else q.playing
  {
  }

  /**
    Once playing, a pacer gives a frame at every tick exactly if every tick finds a frame waiting: one
    tick that does not is one frame less for good, however much is queued later.
   */
  lemma {:induction false} EveryTickServed(cfg: Settings, q: Fifo, ops: seq<Op>)
    requires q.playing && cfg.frameSamples > 0 && NoReset(ops)
    ensures |Run(cfg, q, ops).emitted| <= |q.emitted| + InFrames(cfg, Takes(ops))
    ensures |Run(cfg, q, ops).emitted| == |q.emitted| + InFrames(cfg, Takes(ops)) <==>
            FoundAtLeast(cfg, q, ops, cfg.frameSamples)
    ensures FoundAtLeast(cfg, q, ops, cfg.frameSamples) ==> Run(cfg, q, ops).playing
  {
    hide Apply, InFrames, FoundAtLeast;
    if ops == [] {
      NoFrames(cfg, q, cfg.frameSamples);
    } else {
      var n := |ops| - 1;
      EveryTickServed(cfg, q, ops[..n]);
      FoundGrows(cfg, q, ops, cfg.frameSamples);
      StepEmits(cfg, Run(cfg, q, ops[..n]), ops[n]);
      FramesAdd(cfg, Takes(ops[..n]));
    }
  }

  lemma FoundGrows(cfg: Settings, q: Fifo, ops: seq<Op>, bound: nat)
    requires ops != []
    ensures var n := |ops| - 1; var now := Waiting(cfg, q, ops, n);
            && (FoundAtLeast(cfg, q, ops, bound) <==>
                 FoundAtLeast(cfg, q, ops[..n], bound) && (ops[n].Take? ==> now >= bound))
            && (FoundLess(cfg, q, ops, bound) <==>
                 FoundLess(cfg, q, ops[..n], bound) && (ops[n].Take? ==> now < bound))
  {
    hide Waiting;
    var n := |ops| - 1;
    WaitingBefore(cfg, q, ops, n);
    assert forall i: nat :: i < n ==> ops[..n][i] == ops[i];
    assert forall i: nat :: i < n ==> Waiting(cfg, q, ops[..n], i) == Waiting(cfg, q, ops, i);
  }

  /**
    A pacer that is filling up, at the start or after it ran dry, stays silent exactly as long as every
    tick finds less than the prebuffer or less than a frame; meanwhile everything it takes in waits.
   */
  lemma {:induction false} SilentWhileFilling(cfg: Settings, q: Fifo, ops: seq<Op>)
    requires !q.playing && cfg.frameSamples > 0 && NoReset(ops)
    ensures var start := Max(cfg.prebufferSamples, cfg.frameSamples);
            var r := Run(cfg, q, ops);
            && |r.emitted| >= |q.emitted|
            && (|r.emitted| == |q.emitted| <==> FoundLess(cfg, q, ops, start))
            && (|r.emitted| == |q.emitted| ==> !r.playing && |r.live| - |q.live| == |r.accepted| - |q.accepted|)
  {
    if ops != [] {
      var n := |ops| - 1;
      SilentWhileFilling(cfg, q, ops[..n]);
      FoundGrows(cfg, q, ops, Max(cfg.prebufferSamples, cfg.frameSamples));
      StepEmits(cfg, Run(cfg, q, ops[..n]), ops[n]);
    }
  }

  /** A pacer that is new or cleared gives nothing until a tick finds the prebuffer and a frame. */
  lemma FreshIsSilent(cfg: Settings, ops: seq<Op>)
    requires cfg.frameSamples > 0 && NoReset(ops)
    ensures Run(cfg, Fresh(), ops).emitted == [] <==>
            FoundLess(cfg, Fresh(), ops, Max(cfg.prebufferSamples, cfg.frameSamples))
  {
    SilentWhileFilling(cfg, Fresh(), ops);
  }

  /** Of a burst the longest beginning that leaves no more than the maximum waiting is taken in. */
  lemma TakesWhatFits(cfg: Settings, q: Fifo, samples: seq<real>)
    requires |q.live| <= cfg.maxSamples
    ensures var taken := Enqueued(cfg, q, samples).live[|q.live|..];
            && taken <= samples
            && Enqueued(cfg, q, samples) == q.(live := q.live + taken, accepted := q.accepted + taken)
            && |q.live| + |taken| == Min(|q.live| + |samples|, cfg.maxSamples)
  {
    var fitting := Fitting(cfg, q, samples);
    assert (q.live + fitting)[|q.live|..] == fitting;
  }
}
