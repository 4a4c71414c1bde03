/** What keeps the store going: each step of an attempt as its caller sees it, and the end of every call. */
module StoreProgress {
  import opened Store
  import opened StoreProofs

  /** The head of the queue is answered, and its process is free for the next call, at a first attempt. */
  ghost predicate Served<S, R>(s: State<S, R>, t: State<S, R>, p: nat, answer: Answer<R>)
    requires Busy(s, p)
  {
    && t.answers == s.answers[s.processes[p].queue[0] := answer]
    && t.processes == s.processes[p := Process(s.processes[p].queue[1..], 0, Idle)]
    && t.calls == s.calls && t.resets == s.resets
  }

  ghost predicate NothingCommitted<S, R>(s: State<S, R>, t: State<S, R>) {
    t.cell == s.cell && t.log == s.log && t.chain == s.chain
  }

  ghost predicate CommittedOne<S, R>(s: State<S, R>, t: State<S, R>, body: S, entry: Entry<R>) {
    && t.cell == Versioned(s.cell.version + 1, body)
    && t.log == s.log + [entry] && t.chain == s.chain + [t.cell]
  }

  /** What the function at the head of a queue makes of a body. */
  ghost function HeadOutcome<S, R>(s: State<S, R>, p: nat, body: S, nonce: nat): Outcome<S, R>
    requires Busy(s, p) && s.processes[p].queue[0] < |s.calls|
  {
    s.calls[s.processes[p].queue[0]].fn(body, nonce)
  }

  lemma HeadIsCall<S, R>(sys: System<S>, s: State<S, R>, p: nat)
    requires Inv(sys, s) && Busy(s, p)
    ensures s.processes[p].queue[0] < |s.calls| && s.processes[p].queue[0] !in s.answers
    ensures s.processes[p].attempt < MAX_ATTEMPTS
  {
    assert QueueOk(s, p) && PhaseOk(sys, s, p);
    assert Pending(s, p, s.processes[p].queue[0]);
  }

  // ----- one step of an attempt -----

  /** An attempt starts from the stored snapshot. */
  lemma ReadSees<S, R>(sys: System<S>, s: State<S, R>, p: nat)
    requires Busy(s, p) && s.processes[p].phase.Idle?
    ensures var t := Step(sys, s, Read(p));
            t == s.(processes := s.processes[p := s.processes[p].(phase := HasRead(s.cell))])
  {
  }

  /** An error is the caller's answer, whatever has happened to the snapshot meanwhile. */
  lemma ThrowIsDelivered<S, R>(sys: System<S>, s: State<S, R>, p: nat, nonce: nat)
    requires Inv(sys, s) && Busy(s, p) && s.processes[p].phase.HasRead?
    requires s.processes[p].queue[0] < |s.calls|
    requires HeadOutcome(s, p, s.processes[p].phase.seen.body, nonce).Thrown?
    ensures var t := Step(sys, s, Compute(p, nonce));
            var seen := s.processes[p].phase.seen;
            && Served(s, t, p, Threw(HeadOutcome(s, p, seen.body, nonce).error, seen.version, |s.log|, nonce))
            && NothingCommitted(s, t)
  {
  }

  /** An update is kept for the write, time stamped. */
  lemma UpdateIsKept<S, R>(sys: System<S>, s: State<S, R>, p: nat, nonce: nat)
    requires Busy(s, p) && s.processes[p].phase.HasRead? && s.processes[p].queue[0] < |s.calls|
    requires HeadOutcome(s, p, s.processes[p].phase.seen.body, nonce).Updated?
    ensures var t := Step(sys, s, Compute(p, nonce));
            var seen := s.processes[p].phase.seen;
            var Updated(body, result) := HeadOutcome(s, p, seen.body, nonce);
            t == s.(processes := s.processes[p :=
                      s.processes[p].(phase := Computed(seen, sys.touch(body, nonce), result, nonce))])
  {
  }

  /**
    A write ends in one of three ways: it commits if the version is still the one that was read, it sends
    the call back to its next attempt, or, at the sixth attempt, it refuses the call.
   */
  lemma WriteEnds<S, R>(sys: System<S>, s: State<S, R>, p: nat)
    requires Inv(sys, s) && Busy(s, p) && s.processes[p].phase.Computed?
    ensures var t := Step(sys, s, Write(p));
            var Computed(seen, next, result, nonce) := s.processes[p].phase;
            var proc := s.processes[p];
            if s.cell.version == seen.version then
              Served(s, t, p, Returned(result, |s.log|))
              && CommittedOne(s, t, next, Mutated(proc.queue[0], nonce, result))
            else if proc.attempt < 5 then
              t == s.(processes := s.processes[p := Process(proc.queue, proc.attempt + 1, Idle)])
            else
              Served(s, t, p, Refused(|s.log|)) && NothingCommitted(s, t)
  {
    HeadIsCall(sys, s, p);
  }

  // ----- a call that is left alone -----

  /**
    Undisturbed, an attempt answers its call: with the error if the function throws on the stored
    snapshot, and with the result, committed, if it does not.
   */
  lemma AttemptAlone<S, R>(sys: System<S>, s: State<S, R>, p: nat, nonce: nat)
    requires Inv(sys, s) && Busy(s, p) && s.processes[p].phase.Idle? && s.processes[p].queue[0] < |s.calls|
    ensures var t := Step(sys, Step(sys, Step(sys, s, Read(p)), Compute(p, nonce)), Write(p));
            match HeadOutcome(s, p, s.cell.body, nonce)
            case Thrown(error) =>
              Served(s, t, p, Threw(error, s.cell.version, |s.log|, nonce)) && NothingCommitted(s, t)
            case Updated(body, result) =>
              && Served(s, t, p, Returned(result, |s.log|))
              && CommittedOne(s, t, sys.touch(body, nonce), Mutated(s.processes[p].queue[0], nonce, result))
  {
    hide Inv;
    var s1 := Step(sys, s, Read(p));
    var s2 := Step(sys, s1, Compute(p, nonce));
    ReadSees(sys, s, p);
    StepKeeps(sys, s, Read(p));
    StepKeeps(sys, s1, Compute(p, nonce));
    match HeadOutcome(s, p, s.cell.body, nonce)
    case Thrown(error) =>
      ThrowIsDelivered(sys, s1, p, nonce);
      assert s1.processes[p].queue == s.processes[p].queue;
    case Updated(body, result) =>
      UpdateIsKept(sys, s1, p, nonce);
      WriteEnds(sys, s2, p);
  }

  /** Enough steps for one call, in whatever phase its attempt is: finish that attempt, then make another. */
  ghost function OneCall<S, R>(p: nat, nonces: (nat, nat)): seq<Action<S, R>> {
    [Compute(p, nonces.0), Write(p), Read(p), Compute(p, nonces.1), Write(p)]
  }

  ghost function Calls<S, R>(p: nat, nonces: seq<(nat, nat)>): seq<Action<S, R>> {
    if nonces == [] then [] else OneCall(p, nonces[0]) + Calls(p, nonces[1..])
  }

  lemma {:induction false} RunInTwo<S, R>(sys: System<S>, s: State<S, R>, a: seq<Action<S, R>>, b: seq<Action<S, R>>)
    ensures Run(sys, s, a + b) == Run(sys, Run(sys, s, a), b)
    decreases |a|
  {
    hide Step;
    if a == [] {
      assert a + b == b;
    } else {
      RunInTwo(sys, Step(sys, s, a[0]), a[1..], b);
      assert (a + b)[1..] == a[1..] + b;
    }
  }

  lemma RunTwo<S, R>(sys: System<S>, s: State<S, R>, a: seq<Action<S, R>>)
    requires |a| == 2
    ensures Run(sys, s, a) == Step(sys, Step(sys, s, a[0]), a[1])
  {
    hide Step;
    var m := Step(sys, s, a[0]);
    assert Run(sys, m, a[1..]) == Run(sys, Step(sys, m, a[1]), []) by { assert a[1..][1..] == []; }
  }

  lemma RunThree<S, R>(sys: System<S>, s: State<S, R>, a: seq<Action<S, R>>)
    requires |a| == 3
    ensures Run(sys, s, a) == Step(sys, Step(sys, Step(sys, s, a[0]), a[1]), a[2])
  {
    hide Step;
    RunTwo(sys, Step(sys, s, a[0]), a[1..]);
  }

  /** The process has worked off the first calls of its queue, every one answered; no other process has moved. */
  ghost predicate Advanced<S, R>(s: State<S, R>, t: State<S, R>, p: nat) {
    && p < |s.processes| == |t.processes| && t.calls == s.calls
    && (forall q: nat :: q < |s.processes| && q != p ==> t.processes[q] == s.processes[q])
    && var before, after := s.processes[p].queue, t.processes[p].queue;
    && |after| <= |before| && after == before[|before| - |after|..]
    && (forall i :: 0 <= i < |before| - |after| ==> before[i] in t.answers)
  }

  lemma AdvancedTwice<S, R>(s: State<S, R>, t: State<S, R>, u: State<S, R>, p: nat)
    requires Advanced(s, t, p) && Advanced(t, u, p) && Extends(t, u)
    ensures Advanced(s, u, p)
  {
    var a, b, c := s.processes[p].queue, t.processes[p].queue, u.processes[p].queue;
    forall i | 0 <= i < |a| - |c|
      ensures a[i] in u.answers
    {
      if i >= |a| - |b| {
        assert a[i] == b[i - (|a| - |b|)];
      }
    }
  }

  ghost predicate OwnAction<S, R>(p: nat, a: Action<S, R>) {
    a == Read(p) || a == Write(p) || (a.Compute? && a.process == p)
  }

  lemma AdvancedByHead<S, R>(s: State<S, R>, t: State<S, R>, p: nat, proc: Process<S, R>)
    requires p < |s.processes| && t.processes == s.processes[p := proc] && t.calls == s.calls
    requires proc.queue == s.processes[p].queue
             || (Busy(s, p) && proc.queue == s.processes[p].queue[1..] && s.processes[p].queue[0] in t.answers)
    ensures Advanced(s, t, p)
  {
  }

  /** A step of a process takes nothing from its queue but the head, and that only with an answer. */
  lemma OwnAdvance<S, R>(sys: System<S>, s: State<S, R>, p: nat, a: Action<S, R>)
    requires p < |s.processes| && OwnAction(p, a)
    ensures Advanced(s, Step(sys, s, a), p)
  {
    hide Advanced;
    AdvancedByHead(s, Step(sys, s, a), p, Step(sys, s, a).processes[p]);
  }

  lemma OwnStep<S, R>(sys: System<S>, s: State<S, R>, p: nat, a: Action<S, R>)
    requires Inv(sys, s) && p < |s.processes| && OwnAction(p, a)
    ensures var t := Step(sys, s, a);
            Inv(sys, t) && Extends(s, t) && Advanced(s, t, p)
  {
    hide Inv, Extends, Advanced, Step;
    StepKeeps(sys, s, a);
    StepExtends(sys, s, a);
    OwnAdvance(sys, s, p, a);
  }

  /** Finishing the attempt a process is in answers the head or sends it back to its next attempt. */
  lemma AttemptFinished<S, R>(sys: System<S>, s: State<S, R>, p: nat, nonce: nat)
    requires Inv(sys, s) && Busy(s, p)
    ensures var t := Step(sys, Step(sys, s, Compute(p, nonce)), Write(p));
            |t.processes| == |s.processes|
            && (t.processes[p].queue == s.processes[p].queue ==> t.processes[p].phase.Idle?)
  {
    hide Inv, Extends, Link, Follows;
    var s1 := Step(sys, s, Compute(p, nonce));
    HeadIsCall(sys, s, p);
    StepKeeps(sys, s, Compute(p, nonce));
    match s.processes[p].phase
    case Idle =>
    case HasRead(seen) =>
      if HeadOutcome(s, p, seen.body, nonce).Thrown? {
        ThrowIsDelivered(sys, s, p, nonce);
      } else {
        UpdateIsKept(sys, s, p, nonce);
        WriteEnds(sys, s1, p);
      }
    case Computed(_, _, _, _) =>
      assert s1 == s;
      WriteEnds(sys, s, p);
  }

  lemma ExtendsTwice<S, R>(s: State<S, R>, t: State<S, R>, u: State<S, R>)
    requires Extends(s, t) && Extends(t, u)
    ensures Extends(s, u)
  {
  }

  lemma {:induction false} OwnSteps<S, R>(sys: System<S>, s: State<S, R>, p: nat, actions: seq<Action<S, R>>)
    requires Inv(sys, s) && p < |s.processes| && forall i :: 0 <= i < |actions| ==> OwnAction(p, actions[i])
    ensures var t := Run(sys, s, actions);
            && Inv(sys, t) && Extends(s, t) && Advanced(s, t, p)
            && |t.processes| == |s.processes| && |t.processes[p].queue| <= |s.processes[p].queue|
    decreases |actions|
  {
    hide Inv, Step, OwnAction;
    if actions != [] {
      var m := Step(sys, s, actions[0]);
      assert OwnAction(p, actions[0]);
      OwnStep(sys, s, p, actions[0]);
      OwnSteps(sys, m, p, actions[1..]);
      AdvancedTwice(s, m, Run(sys, m, actions[1..]), p);
      ExtendsTwice(s, m, Run(sys, m, actions[1..]));
    }
  }

  /** Whatever its phase, and however stale what it has read, a call that is left alone is answered. */
  lemma HeadIsServed<S, R>(sys: System<S>, s: State<S, R>, p: nat, nonces: (nat, nat))
    requires Inv(sys, s) && Busy(s, p)
    ensures var t := Run(sys, s, OneCall(p, nonces));
            && Inv(sys, t) && Extends(s, t) && Advanced(s, t, p)
            && |t.processes[p].queue| < |s.processes[p].queue|
  {
    hide Inv, Step, Extends, Advanced;
    var finish: seq<Action<S, R>> := [Compute(p, nonces.0), Write(p)];
    var again: seq<Action<S, R>> := [Read(p), Compute(p, nonces.1), Write(p)];
    assert OneCall(p, nonces) == finish + again;
    RunInTwo(sys, s, finish, again);
    OwnSteps(sys, s, p, OneCall(p, nonces));
    OwnSteps(sys, s, p, finish);
    var m := Run(sys, s, finish);
    OwnSteps(sys, m, p, again);
    RunTwo(sys, s, finish);
    AttemptFinished(sys, s, p, nonces.0);
    if |m.processes[p].queue| == |s.processes[p].queue| {
      SameQueue(s, m, p);
      HeadIsCall(sys, m, p);
      AttemptAlone(sys, m, p, nonces.1);
      RunThree(sys, m, again);
    }
  }

  lemma SameQueue<S, R>(s: State<S, R>, t: State<S, R>, p: nat)
    requires Advanced(s, t, p) && |t.processes[p].queue| == |s.processes[p].queue|
    ensures t.processes[p].queue == s.processes[p].queue
  {
  }

  /** No call waits for ever: a process left alone for as many calls as its queue holds answers them all. */
  lemma {:induction false} QueueDrains<S, R>(sys: System<S>, s: State<S, R>, p: nat, nonces: seq<(nat, nat)>)
    requires Inv(sys, s) && p < |s.processes| && |nonces| >= |s.processes[p].queue|
    ensures var t := Run(sys, s, Calls(p, nonces));
            && Inv(sys, t) && Advanced(s, t, p) && t.processes[p].queue == []
    decreases |nonces|
  {
    hide Inv, Extends;
    if nonces != [] {
      var first: seq<Action<S, R>> := OneCall(p, nonces[0]);
      RunInTwo(sys, s, first, Calls(p, nonces[1..]));
      var m := Run(sys, s, first);
      OwnSteps(sys, s, p, first);
      if Busy(s, p) {
        HeadIsServed(sys, s, p, nonces[0]);
      }
      QueueDrains(sys, m, p, nonces[1..]);
      RunKeepsExtending(sys, m, Calls(p, nonces[1..]));
      AdvancedTwice(s, m, Run(sys, m, Calls(p, nonces[1..])), p);
    }
  }

  lemma RunKeepsExtending<S, R>(sys: System<S>, s: State<S, R>, actions: seq<Action<S, R>>)
    requires Inv(sys, s)
    ensures Extends(s, Run(sys, s, actions))
  {
    RunExtends(sys, s, actions);
  }

  /** Left alone, every call that was made by a process of a reachable state is answered. */
  lemma EveryCallIsAnswered<S, R>(sys: System<S>, s: State<S, R>, actions: seq<Action<S, R>>, id: nat,
                                  nonces: seq<(nat, nat)>)
    requires Initial(s) && id < |Run(sys, s, actions).calls|
    requires var t := Run(sys, s, actions); var p := t.calls[id].process;
             p < |t.processes| ==> |nonces| >= |t.processes[p].queue|
    ensures var t := Run(sys, s, actions);
            id in Run(sys, t, Calls(t.calls[id].process, nonces)).answers
  {
    InitialInv(sys, s);
    RunKeeps(sys, s, actions);
    var t := Run(sys, s, actions);
    var p := t.calls[id].process;
    assert Accounted(t, id);
    var u := Run(sys, t, Calls(p, nonces));
    RunKeepsExtending(sys, t, Calls(p, nonces));
    if id !in t.answers {
      QueueDrains(sys, t, p, nonces);
      var i :| 0 <= i < |t.processes[p].queue| && t.processes[p].queue[i] == id;
    }
  }
}
