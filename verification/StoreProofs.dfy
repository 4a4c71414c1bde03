/** What every interleaving of the store keeps, and the serialisability that follows from it. */
module StoreProofs {
  import opened Store

  // ----- the invariant, one concern at a time -----

  /** `next` is what `entry` makes of `body`. */
  ghost predicate Follows<S, R>(sys: System<S>, s: State<S, R>, entry: Entry<R>, body: S, next: S) {
    match entry
    case WasReset => next == sys.seed
    case Mutated(call, nonce, result) =>
      && call < |s.calls|
      && var outcome := s.calls[call].fn(body, nonce);
      && outcome.Updated? && outcome.result == result && next == sys.touch(outcome.body, nonce)
  }

  ghost predicate Link<S, R>(sys: System<S>, s: State<S, R>, i: nat)
    requires i + 1 < |s.chain| && i < |s.log|
  {
    && s.chain[i + 1].version == s.chain[i].version + 1
    && Follows(sys, s, s.log[i], s.chain[i].body, s.chain[i + 1].body)
  }

  /** The committed snapshots form one chain, ending in the stored one. */
  ghost predicate Chained<S, R>(sys: System<S>, s: State<S, R>) {
    && |s.chain| == |s.log| + 1
    && s.chain[|s.log|] == s.cell
    && (forall i: nat :: i < |s.log| ==> Link(sys, s, i))
    && (forall i: nat :: i < |s.chain| ==> s.chain[i].version == s.chain[0].version + i)
  }

  /** A snapshot that was current at some moment, no earlier than `born`. */
  ghost predicate WasCurrent<S, R>(s: State<S, R>, seen: Versioned<S>, born: int) {
    && |s.chain| > 0
    && var k := seen.version - s.chain[0].version;
    0 <= k < |s.chain| && born <= k && s.chain[k] == seen
  }

  ghost predicate Pending<S, R>(s: State<S, R>, p: nat, id: nat) {
    id < |s.calls| && s.calls[id].process == p && id !in s.answers && s.calls[id].born <= |s.log|
  }

  ghost predicate QueueOk<S, R>(s: State<S, R>, p: nat)
    requires p < |s.processes|
  {
    var queue := s.processes[p].queue;
    && (forall i: nat :: i < |queue| ==> Pending(s, p, queue[i]))
    && (forall i: nat, j: nat :: i < j < |queue| ==> queue[i] < queue[j])
  }

  /** An attempt works on a snapshot that was current after the call and after every lost race before it. */
  ghost predicate PhaseOk<S, R>(sys: System<S>, s: State<S, R>, p: nat)
    requires p < |s.processes|
  {
    var proc := s.processes[p];
    if proc.queue == [] then proc.attempt == 0 && proc.phase == Idle
    else
      && proc.queue[0] < |s.calls| && proc.attempt < MAX_ATTEMPTS
      && var call := s.calls[proc.queue[0]];
      match proc.phase
      case Idle => call.born + proc.attempt <= |s.log|
      case HasRead(seen) => WasCurrent(s, seen, call.born + proc.attempt)
      case Computed(seen, next, result, nonce) =>
        && WasCurrent(s, seen, call.born + proc.attempt)
        && var outcome := call.fn(seen.body, nonce);
        && outcome.Updated? && outcome.result == result && next == sys.touch(outcome.body, nonce)
  }

  ghost predicate ProcessesOk<S, R>(sys: System<S>, s: State<S, R>) {
    forall p: nat :: p < |s.processes| ==> QueueOk(s, p) && PhaseOk(sys, s, p)
  }

  /** A logged commit is the answer of its call, and took place after the call. */
  ghost predicate EntryOk<S, R>(s: State<S, R>, i: nat)
    requires i < |s.log|
  {
    s.log[i].Mutated? ==>
      var id := s.log[i].call;
      id < |s.calls| && s.calls[id].born <= i && id in s.answers && s.answers[id] == Returned(s.log[i].result, i)
  }

  ghost predicate AnswerOk<S, R>(s: State<S, R>, id: nat)
    requires id in s.answers
  {
    && id < |s.calls|
    && match s.answers[id]
       case Returned(result, entry) => entry < |s.log| && s.log[entry].Mutated? && s.log[entry].call == id
       case Threw(error, version, at, nonce) =>
         && |s.chain| > 0
         && var k := version - s.chain[0].version;
         && s.calls[id].born <= k <= at <= |s.log| && k < |s.chain|
         && s.calls[id].fn(s.chain[k].body, nonce) == Thrown(error)
       case Refused(at) => s.calls[id].born + MAX_ATTEMPTS <= at <= |s.log|
  }

  /** The queue is first in first out, so commits and answers of one process keep the order of its calls. */
  ghost predicate Ordered<S, R>(s: State<S, R>) {
    && (forall i: nat, j: nat :: i < j < |s.log| && SameProcess(s, i, j) ==> s.log[i].call < s.log[j].call)
    && (forall i: nat, p: nat :: i < |s.log| && LoggedBy(s, i, p) ==> BeforeQueue(s, i, p))
  }

  ghost predicate LoggedBy<S, R>(s: State<S, R>, i: nat, p: nat)
    requires i < |s.log|
  {
    s.log[i].Mutated? && s.log[i].call < |s.calls| && s.calls[s.log[i].call].process == p
  }

  ghost predicate SameProcess<S, R>(s: State<S, R>, i: nat, j: nat)
    requires i < |s.log| && j < |s.log|
  {
    && s.log[i].Mutated? && s.log[i].call < |s.calls|
    && s.log[j].Mutated? && s.log[j].call < |s.calls|
    && s.calls[s.log[i].call].process == s.calls[s.log[j].call].process
  }

  ghost predicate BeforeQueue<S, R>(s: State<S, R>, i: nat, p: nat)
    requires i < |s.log| && s.log[i].Mutated?
  {
    p < |s.processes| ==> forall k: nat :: k < |s.processes[p].queue| ==> s.log[i].call < s.processes[p].queue[k]
  }

  /** No call is lost: it is answered or still waiting in the queue of its process. */
  ghost predicate Accounted<S, R>(s: State<S, R>, id: nat)
    requires id < |s.calls|
  {
    id in s.answers || (s.calls[id].process < |s.processes| && id in s.processes[s.calls[id].process].queue)
  }

  ghost predicate ResetsOk<S, R>(s: State<S, R>) {
    forall r :: r in s.resets ==> WasCurrent(s, s.resets[r], 0)
  }

  ghost predicate Inv<S, R>(sys: System<S>, s: State<S, R>) {
    && Chained(sys, s)
    && ProcessesOk(sys, s)
    && (forall i: nat :: i < |s.log| ==> EntryOk(s, i))
    && (forall id :: id in s.answers ==> AnswerOk(s, id))
    && Ordered(s)
    && (forall id: nat :: id < |s.calls| ==> Accounted(s, id))
    && ResetsOk(s)
  }

  lemma InitialInv<S, R>(sys: System<S>, s: State<S, R>)
    requires Initial(s)
    ensures Inv(sys, s)
  {
  }

  // ----- history only grows -----

  ghost predicate Extends<S, R>(s: State<S, R>, t: State<S, R>) {
    && s.chain <= t.chain && s.log <= t.log && s.calls <= t.calls
    && (forall id :: id in s.answers ==> id in t.answers && t.answers[id] == s.answers[id])
  }

  lemma LinksLift<S, R>(sys: System<S>, s: State<S, R>, t: State<S, R>)
    requires Chained(sys, s) && Extends(s, t) && |t.chain| == |t.log| + 1
    ensures forall i: nat :: i < |s.log| ==> Link(sys, t, i)
  {
    forall i: nat | i < |s.log|
      ensures Link(sys, t, i)
    {
      assert Link(sys, s, i);
      assert t.chain[i] == s.chain[i] && t.chain[i + 1] == s.chain[i + 1] && t.log[i] == s.log[i];
    }
  }

  lemma WasCurrentLifts<S, R>(s: State<S, R>, t: State<S, R>, seen: Versioned<S>, born: int)
    requires Extends(s, t) && WasCurrent(s, seen, born)
    ensures WasCurrent(t, seen, born)
  {
    assert t.chain[0] == s.chain[0];
  }

  lemma EntriesLift<S, R>(s: State<S, R>, t: State<S, R>)
    requires Extends(s, t) && forall i: nat :: i < |s.log| ==> EntryOk(s, i)
    ensures forall i: nat :: i < |s.log| ==> EntryOk(t, i)
  {
    forall i: nat | i < |s.log|
      ensures EntryOk(t, i)
    {
      assert EntryOk(s, i) && t.log[i] == s.log[i];
    }
  }

  lemma AnswersLift<S, R>(s: State<S, R>, t: State<S, R>)
    requires Extends(s, t) && forall id :: id in s.answers ==> AnswerOk(s, id)
    ensures forall id :: id in s.answers ==> AnswerOk(t, id)
  {
    forall id | id in s.answers
      ensures AnswerOk(t, id)
    {
      assert AnswerOk(s, id);
      assert |s.chain| > 0 ==> t.chain[0] == s.chain[0];
    }
  }

  lemma ResetsLift<S, R>(s: State<S, R>, t: State<S, R>)
    requires Extends(s, t) && ResetsOk(s)
    requires forall r :: r in t.resets ==> r in s.resets && t.resets[r] == s.resets[r]
    ensures ResetsOk(t)
  {
    forall r | r in t.resets
      ensures WasCurrent(t, t.resets[r], 0)
    {
      WasCurrentLifts(s, t, s.resets[r], 0);
    }
  }

  /** A process that a step does not touch stays well-formed. */
  lemma ProcessLifts<S, R>(sys: System<S>, s: State<S, R>, t: State<S, R>, p: nat)
    requires Extends(s, t) && p < |s.processes| && p < |t.processes| && t.processes[p] == s.processes[p]
    requires QueueOk(s, p) && PhaseOk(sys, s, p)
    requires forall id :: id in s.processes[p].queue && id !in s.answers ==> id !in t.answers
    ensures QueueOk(t, p) && PhaseOk(sys, t, p)
  {
    var proc := s.processes[p];
    forall i: nat | i < |proc.queue|
      ensures Pending(t, p, proc.queue[i])
    {
      assert Pending(s, p, proc.queue[i]);
      assert proc.queue[i] in proc.queue;
    }
    if proc.queue != [] {
      assert t.calls[proc.queue[0]] == s.calls[proc.queue[0]];
      if !proc.phase.Idle? {
        WasCurrentLifts(s, t, proc.phase.seen, s.calls[proc.queue[0]].born + proc.attempt);
      }
    }
  }

  /** A waiting call belongs to the process in whose queue it waits, so queues never share a call. */
  lemma QueueOwner<S, R>(sys: System<S>, s: State<S, R>, p: nat, id: nat)
    requires ProcessesOk(sys, s) && p < |s.processes| && id in s.processes[p].queue
    ensures id < |s.calls| && s.calls[id].process == p
  {
    assert QueueOk(s, p);
    var i :| 0 <= i < |s.processes[p].queue| && s.processes[p].queue[i] == id;
    assert Pending(s, p, s.processes[p].queue[i]);
  }

  lemma NextCallUnanswered<S, R>(sys: System<S>, s: State<S, R>)
    requires Inv(sys, s)
    ensures |s.calls| !in s.answers
  {
    forall id | id in s.answers
      ensures id < |s.calls|
    {
      assert AnswerOk(s, id);
    }
  }

  // ----- the steps -----

  lemma SubmitKeepsProcesses<S, R>(sys: System<S>, s: State<S, R>, p: nat, fn: Mutation<S, R>)
    requires Inv(sys, s) && p < |s.processes|
    ensures ProcessesOk(sys, Step(sys, s, Submit(p, fn)))
  {
    var t := Step(sys, s, Submit(p, fn));
    forall q: nat | q < |t.processes|
      ensures QueueOk(t, q) && PhaseOk(sys, t, q)
    {
      assert QueueOk(s, q) && PhaseOk(sys, s, q);
      if q != p {
        ProcessLifts(sys, s, t, q);
      } else {
        var before, after := s.processes[p].queue, t.processes[p].queue;
        NextCallUnanswered(sys, s);
        forall i: nat | i < |after|
          ensures Pending(t, p, after[i])
        {
          if i < |before| { assert Pending(s, p, before[i]); }
        }
        if before != [] {
          assert Pending(s, p, before[0]);
          assert after[0] == before[0];
        }
      }
    }
  }

  lemma SubmitKeeps<S, R>(sys: System<S>, s: State<S, R>, p: nat, fn: Mutation<S, R>)
    requires Inv(sys, s) && p < |s.processes|
    ensures Inv(sys, Step(sys, s, Submit(p, fn)))
  {
    var t := Step(sys, s, Submit(p, fn));
    assert Extends(s, t);
    LinksLift(sys, s, t);
    EntriesLift(s, t);
    AnswersLift(s, t);
    ResetsLift(s, t);
    SubmitKeepsProcesses(sys, s, p, fn);
    assert Ordered(t) by {
      forall i: nat, j: nat | i < j < |t.log| && SameProcess(t, i, j)
        ensures t.log[i].call < t.log[j].call
      {
        assert EntryOk(s, i) && EntryOk(s, j);
        assert SameProcess(s, i, j);
      }
      forall i: nat, q: nat | i < |t.log| && LoggedBy(t, i, q)
        ensures BeforeQueue(t, i, q)
      {
        assert EntryOk(s, i);
        assert LoggedBy(s, i, q);
        assert BeforeQueue(s, i, q);
      }
    }
    forall id: nat | id < |t.calls|
      ensures Accounted(t, id)
    {
      if id < |s.calls| {
        assert Accounted(s, id);
      } else {
        assert t.processes[p].queue[|s.processes[p].queue|] == id;
      }
    }
  }

  /** A step that only moves one process to another phase of the same attempt or the next. */
  lemma PhaseChangeKeeps<S, R>(sys: System<S>, s: State<S, R>, t: State<S, R>, p: nat, proc: Process<S, R>)
    requires Inv(sys, s) && Busy(s, p) && proc.queue == s.processes[p].queue
    requires t == s.(processes := s.processes[p := proc]) && PhaseOk(sys, t, p)
    ensures Inv(sys, t)
  {
    LinksLift(sys, s, t);
    EntriesLift(s, t);
    AnswersLift(s, t);
    ResetsLift(s, t);
    forall q: nat | q < |t.processes|
      ensures QueueOk(t, q) && PhaseOk(sys, t, q)
    {
      assert QueueOk(s, q) && PhaseOk(sys, s, q);
      if q != p {
        ProcessLifts(sys, s, t, q);
      } else {
        forall i: nat | i < |proc.queue|
          ensures Pending(t, p, proc.queue[i])
        {
          assert Pending(s, p, proc.queue[i]);
        }
      }
    }
    assert Ordered(t) by {
      forall i: nat, j: nat | i < j < |t.log| && SameProcess(t, i, j)
        ensures t.log[i].call < t.log[j].call
      {
        assert SameProcess(s, i, j);
      }
      forall i: nat, q: nat | i < |t.log| && LoggedBy(t, i, q)
        ensures BeforeQueue(t, i, q)
      {
        assert LoggedBy(s, i, q);
        assert BeforeQueue(s, i, q);
      }
    }
    forall id: nat | id < |t.calls|
      ensures Accounted(t, id)
    {
      assert Accounted(s, id);
    }
  }

  lemma FinishKeepsProcesses<S, R>(sys: System<S>, s: State<S, R>, u: State<S, R>, p: nat, answer: Answer<R>)
    requires Busy(s, p) && ProcessesOk(sys, s) && Extends(s, u)
    requires u.processes == s.processes && u.answers == s.answers
    ensures ProcessesOk(sys, Finish(u, p, answer))
  {
    var t := Finish(u, p, answer);
    var done := s.processes[p].queue[0];
    forall q: nat | q < |t.processes|
      ensures QueueOk(t, q) && PhaseOk(sys, t, q)
    {
      assert QueueOk(s, q) && PhaseOk(sys, s, q);
      if q != p {
        QueueOwner(sys, s, p, done);
        if done in s.processes[q].queue { QueueOwner(sys, s, q, done); }
        assert Extends(s, t) by {
          assert QueueOk(s, p) && Pending(s, p, done);
        }
        ProcessLifts(sys, s, t, q);
      } else {
        var before, after := s.processes[p].queue, t.processes[p].queue;
        forall i: nat | i < |after|
          ensures Pending(t, p, after[i])
        {
          assert Pending(s, p, before[i + 1]);
          assert after[i] == before[i + 1] && before[0] < before[i + 1];
        }
        forall i: nat, j: nat | i < j < |after|
          ensures after[i] < after[j]
        {
          assert before[i + 1] < before[j + 1];
        }
        if after != [] {
          assert Pending(t, p, after[0]);
        }
      }
    }
  }

  lemma FinishKeepsAccount<S, R>(s: State<S, R>, u: State<S, R>, p: nat, answer: Answer<R>)
    requires Busy(s, p) && forall id: nat :: id < |s.calls| ==> Accounted(s, id)
    requires u.processes == s.processes && u.answers == s.answers && u.calls == s.calls
    ensures forall id: nat :: id < |s.calls| ==> Accounted(Finish(u, p, answer), id)
  {
    var t := Finish(u, p, answer);
    forall id: nat | id < |s.calls|
      ensures Accounted(t, id)
    {
      assert Accounted(s, id);
      var queue := s.processes[p].queue;
      assert queue == [queue[0]] + queue[1..];
    }
  }

  /** A call that ends without a commit: its function threw, or it lost its last race. */
  lemma FinishKeeps<S, R>(sys: System<S>, s: State<S, R>, p: nat, answer: Answer<R>)
    requires Inv(sys, s) && Busy(s, p) && !answer.Returned?
    requires AnswerOk(Finish(s, p, answer), s.processes[p].queue[0])
    ensures Inv(sys, Finish(s, p, answer))
  {
    var t := Finish(s, p, answer);
    assert QueueOk(s, p) && Pending(s, p, s.processes[p].queue[0]);
    assert Extends(s, t);
    LinksLift(sys, s, t);
    EntriesLift(s, t);
    AnswersLift(s, t);
    ResetsLift(s, t);
    FinishKeepsProcesses(sys, s, s, p, answer);
    FinishKeepsAccount(s, s, p, answer);
    assert Ordered(t) by {
      forall i: nat, j: nat | i < j < |t.log| && SameProcess(t, i, j)
        ensures t.log[i].call < t.log[j].call
      {
        assert SameProcess(s, i, j);
      }
      forall i: nat, q: nat | i < |t.log| && LoggedBy(t, i, q)
        ensures BeforeQueue(t, i, q)
      {
        assert LoggedBy(s, i, q);
        assert BeforeQueue(s, i, q);
      }
    }
  }

  /** Versions name the snapshots of the chain, so an equal version means an unchanged snapshot. */
  lemma WinnerSawCurrent<S, R>(sys: System<S>, s: State<S, R>, seen: Versioned<S>, born: int)
    requires Chained(sys, s) && WasCurrent(s, seen, born) && seen.version == s.cell.version
    ensures seen == s.cell
  {
    assert s.cell.version == s.chain[0].version + |s.log|;
  }

  lemma InstallKeepsChain<S, R>(sys: System<S>, s: State<S, R>, next: S, entry: Entry<R>)
    requires Chained(sys, s) && Follows(sys, s, entry, s.cell.body, next)
    ensures Chained(sys, Install(s, Versioned(s.cell.version + 1, next), entry))
  {
    var t := Install(s, Versioned(s.cell.version + 1, next), entry);
    LinksLift(sys, s, t);
    forall i: nat | i < |t.log|
      ensures Link(sys, t, i)
    {
      if i == |s.log| {
        assert t.chain[i] == s.cell;
      }
    }
  }

  lemma CommitKeepsOrder<S, R>(sys: System<S>, s: State<S, R>, u: State<S, R>, p: nat, answer: Answer<R>)
    requires Inv(sys, s) && Busy(s, p)
    requires u.processes == s.processes && u.calls == s.calls && |u.log| == |s.log| + 1 && s.log <= u.log
    requires u.log[|s.log|].Mutated? && u.log[|s.log|].call == s.processes[p].queue[0]
    ensures Ordered(Finish(u, p, answer))
  {
    var t := Finish(u, p, answer);
    var n, queue := |s.log|, s.processes[p].queue;
    assert QueueOk(s, p) && Pending(s, p, queue[0]);
    forall i: nat, j: nat | i < j < |t.log| && SameProcess(t, i, j)
      ensures t.log[i].call < t.log[j].call
    {
      assert t.log[i] == s.log[i];
      if j < n {
        assert SameProcess(s, i, j);
      } else {
        assert LoggedBy(s, i, p);
        assert BeforeQueue(s, i, p);
      }
    }
    forall i: nat, q: nat | i < |t.log| && LoggedBy(t, i, q)
      ensures BeforeQueue(t, i, q)
    {
      if i < n {
        assert LoggedBy(s, i, q);
        assert BeforeQueue(s, i, q);
      }
    }
  }

  lemma CommitKeepsRecords<S, R>(sys: System<S>, s: State<S, R>, t: State<S, R>, id: nat, nonce: nat, result: R)
    requires Inv(sys, s) && Extends(s, t) && id < |s.calls| && s.calls[id].born <= |s.log|
    requires t.log == s.log + [Mutated(id, nonce, result)]
    requires t.answers == s.answers[id := Returned(result, |s.log|)]
    ensures forall i: nat :: i < |t.log| ==> EntryOk(t, i)
    ensures forall k :: k in t.answers ==> AnswerOk(t, k)
  {
    EntriesLift(s, t);
    AnswersLift(s, t);
  }

  lemma CommitKeeps<S, R>(sys: System<S>, s: State<S, R>, p: nat)
    requires Inv(sys, s) && Busy(s, p) && s.processes[p].phase.Computed?
    requires WriteWins(s, s.processes[p].phase.seen.version)
    ensures Inv(sys, DoWrite(s, p))
  {
    hide Ordered, EntryOk, AnswerOk, Accounted, ResetsOk;
    var proc := s.processes[p];
    var Computed(seen, next, result, nonce) := proc.phase;
    var id := proc.queue[0];
    assert QueueOk(s, p) && PhaseOk(sys, s, p) && Pending(s, p, id);
    WinnerSawCurrent(sys, s, seen, s.calls[id].born + proc.attempt);
    var entry, answer := Mutated(id, nonce, result), Returned(result, |s.log|);
    var u := Install(s, Versioned(seen.version + 1, next), entry);
    var t := Finish(u, p, answer);
    InstallKeepsChain(sys, s, next, entry);
    assert Extends(s, u) && Extends(s, t);
    LinksLift(sys, u, t);
    CommitKeepsRecords(sys, s, t, id, nonce, result);
    ResetsLift(s, t);
    FinishKeepsProcesses(sys, s, u, p, answer);
    FinishKeepsAccount(s, u, p, answer);
    CommitKeepsOrder(sys, s, u, p, answer);
  }

  lemma ComputeKeeps<S, R>(sys: System<S>, s: State<S, R>, p: nat, nonce: nat)
    requires Inv(sys, s) && Busy(s, p) && s.processes[p].phase.HasRead? && s.processes[p].queue[0] < |s.calls|
    ensures Inv(sys, DoCompute(sys, s, p, nonce))
  {
    var proc := s.processes[p];
    var seen, call := proc.phase.seen, s.calls[proc.queue[0]];
    assert QueueOk(s, p) && PhaseOk(sys, s, p) && Pending(s, p, proc.queue[0]);
    match call.fn(seen.body, nonce)
    case Thrown(error) =>
      FinishKeeps(sys, s, p, Threw(error, seen.version, |s.log|, nonce));
    case Updated(body, result) =>
      var after := proc.(phase := Computed(seen, sys.touch(body, nonce), result, nonce));
      PhaseChangeKeeps(sys, s, s.(processes := s.processes[p := after]), p, after);
  }

  lemma LostRaceKeeps<S, R>(sys: System<S>, s: State<S, R>, p: nat)
    requires Inv(sys, s) && Busy(s, p) && s.processes[p].phase.Computed?
    requires !WriteWins(s, s.processes[p].phase.seen.version)
    ensures Inv(sys, DoWrite(s, p))
  {
    var proc := s.processes[p];
    assert QueueOk(s, p) && PhaseOk(sys, s, p) && Pending(s, p, proc.queue[0]);
    var seen, call := proc.phase.seen, s.calls[proc.queue[0]];
    assert call.born + proc.attempt + 1 <= |s.log|;
    if proc.attempt + 1 < MAX_ATTEMPTS {
      var after := proc.(attempt := proc.attempt + 1, phase := Idle);
      PhaseChangeKeeps(sys, s, s.(processes := s.processes[p := after]), p, after);
    } else {
      FinishKeeps(sys, s, p, Refused(|s.log|));
    }
  }

  lemma ReadKeeps<S, R>(sys: System<S>, s: State<S, R>, p: nat)
    requires Inv(sys, s) && Busy(s, p) && s.processes[p].phase.Idle?
    ensures Inv(sys, Step(sys, s, Read(p)))
  {
    assert QueueOk(s, p) && PhaseOk(sys, s, p);
    var after := s.processes[p].(phase := HasRead(s.cell));
    assert s.cell.version == s.chain[0].version + |s.log|;
    PhaseChangeKeeps(sys, s, s.(processes := s.processes[p := after]), p, after);
  }

  lemma ResetReadKeeps<S, R>(sys: System<S>, s: State<S, R>, r: nat)
    requires Inv(sys, s) && r !in s.resets
    ensures Inv(sys, Step(sys, s, ResetRead(r)))
  {
    var t := s.(resets := s.resets[r := s.cell]);
    LinksLift(sys, s, t);
    ResetFrame(sys, s, t);
    forall q | q in t.resets
      ensures WasCurrent(t, t.resets[q], 0)
    {
      if q == r {
        assert s.cell.version == s.chain[0].version + |s.log|;
      } else {
        WasCurrentLifts(s, t, s.resets[q], 0);
      }
    }
  }

  /** Everything but the resets carries over when processes, calls and answers stay as they are. */
  lemma ResetFrame<S, R>(sys: System<S>, s: State<S, R>, t: State<S, R>)
    requires Inv(sys, s) && Extends(s, t) && Chained(sys, t)
    requires t.processes == s.processes && t.calls == s.calls && t.answers == s.answers
    requires forall i: nat :: |s.log| <= i < |t.log| ==> t.log[i].WasReset?
    requires ResetsOk(t) || t.chain == s.chain
    ensures ResetsOk(t) ==> Inv(sys, t)
  {
    EntriesLift(s, t);
    AnswersLift(s, t);
    forall q: nat | q < |t.processes|
      ensures QueueOk(t, q) && PhaseOk(sys, t, q)
    {
      assert QueueOk(s, q) && PhaseOk(sys, s, q);
      ProcessLifts(sys, s, t, q);
    }
    forall i: nat | i < |t.log|
      ensures EntryOk(t, i)
    {
    }
    assert Ordered(t) by {
      forall i: nat, j: nat | i < j < |t.log| && SameProcess(t, i, j)
        ensures t.log[i].call < t.log[j].call
      {
        assert SameProcess(s, i, j);
      }
      forall i: nat, q: nat | i < |t.log| && LoggedBy(t, i, q)
        ensures BeforeQueue(t, i, q)
      {
        assert LoggedBy(s, i, q);
        assert BeforeQueue(s, i, q);
      }
    }
    forall id: nat | id < |t.calls|
      ensures Accounted(t, id)
    {
      assert Accounted(s, id);
    }
  }

  lemma ResetWriteKeeps<S, R>(sys: System<S>, s: State<S, R>, r: nat)
    requires Inv(sys, s) && r in s.resets
    ensures Inv(sys, DoResetWrite(sys, s, r))
  {
    var t := DoResetWrite(sys, s, r);
    var seen := s.resets[r];
    if WriteWins(s, seen.version) {
      WinnerSawCurrent(sys, s, seen, 0);
      InstallKeepsChain(sys, s, sys.seed, WasReset);
      LinksLift(sys, Install(s, Versioned(seen.version + 1, sys.seed), WasReset), t);
    } else {
      LinksLift(sys, s, t);
    }
    ResetsLift(s, t);
    ResetFrame(sys, s, t);
  }

  lemma StepKeeps<S, R>(sys: System<S>, s: State<S, R>, a: Action<S, R>)
    requires Inv(sys, s)
    ensures Inv(sys, Step(sys, s, a))
  {
    match a
    case Submit(p, fn) => if p < |s.processes| { SubmitKeeps(sys, s, p, fn); }
    case Read(p) => if Busy(s, p) && s.processes[p].phase.Idle? { ReadKeeps(sys, s, p); }
    case Compute(p, nonce) =>
      if Busy(s, p) && s.processes[p].phase.HasRead? && s.processes[p].queue[0] < |s.calls| {
        ComputeKeeps(sys, s, p, nonce);
      }
    case Write(p) =>
      if Busy(s, p) && s.processes[p].phase.Computed? {
        if WriteWins(s, s.processes[p].phase.seen.version) {
          CommitKeeps(sys, s, p);
        } else {
          LostRaceKeeps(sys, s, p);
        }
      }
    case ResetRead(r) => if r !in s.resets { ResetReadKeeps(sys, s, r); }
    case ResetWrite(r) => if r in s.resets { ResetWriteKeeps(sys, s, r); }
  }

  lemma {:induction false} RunKeeps<S, R>(sys: System<S>, s: State<S, R>, actions: seq<Action<S, R>>)
    requires Inv(sys, s)
    ensures Inv(sys, Run(sys, s, actions))
    decreases |actions|
  {
    if actions != [] {
      StepKeeps(sys, s, actions[0]);
      RunKeeps(sys, Step(sys, s, actions[0]), actions[1..]);
    }
  }

  // ----- serialisability -----

  /** The sequential machine: one entry applied to one snapshot body. */
  ghost function Apply<S, R>(sys: System<S>, calls: seq<Call<S, R>>, entry: Entry<R>, body: S): S {
    match entry
    case WasReset => sys.seed
    case Mutated(call, nonce, _) =>
      if call < |calls| && calls[call].fn(body, nonce).Updated?
      then sys.touch(calls[call].fn(body, nonce).body, nonce) else body
  }

  ghost function Replay<S, R>(sys: System<S>, calls: seq<Call<S, R>>, log: seq<Entry<R>>, body: S): S {
    if log == [] then body
    else Apply(sys, calls, log[|log| - 1], Replay(sys, calls, log[..|log| - 1], body))
  }

  lemma {:induction false} ChainIsReplay<S, R>(sys: System<S>, s: State<S, R>, n: nat)
    requires Chained(sys, s) && n <= |s.log|
    ensures s.chain[n].body == Replay(sys, s.calls, s.log[..n], s.chain[0].body)
  {
    if n > 0 {
      ChainIsReplay(sys, s, n - 1);
      assert Link(sys, s, n - 1);
      assert s.log[..n][..n - 1] == s.log[..n - 1];
    }
  }

  lemma StepExtends<S, R>(sys: System<S>, s: State<S, R>, a: Action<S, R>)
    requires Inv(sys, s)
    ensures Extends(s, Step(sys, s, a))
    ensures forall id: nat :: |s.calls| <= id < |Step(sys, s, a).calls| ==> Step(sys, s, a).calls[id].born >= |s.log|
    ensures |Step(sys, s, a).processes| == |s.processes|
  {
    hide Chained, PhaseOk, EntryOk, AnswerOk, Ordered, Accounted, ResetsOk;
    match a
    case Submit(p, fn) =>
    case Read(p) =>
    case Compute(p, nonce) => if Busy(s, p) { assert QueueOk(s, p) && Pending(s, p, s.processes[p].queue[0]); }
    case Write(p) => if Busy(s, p) { assert QueueOk(s, p) && Pending(s, p, s.processes[p].queue[0]); }
    case ResetRead(r) =>
    case ResetWrite(r) =>
  }

  /** History only grows, and a call made later is born later. */
  lemma {:induction false} RunExtends<S, R>(sys: System<S>, s: State<S, R>, actions: seq<Action<S, R>>)
    requires Inv(sys, s)
    ensures Extends(s, Run(sys, s, actions))
    ensures forall id: nat :: |s.calls| <= id < |Run(sys, s, actions).calls| ==>
            Run(sys, s, actions).calls[id].born >= |s.log|
    decreases |actions|
  {
    if actions != [] {
      var next := Step(sys, s, actions[0]);
      StepKeeps(sys, s, actions[0]);
      StepExtends(sys, s, actions[0]);
      RunExtends(sys, next, actions[1..]);
      var t := Run(sys, next, actions[1..]);
      forall id: nat | |s.calls| <= id < |t.calls|
        ensures t.calls[id].born >= |s.log|
      {
        if id < |next.calls| {
          assert t.calls[id] == next.calls[id];
        }
      }
    }
  }

  /** The stored snapshot is what the sequential machine makes of the commits, one version for each. */
  lemma Serialisable<S, R>(sys: System<S>, s: State<S, R>, actions: seq<Action<S, R>>)
    requires Initial(s)
    ensures var t := Run(sys, s, actions);
            && t.cell.body == Replay(sys, t.calls, t.log, s.cell.body)
            && t.cell.version == s.cell.version + |t.log|
  {
    InitialInv(sys, s);
    RunKeeps(sys, s, actions);
    RunExtends(sys, s, actions);
    var t := Run(sys, s, actions);
    assert t.chain[0] == s.chain[0];
    ChainIsReplay(sys, t, |t.log|);
    assert t.log[..|t.log|] == t.log;
  }

  /** A result handed to a caller is the one the sequential machine computes at the commit of that call. */
  lemma ResultIsSequential<S, R>(sys: System<S>, s: State<S, R>, actions: seq<Action<S, R>>, id: nat)
    requires Initial(s)
    requires var t := Run(sys, s, actions); id in t.answers && t.answers[id].Returned?
    ensures var t := Run(sys, s, actions);
            var Returned(result, i) := t.answers[id];
            && id < |t.calls| && t.calls[id].born <= i < |t.log|
            && t.log[i].Mutated? && t.log[i].call == id
            && var outcome := t.calls[id].fn(Replay(sys, t.calls, t.log[..i], s.cell.body), t.log[i].nonce);
            outcome.Updated? && outcome.result == result
  {
    InitialInv(sys, s);
    RunKeeps(sys, s, actions);
    RunExtends(sys, s, actions);
    var t := Run(sys, s, actions);
    assert t.chain[0] == s.chain[0];
    assert AnswerOk(t, id);
    var i := t.answers[id].entry;
    assert EntryOk(t, i) && Link(sys, t, i);
    ChainIsReplay(sys, t, i);
  }

  /** What the sequential machine answers to call `id` after the first i commits of `t`. */
  ghost predicate AnswersAt<S, R>(sys: System<S>, s: State<S, R>, t: State<S, R>,
                                  id: nat, i: int, nonce: nat, outcome: Outcome<S, R>) {
    && id < |t.calls| && 0 <= i <= |t.log|
    && t.calls[id].fn(Replay(sys, t.calls, t.log[..i], s.cell.body), nonce) == outcome
  }

  /** An error handed to a caller is one the sequential machine gives at a commit between the call and the throw. */
  lemma ErrorIsSequential<S, R>(sys: System<S>, s: State<S, R>, actions: seq<Action<S, R>>, id: nat)
    requires Initial(s)
    requires var t := Run(sys, s, actions); id in t.answers && t.answers[id].Threw?
    ensures var t := Run(sys, s, actions);
            var Threw(error, version, at, nonce) := t.answers[id];
            && id < |t.calls| && at <= |t.log|
            && (exists i :: t.calls[id].born <= i <= at && AnswersAt(sys, s, t, id, i, nonce, Thrown(error)))
  {
    InitialInv(sys, s);
    RunKeeps(sys, s, actions);
    RunExtends(sys, s, actions);
    var t := Run(sys, s, actions);
    assert t.chain[0] == s.chain[0];
    assert AnswerOk(t, id);
    var k := t.answers[id].version - t.chain[0].version;
    ChainIsReplay(sys, t, k);
    assert AnswersAt(sys, s, t, id, k, t.answers[id].nonce, Thrown(t.answers[id].error));
  }

  ghost predicate CommittedAt<S, R>(s: State<S, R>, id: nat, i: nat) {
    i < |s.log| && s.log[i].Mutated? && s.log[i].call == id
  }

  /** A call that returned is in the log exactly once; one that threw, was refused or still waits is not. */
  lemma ExactlyOnce<S, R>(sys: System<S>, s: State<S, R>, actions: seq<Action<S, R>>, id: nat)
    requires Initial(s) && id < |Run(sys, s, actions).calls|
    ensures var t := Run(sys, s, actions);
            && ((exists i :: CommittedAt(t, id, i)) <==> (id in t.answers && t.answers[id].Returned?))
            && (forall i, j :: CommittedAt(t, id, i) && CommittedAt(t, id, j) ==> i == j)
            && var p := t.calls[id].process;
            (id in t.answers || (p < |t.processes| && id in t.processes[p].queue))
  {
    InitialInv(sys, s);
    RunKeeps(sys, s, actions);
    var t := Run(sys, s, actions);
    forall i: nat | CommittedAt(t, id, i)
      ensures id in t.answers && t.answers[id] == Returned(t.log[i].result, i)
    {
      assert EntryOk(t, i);
    }
    if id in t.answers && t.answers[id].Returned? {
      assert AnswerOk(t, id);
      assert CommittedAt(t, id, t.answers[id].entry);
    }
    assert Accounted(t, id);
  }

  /** The commits of one process come in the order in which it made the calls. */
  lemma CallOrder<S, R>(sys: System<S>, s: State<S, R>, actions: seq<Action<S, R>>, a: nat, b: nat, i: nat, j: nat)
    requires Initial(s)
    requires var t := Run(sys, s, actions);
             && a < b < |t.calls| && t.calls[a].process == t.calls[b].process
             && CommittedAt(t, a, i) && CommittedAt(t, b, j)
    ensures i < j
  {
    InitialInv(sys, s);
    RunKeeps(sys, s, actions);
    var t := Run(sys, s, actions);
    if j < i {
      assert SameProcess(t, j, i);
    }
  }

  /** Across all processes: a call made after another one returned commits after it. */
  lemma RealTimeOrder<S, R>(sys: System<S>, s: State<S, R>, before: seq<Action<S, R>>, after: seq<Action<S, R>>,
                            a: nat, b: nat)
    requires Initial(s)
    requires var m := Run(sys, s, before); a in m.answers && m.answers[a].Returned? && |m.calls| <= b
    requires var t := Run(sys, Run(sys, s, before), after); b in t.answers && t.answers[b].Returned?
    ensures var t := Run(sys, Run(sys, s, before), after);
            a in t.answers && t.answers[a].Returned? && t.answers[a].entry < t.answers[b].entry
  {
    InitialInv(sys, s);
    RunKeeps(sys, s, before);
    var m := Run(sys, s, before);
    RunKeeps(sys, m, after);
    RunExtends(sys, m, after);
    var t := Run(sys, m, after);
    assert AnswerOk(m, a) && AnswerOk(t, b);
    assert EntryOk(t, t.answers[b].entry);
  }

  /** A call is refused for contention only after at least six other commits since it was made. */
  lemma RefusedOnlyUnderContention<S, R>(sys: System<S>, s: State<S, R>, actions: seq<Action<S, R>>, id: nat)
    requires Initial(s)
    requires var t := Run(sys, s, actions); id in t.answers && t.answers[id].Refused?
    ensures var t := Run(sys, s, actions);
            id < |t.calls| && t.calls[id].born + 6 <= t.answers[id].at <= |t.log|
  {
    InitialInv(sys, s);
    RunKeeps(sys, s, actions);
    assert AnswerOk(Run(sys, s, actions), id);
  }

  // ----- a process on its own -----

  ghost predicate NoResets<S, R>(actions: seq<Action<S, R>>) {
    forall i :: 0 <= i < |actions| ==> !actions[i].ResetRead? && !actions[i].ResetWrite?
  }

  /** The only process there is always works on the current snapshot, at its first attempt. */
  ghost predicate Undisturbed<S, R>(s: State<S, R>) {
    && |s.processes| == 1 && s.resets == map[]
    && s.processes[0].attempt == 0
    && (!s.processes[0].phase.Idle? ==> s.processes[0].phase.seen == s.cell)
    && forall id :: id in s.answers ==> !s.answers[id].Refused?
  }

  lemma {:induction false} StaysUndisturbed<S, R>(sys: System<S>, s: State<S, R>, actions: seq<Action<S, R>>)
    requires Undisturbed(s) && NoResets(actions)
    ensures Undisturbed(Run(sys, s, actions))
    decreases |actions|
  {
    if actions != [] {
      var next := Step(sys, s, actions[0]);
      assert Undisturbed(next);
      StaysUndisturbed(sys, next, actions[1..]);
    }
  }

  /** With one process and no reset the in-process queue removes all contention: every write wins. */
  lemma FirstAttemptWins<S, R>(sys: System<S>, s: State<S, R>, actions: seq<Action<S, R>>)
    requires Initial(s) && |s.processes| == 1 && NoResets(actions)
    ensures var t := Run(sys, s, actions);
            && |t.processes| == 1 && t.processes[0].attempt == 0
            && (t.processes[0].phase.Computed? ==> WriteWins(t, t.processes[0].phase.seen.version))
            && (forall id :: id in t.answers ==> !t.answers[id].Refused?)
  {
    assert Undisturbed(s);
    StaysUndisturbed(sys, s, actions);
  }

  /** A mutation committed between the read and the write of a reset: the reset is dropped and its caller not told. */
  lemma ResetCanBeLost<S, R>(sys: System<S>, s: State<S, R>, fn: Mutation<S, R>, nonce: nat)
    requires Initial(s) && |s.processes| > 0
    requires fn(s.cell.body, nonce).Updated?
    ensures var Updated(body, result) := fn(s.cell.body, nonce);
            var t := Run(sys, s, [ResetRead(0), Submit(0, fn), Read(0), Compute(0, nonce), Write(0), ResetWrite(0)]);
            && t.cell == Versioned(s.cell.version + 1, sys.touch(body, nonce))
            && t.log == [Mutated(0, nonce, result)] && t.resets == map[]
  {
    var actions := [ResetRead(0), Submit(0, fn), Read(0), Compute(0, nonce), Write(0), ResetWrite(0)];
    var s1 := s.(resets := map[0 := s.cell]);
    assert Step(sys, s, actions[0]) == s1 by { assert s.resets[0 := s.cell] == map[0 := s.cell]; }
    var idle := s.processes[0].(queue := [0]);
    var s2 := s1.(processes := s.processes[0 := idle], calls := [Call(0, fn, 0)]);
    assert Step(sys, s1, actions[1]) == s2 by {
      assert s.processes[0] == Process([], 0, Idle) && [] + [0] == [0];
      assert s1.calls + [Call(0, fn, 0)] == s2.calls;
    }
    var s3 := s2.(processes := s.processes[0 := idle.(phase := HasRead(s.cell))]);
    assert Step(sys, s2, actions[2]) == s3;
    var Updated(body, result) := fn(s.cell.body, nonce);
    var computed := Computed(s.cell, sys.touch(body, nonce), result, nonce);
    var s4 := s3.(processes := s.processes[0 := idle.(phase := computed)]);
    assert Step(sys, s3, actions[3]) == s4;
    var s5 := Step(sys, s4, actions[4]);
    assert s5.cell == Versioned(s.cell.version + 1, sys.touch(body, nonce));
    assert s5.log == [Mutated(0, nonce, result)] && s5.resets == map[0 := s.cell];
    RunSix(sys, s, actions);
  }

  lemma RunSix<S, R>(sys: System<S>, s: State<S, R>, a: seq<Action<S, R>>)
    requires |a| == 6
    ensures Run(sys, s, a)
            == Step(sys, Step(sys, Step(sys, Step(sys, Step(sys, Step(sys, s, a[0]), a[1]), a[2]), a[3]), a[4]), a[5])
  {
    hide Step;
    var s1 := Step(sys, s, a[0]);
    var s2 := Step(sys, s1, a[1]);
    var s3 := Step(sys, s2, a[2]);
    var s4 := Step(sys, s3, a[3]);
    var s5 := Step(sys, s4, a[4]);
    assert a[1..][1..] == a[2..] && a[2..][1..] == a[3..] && a[3..][1..] == a[4..] && a[4..][1..] == a[5..];
    assert Run(sys, s, a) == Run(sys, s1, a[1..]);
    assert Run(sys, s1, a[1..]) == Run(sys, s2, a[2..]);
    assert Run(sys, s2, a[2..]) == Run(sys, s3, a[3..]);
    assert Run(sys, s3, a[3..]) == Run(sys, s4, a[4..]);
    assert Run(sys, s4, a[4..]) == Run(sys, s5, a[5..]);
    assert Run(sys, s5, a[5..]) == Run(sys, Step(sys, s5, a[5]), []) by { assert a[5..][1..] == []; }
  }

  /** A reset takes effect exactly if nothing was committed between its read and its write. */
  lemma ResetLandsIfUndisturbed<S, R>(sys: System<S>, s: State<S, R>, before: seq<Action<S, R>>,
                                      between: seq<Action<S, R>>, r: nat)
    requires Initial(s) && r !in Run(sys, s, before).resets
    requires var m := Step(sys, Run(sys, s, before), ResetRead(r));
             forall i :: 0 <= i < |between| ==> between[i] != ResetWrite(r)
    ensures var m := Step(sys, Run(sys, s, before), ResetRead(r));
            var t := Run(sys, m, between);
            var u := Step(sys, t, ResetWrite(r));
            && (u.log == t.log + [WasReset] <==> |t.log| == |m.log|)
            && (|t.log| == |m.log| ==> u.cell == Versioned(t.cell.version + 1, sys.seed))
            && (|t.log| != |m.log| ==> u.cell == t.cell)
  {
    InitialInv(sys, s);
    RunKeeps(sys, s, before);
    StepKeeps(sys, Run(sys, s, before), ResetRead(r));
    var m := Step(sys, Run(sys, s, before), ResetRead(r));
    RunKeeps(sys, m, between);
    RunExtends(sys, m, between);
    PendingResetStays(sys, m, between, r);
    var t := Run(sys, m, between);
    assert t.chain[|m.log|] == m.chain[|m.log|] == m.cell;
    assert t.cell.version == t.chain[0].version + |t.log|;
    assert m.cell.version == t.chain[0].version + |m.log|;
  }

  lemma {:induction false} PendingResetStays<S, R>(sys: System<S>, s: State<S, R>, actions: seq<Action<S, R>>, r: nat)
    requires r in s.resets && forall i :: 0 <= i < |actions| ==> actions[i] != ResetWrite(r)
    ensures r in Run(sys, s, actions).resets && Run(sys, s, actions).resets[r] == s.resets[r]
    decreases |actions|
  {
    if actions != [] {
      PendingResetStays(sys, Step(sys, s, actions[0]), actions[1..], r);
    }
  }

  // ----- invariants of the snapshot itself -----

  /** `keeps` survives every function that was ever submitted, the time stamp and the seed. */
  ghost predicate Stable<S(!new), R(!new)>(sys: System<S>, calls: seq<Call<S, R>>, keeps: S -> bool) {
    && keeps(sys.seed)
    && (forall body, nonce {:trigger sys.touch(body, nonce)} :: keeps(body) ==> keeps(sys.touch(body, nonce)))
    && (forall i: nat :: i < |calls| ==> Preserves(calls[i].fn, keeps))
  }

  ghost predicate Preserves<S(!new), R(!new)>(fn: Mutation<S, R>, keeps: S -> bool) {
    forall body, nonce :: keeps(body) && fn(body, nonce).Updated? ==> keeps(fn(body, nonce).body)
  }

  lemma {:induction false} ReplayKeeps<S(!new), R(!new)>(sys: System<S>, calls: seq<Call<S, R>>, log: seq<Entry<R>>,
                                                         body: S, keeps: S -> bool)
    requires Stable(sys, calls, keeps) && keeps(body)
    ensures keeps(Replay(sys, calls, log, body))
  {
    if log != [] {
      ReplayKeeps(sys, calls, log[..|log| - 1], body, keeps);
    }
  }

  /** What every single mutation keeps holds of the stored snapshot after any interleaving. */
  lemma SnapshotInvariant<S(!new), R(!new)>(sys: System<S>, s: State<S, R>, actions: seq<Action<S, R>>,
                                                keeps: S -> bool)
    requires Initial(s) && keeps(s.cell.body)
    requires Stable(sys, Run(sys, s, actions).calls, keeps)
    ensures keeps(Run(sys, s, actions).cell.body)
  {
    Serialisable(sys, s, actions);
    var t := Run(sys, s, actions);
    ReplayKeeps(sys, t.calls, t.log, s.cell.body, keeps);
  }
}
