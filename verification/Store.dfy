/**
  The optimistic snapshot store. Every process queues its mutations and works them off one at a time;
  an attempt reads the snapshot, computes on a clone, and writes back only if the version it read is
  still the current one. Reads, computations and writes of different processes interleave freely.
 */
module Store {

  const MAX_ATTEMPTS := 6

  datatype Versioned<S> = Versioned(version: nat, body: S)

  datatype Outcome<S, R> = Updated(body: S, result: R) | Thrown(error: string)

  /** The second argument stands for everything an attempt draws from its surroundings: clock and fresh ids. */
  type Mutation<!S, !R> = (S, nat) -> Outcome<S, R>

  /** What all processes share in code: the time stamping of a written snapshot, and the seed. */
  datatype System<!S> = System(touch: (S, nat) -> S, seed: S)

  /** A call to `mutate`; `born` is how many snapshots had been committed when it was made. */
  datatype Call<!S, !R> = Call(process: nat, fn: Mutation<S, R>, born: nat)

  datatype Phase<S, R> =
    | Idle
    | HasRead(seen: Versioned<S>)
    | Computed(seen: Versioned<S>, next: S, result: R, nonce: nat)

  /** The write queue holds the numbers of the pending calls; the head is the one being attempted. */
  datatype Process<S, R> = Process(queue: seq<nat>, attempt: nat, phase: Phase<S, R>)

  datatype Entry<R> = Mutated(call: nat, nonce: nat, result: R) | WasReset

  datatype Answer<R> =
    | Returned(result: R, entry: nat)
    | Threw(error: string, version: nat, at: nat, nonce: nat)
    | Refused(at: nat)

  /** `cell` is the stored snapshot; `calls`, `log`, `chain` and `answers` record what has happened. */
  datatype State<!S, !R> = State(
    cell: Versioned<S>,
    processes: seq<Process<S, R>>,
    resets: map<nat, Versioned<S>>,
    calls: seq<Call<S, R>>,
    log: seq<Entry<R>>,
    chain: seq<Versioned<S>>,
    answers: map<nat, Answer<R>>
  )

  datatype Action<!S, !R> =
    | Submit(process: nat, fn: Mutation<S, R>)
    | Read(process: nat)
    | Compute(process: nat, nonce: nat)
    | Write(process: nat)
    | ResetRead(reset: nat)
    | ResetWrite(reset: nat)

  ghost predicate Busy<S, R>(s: State<S, R>, p: nat) {
    p < |s.processes| && s.processes[p].queue != []
  }

  ghost function Finish<S, R>(s: State<S, R>, p: nat, answer: Answer<R>): State<S, R>
    requires Busy(s, p)
  {
    var queue := s.processes[p].queue;
    s.(processes := s.processes[p := Process(queue[1..], 0, Idle)],
       answers := s.answers[queue[0] := answer])
  }

  ghost function Install<S, R>(s: State<S, R>, next: Versioned<S>, entry: Entry<R>): State<S, R> {
    s.(cell := next, log := s.log + [entry], chain := s.chain + [next])
  }

  /** The compare-and-swap write of the in-memory store. */
  ghost predicate WriteWins<S, R>(s: State<S, R>, expected: nat) {
    s.cell.version == expected
  }

  ghost function DoCompute<S, R>(sys: System<S>, s: State<S, R>, p: nat, nonce: nat): State<S, R>
    requires Busy(s, p) && s.processes[p].phase.HasRead? && s.processes[p].queue[0] < |s.calls|
  {
    var proc := s.processes[p];
    var seen := proc.phase.seen;
    match s.calls[proc.queue[0]].fn(seen.body, nonce)
    case Thrown(error) => Finish(s, p, Threw(error, seen.version, |s.log|, nonce))
    case Updated(body, result) =>
      s.(processes := s.processes[p := proc.(phase := Computed(seen, sys.touch(body, nonce), result, nonce))])
  }

  ghost function DoWrite<S, R>(s: State<S, R>, p: nat): State<S, R>
    requires Busy(s, p) && s.processes[p].phase.Computed?
  {
    var proc := s.processes[p];
    var Computed(seen, next, result, nonce) := proc.phase;
    if WriteWins(s, seen.version) then
      Finish(Install(s, Versioned(seen.version + 1, next), Mutated(proc.queue[0], nonce, result)),
             p, Returned(result, |s.log|))
    else if proc.attempt + 1 < MAX_ATTEMPTS then
      s.(processes := s.processes[p := proc.(attempt := proc.attempt + 1, phase := Idle)])
    else
      Finish(s, p, Refused(|s.log|))
  }

  ghost function DoResetWrite<S, R>(sys: System<S>, s: State<S, R>, r: nat): State<S, R>
    requires r in s.resets
  {
    var seen := s.resets[r];
    var s1 := s.(resets := s.resets - {r});
    if WriteWins(s, seen.version) then Install(s1, Versioned(seen.version + 1, sys.seed), WasReset) else s1
  }

  /** One atomic step of one participant. An action that is not enabled changes nothing. */
  ghost function Step<S, R>(sys: System<S>, s: State<S, R>, a: Action<S, R>): State<S, R> {
    match a
    case Submit(p, fn) =>
      if p < |s.processes| then
        var proc := s.processes[p];
        s.(processes := s.processes[p := proc.(queue := proc.queue + [|s.calls|])],
           calls := s.calls + [Call(p, fn, |s.log|)])
      else s
    case Read(p) =>
      if Busy(s, p) && s.processes[p].phase.Idle? then
        s.(processes := s.processes[p := s.processes[p].(phase := HasRead(s.cell))])
      else s
    case Compute(p, nonce) =>
      if Busy(s, p) && s.processes[p].phase.HasRead? && s.processes[p].queue[0] < |s.calls| then
        DoCompute(sys, s, p, nonce)
      else s
    case Write(p) =>
      if Busy(s, p) && s.processes[p].phase.Computed? then DoWrite(s, p) else s
    case ResetRead(r) =>
      if r !in s.resets then s.(resets := s.resets[r := s.cell]) else s
    case ResetWrite(r) =>
      if r in s.resets then DoResetWrite(sys, s, r) else s
  }

  ghost function Run<S, R>(sys: System<S>, s: State<S, R>, actions: seq<Action<S, R>>): State<S, R>
    decreases |actions|
  {
    if actions == [] then s else Run(sys, Step(sys, s, actions[0]), actions[1..])
  }

  ghost predicate Initial<S, R>(s: State<S, R>) {
    && (forall p :: 0 <= p < |s.processes| ==> s.processes[p] == Process([], 0, Idle))
    && s.resets == map[] && s.calls == [] && s.log == [] && s.chain == [s.cell] && s.answers == map[]
  }
}
