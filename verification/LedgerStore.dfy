/** The in-memory store with its retry loop, and the ledger run through it by any number of processes. */
module LedgerStore {
  import opened Store
  import opened StoreProofs
  import opened Domain
  import opened Wrappers
  import opened Policy
  import opened Ledger
  import opened LedgerProofs

  // ----- the retry loop of one mutation -----

  datatype Ending<R> = Result(result: R) | Error(error: string) | GaveUp

  datatype Ended<S, R> = Ended(cell: Versioned<S>, ending: Ending<R>)

  /** The cell after other instances have committed some bodies on top of it. */
  function Overtaken<S>(cell: Versioned<S>, bodies: seq<S>): Versioned<S> {
    if bodies == [] then cell else Versioned(cell.version + |bodies|, bodies[|bodies| - 1])
  }

  /** The attempts from the k-th on; `rivals[k]` is what others commit between its read and its write. */
  function Attempts<S, R>(sys: System<S>, fn: Mutation<S, R>, cell: Versioned<S>, nonces: seq<nat>, rivals: seq<seq<S>>,
                          k: nat)
    : Ended<S, R>
    requires |nonces| == |rivals| == MAX_ATTEMPTS && k <= MAX_ATTEMPTS
    decreases MAX_ATTEMPTS - k
  {
    if k == MAX_ATTEMPTS then Ended(cell, GaveUp)
    else
      match fn(cell.body, nonces[k])
      case Thrown(error) => Ended(Overtaken(cell, rivals[k]), Error(error))
      case Updated(body, result) =>
        if rivals[k] == [] then Ended(Versioned(cell.version + 1, sys.touch(body, nonces[k])), Result(result))
        else Attempts(sys, fn, Overtaken(cell, rivals[k]), nonces, rivals, k + 1)
  }

  function Total<S>(rivals: seq<seq<S>>): nat {
    if rivals == [] then 0 else |rivals[0]| + Total(rivals[1..])
  }

  /** What attempt j reads, when attempt k read this cell and all attempts in between were overtaken. */
  function ReadAt<S>(cell: Versioned<S>, rivals: seq<seq<S>>, k: nat, j: nat): (seen: Versioned<S>)
    requires k <= j <= |rivals|
    ensures seen.version == cell.version + Total(rivals[k..j])
    decreases j - k
  {
    assert k < j ==> rivals[k..j][1..] == rivals[k + 1..j];
    if j == k then cell else ReadAt(Overtaken(cell, rivals[k]), rivals, k + 1, j)
  }

  /**
    The attempt that ends the loop is the first one not overtaken or throwing, and its answer is the
    mutation's on what it read: a result is stored one version up, an error stores nothing, and giving up
    means that every attempt was overtaken.
   */
  lemma {:induction false} AttemptsAddOneVersion<S, R>(sys: System<S>, fn: Mutation<S, R>, cell: Versioned<S>,
                                                       nonces: seq<nat>, rivals: seq<seq<S>>, k: nat)
    returns (last: nat)
    requires |nonces| == |rivals| == MAX_ATTEMPTS && k <= MAX_ATTEMPTS
    ensures k <= last <= MAX_ATTEMPTS
    ensures forall j :: k <= j < last ==>
              rivals[j] != [] && fn(ReadAt(cell, rivals, k, j).body, nonces[j]).Updated?
    ensures var e := Attempts(sys, fn, cell, nonces, rivals, k);
            var seen := ReadAt(cell, rivals, k, last);
            if last == MAX_ATTEMPTS then e == Ended(seen, GaveUp)
            else
              match fn(seen.body, nonces[last])
              case Thrown(error) => e == Ended(Overtaken(seen, rivals[last]), Error(error))
              case Updated(body, result) =>
                rivals[last] == [] &&
                e == Ended(Versioned(seen.version + 1, sys.touch(body, nonces[last])), Result(result))
    decreases MAX_ATTEMPTS - k
  {
    if k == MAX_ATTEMPTS || fn(cell.body, nonces[k]).Thrown? || rivals[k] == [] {
      last := k;
    } else {
      last := AttemptsAddOneVersion(sys, fn, Overtaken(cell, rivals[k]), nonces, rivals, k + 1);
    }
  }

  class MemoryStore<S> {
    var snapshot: Versioned<S>

    constructor (seed: Versioned<S>)
      ensures snapshot == seed
    {
      snapshot := seed;
    }

    method WriteSnapshot(next: Versioned<S>, expectedVersion: nat) returns (written: bool)
      modifies this
      ensures written <==> old(snapshot).version == expectedVersion
      ensures snapshot == if written then next else old(snapshot)
    {
      if snapshot.version != expectedVersion {
        return false;
      }
      snapshot := next;
      return true;
    }

    /** The commits of other instances that fall into this attempt. */
    method LetRivalsWrite(bodies: seq<S>)
      modifies this
      ensures snapshot == Overtaken(old(snapshot), bodies)
    {
      for i := 0 to |bodies|
        invariant snapshot == Overtaken(old(snapshot), bodies[..i])
      {
        snapshot := Versioned(snapshot.version + 1, bodies[i]);
      }
      assert bodies[..|bodies|] == bodies;
    }

    method AttemptMutation<R>(sys: System<S>, fn: Mutation<S, R>, nonces: seq<nat>, rivals: seq<seq<S>>)
      returns (r: Ending<R>)
      requires |nonces| == |rivals| == MAX_ATTEMPTS
      modifies this
      ensures Ended(snapshot, r) == Attempts(sys, fn, old(snapshot), nonces, rivals, 0)
    {
      for attempt := 0 to MAX_ATTEMPTS
        invariant Attempts(sys, fn, snapshot, nonces, rivals, attempt) ==
                  Attempts(sys, fn, old(snapshot), nonces, rivals, 0)
      {
        var seen := snapshot;
        var outcome := fn(seen.body, nonces[attempt]);
        LetRivalsWrite(rivals[attempt]);
        if outcome.Thrown? {
          return Error(outcome.error);
        }
        var next := Versioned(seen.version + 1, sys.touch(outcome.body, nonces[attempt]));
        var written := WriteSnapshot(next, seen.version);
        if written {
          return Result(outcome.result);
        }
      }
      return GaveUp;
    }
  }

  // ----- the ledger under concurrency -----

  function Message(error: Domain.Error): string {
    match error
    case OperationNotFound => "Operation not found"
    case EveryCarrierRequired => "Every configured carrier must be provided"
    case CallNotFound => "Call not found"
    case OfferNotFound => "Offer not found"
    case OfferSuperseded => "Superseded offer cannot be booked"
    case NotTheWinner => "Offer is not the current winner"
    case OfferViolatesMandate => "Offer violates the human mandate"
    case CarrierNotFound => "Carrier not found"
    case ActiveCommitmentExists => "An active commitment already exists"
    case CommitmentNotFound => "Commitment not found"
    case TokenExpired => "Confirmation token expired"
    case InvalidToken => "Invalid confirmation token"
    case InvalidTransition(_, _) => "Invalid commitment transition"
    case NothingConfirmed => "Cannot link evidence before the terms are verbally confirmed"
    case EscalationNotFound => "Escalation not found"
  }

  /** A ledger operation as the store runs it; the clock is what the attempt draws. */
  function AsMutation(collate: Collation, op: Op): Mutation<Snapshot, Snapshot> {
    (s: Snapshot, nonce: nat) =>
      match Perform(collate, s, nonce, op)
      case Ok(t) => Updated(t, t)
      case Err(error) => Thrown(Message(error))
  }

  ghost predicate Runs(collate: Collation, fn: Mutation<Snapshot, Snapshot>, op: Op) {
    forall s, nonce :: fn(s, nonce) == AsMutation(collate, op)(s, nonce)
  }

  ghost predicate RunsLedger(collate: Collation, fn: Mutation<Snapshot, Snapshot>) {
    exists op: Op :: Runs(collate, fn, op)
  }

  ghost function Rules(): Snapshot -> bool {
    (s: Snapshot) => LedgerOk(s)
  }

  lemma LedgerMutationPreserves(collate: Collation, fn: Mutation<Snapshot, Snapshot>)
    requires RunsLedger(collate, fn)
    ensures Preserves(fn, Rules())
  {
    var op: Op :| Runs(collate, fn, op);
    forall s, nonce: nat | LedgerOk(s) && fn(s, nonce).Updated?
      ensures LedgerOk(fn(s, nonce).body)
    {
      assert fn(s, nonce) == AsMutation(collate, op)(s, nonce);
      PerformKeeps(collate, s, nonce, op);
    }
  }

  /**
    However the processes interleave, the stored snapshot keeps the market and commitment rules: a
    standing commitment is COMMITTED exactly with all three proofs, and offers are counted revisions.
   */
  lemma BookingSafeUnderConcurrency(collate: Collation, sys: System<Snapshot>, s: State<Snapshot, Snapshot>,
                                    actions: seq<Action<Snapshot, Snapshot>>)
    requires Initial(s) && IsSeed(s.cell.body) && IsSeed(sys.seed)
    requires forall body, nonce :: sys.touch(body, nonce) == body
    requires forall i: nat :: i < |Run(sys, s, actions).calls| ==> RunsLedger(collate, Run(sys, s, actions).calls[i].fn)
    ensures var t := Run(sys, s, actions).cell.body;
            && LedgerOk(t)
            && (forall c :: Revisions(OffersOf(t.offers, c)))
            && (t.commitment.Some? && t.commitment.value.status != Superseded ==>
                  var c := t.commitment.value;
                  (c.status == Committed <==>
                    c.verballyConfirmedAt.Some? && c.recapSentAt.Some? && HasEvidence(t)))
  {
    var t := Run(sys, s, actions);
    ReachableOk(collate, s.cell.body, []);
    ReachableOk(collate, sys.seed, []);
    forall i: nat | i < |t.calls|
      ensures Preserves(t.calls[i].fn, Rules())
    {
      LedgerMutationPreserves(collate, t.calls[i].fn);
    }
    SnapshotInvariant(sys, s, actions, Rules());
  }
}
