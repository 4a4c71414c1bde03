/** What staging, confirming and retiring a booking take, and what a confirmation token is good for. */
module BookingProofs {
  import opened Domain
  import opened Wrappers
  import opened Policy
  import opened Ledger
  import opened LedgerProofs

  ghost predicate IsWinner(collate: Collation, s: Snapshot, offerId: nat) {
    exists w :: Winner(collate, s.carriers, s.offers) == Some(w) && w.id == offerId
  }

  /** A booking under way: neither superseded nor rejected. */
  ghost predicate Occupied(s: Snapshot) {
    s.commitment.Some? && s.commitment.value.status != Superseded && s.commitment.value.status != Rejected
  }

  // ----- staging -----

  lemma {:induction false} FindCarrierFinds(carriers: seq<Carrier>, id: string)
    ensures FindCarrier(carriers, id).Some? <==> exists c :: c in carriers && c.id == id
  {
    if carriers != [] && carriers[0].id != id {
      FindCarrierFinds(carriers[1..], id);
      assert carriers == [carriers[0]] + carriers[1..];
    }
  }

  /** A booking is staged exactly for the winner of a known carrier while no other booking is under way. */
  lemma StagedExactlyForWinner(collate: Collation, s: Snapshot, now: int, operationId: string, offerId: nat,
                               callId: nat, tokenHash: nat)
    requires DistinctIds(s.offers)
    ensures var r := StageBooking(collate, s, now, operationId, offerId, callId, tokenHash);
            r.Ok? <==>
              && s.operation.id == operationId && IsWinner(collate, s, offerId) && !Occupied(s)
              && exists c, o :: c in s.carriers && o in s.offers && o.id == offerId && c.id == o.carrierId
  {
    var winner := Winner(collate, s.carriers, s.offers);
    BookableExactlyWinner(collate, s, offerId);
    WinnerIsLive(collate, s.carriers, s.offers);
    FindOfferFinds(s.offers, offerId);
    if winner.Some? {
      FindCarrierFinds(s.carriers, winner.value.carrierId);
      assert winner.value in s.offers;
    }
  }

  /** What staging writes: a fresh proposal for the offer, good for twenty minutes with the one token. */
  lemma StagedProposal(collate: Collation, s: Snapshot, now: int, operationId: string, offerId: nat, callId: nat,
                       tokenHash: nat)
    requires StageBooking(collate, s, now, operationId, offerId, callId, tokenHash).Ok?
    ensures var Done(t, c) := StageBooking(collate, s, now, operationId, offerId, callId, tokenHash).value;
            && t.commitment == Some(c) && c.id == s.nextId && c.status == Proposed
            && (c.offerId, c.bookingCallId, c.tokenHash) == (offerId, callId, tokenHash)
            && c.tokenExpiresAt - now == 20 * 60 * 1000
            && (exists o :: o in s.offers && o.id == offerId && o.carrierId == c.carrierId)
            && t.operation == s.operation.(status := Booking)
            && t.offers == s.offers && t.carriers == s.carriers && t.mandate == s.mandate && t.evidence == s.evidence
            && t.nextId > s.nextId
  {
    FindOfferFinds(s.offers, offerId);
  }

  // ----- confirming -----

  /** The token opens the booking it was issued for, in time, while its offer still wins. */
  lemma ConfirmedExactly(collate: Collation, s: Snapshot, now: int, id: nat, tokenHash: nat)
    requires DistinctIds(s.offers)
    ensures var r := ConfirmBooking(collate, s, now, id, tokenHash);
            && (r.Ok? <==> exists c ::
                  && s.commitment == Some(c) && c.id == id && c.status == Proposed
                  && now <= c.tokenExpiresAt && tokenHash == c.tokenHash && IsWinner(collate, s, c.offerId))
            && (r.Ok? ==>
                  var Done(t, c) := r.value;
                  && c == s.commitment.value.(status := VerballyConfirmed, verballyConfirmedAt := Some(now))
                  && t == s.(commitment := Some(c), decisions := t.decisions, events := t.events, nextId := t.nextId))
  {
    if s.commitment.Some? {
      BookableExactlyWinner(collate, s, s.commitment.value.offerId);
    }
  }

  /** Whatever else is wrong, an overdue token is reported first and a wrong one next. */
  lemma TokenErrorsComeFirst(collate: Collation, s: Snapshot, now: int, id: nat, tokenHash: nat)
    requires s.commitment.Some? && s.commitment.value.id == id
    ensures var r := ConfirmBooking(collate, s, now, id, tokenHash);
            && (r == Err(TokenExpired) <==> now > s.commitment.value.tokenExpiresAt)
            && (r == Err(InvalidToken) <==>
                  now <= s.commitment.value.tokenExpiresAt && tokenHash != s.commitment.value.tokenHash)
  {
  }

  ghost predicate LeavesBookings(ops: seq<Timed>) {
    forall i :: 0 <= i < |ops| ==> !TouchesCommitment(ops[i].op)
  }

  lemma {:induction false} RunLeavesBooking(collate: Collation, s: Snapshot, ops: seq<Timed>)
    requires LeavesBookings(ops) && LedgerOk(s)
    ensures RunOps(collate, s, ops).commitment == s.commitment && LedgerOk(RunOps(collate, s, ops))
  {
    if ops != [] {
      var init, last := ops[..|ops| - 1], ops[|ops| - 1];
      RunLeavesBooking(collate, s, init);
      var before := RunOps(collate, s, init);
      if Perform(collate, before, last.now, last.op).Ok? {
        CommitmentFrame(collate, before, last.now, last.op);
        PerformKeeps(collate, before, last.now, last.op);
      }
    }
  }

  /**
    A staged booking can be confirmed, whatever happens to the market meanwhile, exactly with its own token,
    within twenty minutes, and if its offer is the winner then.
   */
  lemma StagedTokenConfirms(collate: Collation, s: Snapshot, t0: int, operationId: string, offerId: nat, callId: nat,
                            issued: nat, meanwhile: seq<Timed>, t1: int, shown: nat)
    requires LedgerOk(s) && LeavesBookings(meanwhile)
    requires StageBooking(collate, s, t0, operationId, offerId, callId, issued).Ok?
    ensures var Done(staged, c) := StageBooking(collate, s, t0, operationId, offerId, callId, issued).value;
            var late := RunOps(collate, staged, meanwhile);
            ConfirmBooking(collate, late, t1, c.id, shown).Ok? <==>
              shown == issued && t1 - t0 <= 20 * 60 * 1000 && IsWinner(collate, late, offerId)
  {
    var op := OpStageBooking(operationId, offerId, callId, issued);
    var Done(staged, c) := StageBooking(collate, s, t0, operationId, offerId, callId, issued).value;
    StagedProposal(collate, s, t0, operationId, offerId, callId, issued);
    PerformKeeps(collate, s, t0, op);
    RunLeavesBooking(collate, staged, meanwhile);
    var late := RunOps(collate, staged, meanwhile);
    ConfirmedExactly(collate, late, t1, c.id, shown);
    assert late.commitment == Some(c);
  }

  // ----- a token is good once -----

  /** The booking of this id, if it is still the current one, waits for no confirmation. */
  ghost predicate Spent(s: Snapshot, id: nat) {
    id < s.nextId && (s.commitment.Some? && s.commitment.value.id == id ==> s.commitment.value.status != Proposed)
  }

  lemma PerformKeepsSpent(collate: Collation, s: Snapshot, now: int, op: Op, id: nat)
    requires Spent(s, id) && Perform(collate, s, now, op).Ok?
    ensures Spent(Perform(collate, s, now, op).value, id)
  {
    hide AssertOfferBookable, FindCarrier, FindDecision;
    if !TouchesCommitment(op) {
      CommitmentFrame(collate, s, now, op);
    }
  }

  lemma {:induction false} RunKeepsSpent(collate: Collation, s: Snapshot, ops: seq<Timed>, id: nat)
    requires Spent(s, id)
    ensures Spent(RunOps(collate, s, ops), id)
  {
    if ops != [] {
      var init, last := ops[..|ops| - 1], ops[|ops| - 1];
      RunKeepsSpent(collate, s, init, id);
      var before := RunOps(collate, s, init);
      if Perform(collate, before, last.now, last.op).Ok? {
        PerformKeepsSpent(collate, before, last.now, last.op, id);
      }
    }
  }

  lemma SpentIsRefused(collate: Collation, s: Snapshot, now: int, id: nat, tokenHash: nat)
    requires Spent(s, id)
    ensures ConfirmBooking(collate, s, now, id, tokenHash).Err?
  {
    hide AssertOfferBookable;
  }

  lemma ConfirmingSpends(collate: Collation, s: Snapshot, now: int, id: nat, tokenHash: nat)
    requires CommitmentOk(s) && ConfirmBooking(collate, s, now, id, tokenHash).Ok?
    ensures Spent(ConfirmBooking(collate, s, now, id, tokenHash).value.state, id)
  {
    hide AssertOfferBookable, FindDecision;
  }

  /** No booking is confirmed twice, with any token, whatever happens in between. */
  lemma ConfirmedOnce(collate: Collation, s: Snapshot, now: int, id: nat, tokenHash: nat, ops: seq<Timed>,
                      later: int, shown: nat)
    requires LedgerOk(s) && ConfirmBooking(collate, s, now, id, tokenHash).Ok?
    ensures var t := ConfirmBooking(collate, s, now, id, tokenHash).value.state;
            ConfirmBooking(collate, RunOps(collate, t, ops), later, id, shown).Err?
  {
    hide ConfirmBooking, MarketOk, WindowOk, Spent;
    var t := ConfirmBooking(collate, s, now, id, tokenHash).value.state;
    ConfirmingSpends(collate, s, now, id, tokenHash);
    RunKeepsSpent(collate, t, ops, id);
    SpentIsRefused(collate, RunOps(collate, t, ops), later, id, shown);
  }

  // ----- recap, evidence, retirement -----

  /**
    On a reachable ledger the recap follows exactly the confirmation, evidence may be linked to anything but a
    proposal, and a booking is retired once, from any standing. Recap and evidence together commit.
   */
  lemma ClosingAcceptedExactly(s: Snapshot, now: int, id: nat, messageSid: string, segment: string)
    requires CommitmentOk(s)
    ensures var named := s.commitment.Some? && s.commitment.value.id == id;
            var recap, link := MarkRecapSent(s, now, id, messageSid), LinkEvidence(s, now, id, segment);
            && (recap.Ok? <==> named && s.commitment.value.status == VerballyConfirmed)
            && (link.Ok? <==> named && s.commitment.value.status != Proposed)
            && (SupersedeCommitment(s, id).Ok? <==> named && s.commitment.value.status != Superseded)
    ensures var recap := MarkRecapSent(s, now, id, messageSid);
            recap.Ok? ==>
              var Done(t, c) := recap.value;
              && t.commitment == Some(c) && t.evidence == s.evidence
              && c.recapSentAt == Some(now) && c.messageSid == Some(messageSid)
              && (c.status, c.committedAt) == (if HasEvidence(s) then (Committed, Some(now)) else (RecapSent, None))
              && t.operation.status == (if HasEvidence(s) then OperationCommitted else s.operation.status)
    ensures var link := LinkEvidence(s, now, id, segment);
            link.Ok? ==>
              var Done(t, e) := link.value;
              var waited := s.commitment.value.status == RecapSent;
              && t.evidence == Some(e) && e == Evidence(s.nextId, id, segment, now)
              && t.commitment.value.status == (if waited then Committed else s.commitment.value.status)
              && (waited ==> t.commitment.value.committedAt == Some(now))
              && t.operation.status == (if waited then OperationCommitted else s.operation.status)
  {
  }

  /** Retiring a booking drops its evidence and frees the place for another. */
  lemma SupersedingFrees(s: Snapshot, id: nat)
    requires SupersedeCommitment(s, id).Ok?
    ensures var Done(t, c) := SupersedeCommitment(s, id).value;
            && t.commitment == Some(c) && c == s.commitment.value.(status := Superseded)
            && !Occupied(t) && t.evidence.None? && t.operation == s.operation.(status := AtRisk)
            && t.offers == s.offers && t.carriers == s.carriers && t.mandate == s.mandate
  {
  }
}
