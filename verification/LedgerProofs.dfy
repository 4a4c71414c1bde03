/** What every run of the ledger keeps. */
module LedgerProofs {
  import opened Domain
  import opened Wrappers
  import opened Policy
  import opened Ledger

  // ----- the market -----

  function OffersOf(offers: seq<Offer>, carrierId: string): seq<Offer> {
    if offers == [] then []
    else
      var before := OffersOf(offers[..|offers| - 1], carrierId);
      if offers[|offers| - 1].carrierId == carrierId then before + [offers[|offers| - 1]] else before
  }

  /** Revisions count up from 1 in recording order, and only the last one stands. */
  ghost predicate Revisions(offers: seq<Offer>) {
    forall i :: 0 <= i < |offers| ==>
      offers[i].revision == i + 1 && (offers[i].supersededAt.None? <==> i == |offers| - 1)
  }

  ghost predicate MarketOk(s: Snapshot) {
    && (forall c :: Revisions(OffersOf(s.offers, c)))
    && DistinctIds(s.offers)
    && (forall o :: o in s.offers ==> o.id < s.nextId)
  }

  lemma {:induction false} OffersOfMembers(offers: seq<Offer>, carrierId: string)
    ensures forall o :: o in OffersOf(offers, carrierId) <==> o in offers && o.carrierId == carrierId
  {
    if offers != [] {
      OffersOfMembers(offers[..|offers| - 1], carrierId);
      assert offers == offers[..|offers| - 1] + [offers[|offers| - 1]];
    }
  }

  /** With counted revisions the previous offer is the carrier's last one. */
  lemma {:induction false} PreviousIsLast(offers: seq<Offer>, carrierId: string)
    requires forall i :: 0 <= i < |OffersOf(offers, carrierId)| ==> OffersOf(offers, carrierId)[i].revision == i + 1
    ensures var mine := OffersOf(offers, carrierId); var i := PreviousOffer(offers, carrierId);
            if mine == [] then i == |offers| else i < |offers| && offers[i] == mine[|mine| - 1]
  {
    if offers != [] {
      var n := |offers| - 1;
      var mine, before := OffersOf(offers, carrierId), OffersOf(offers[..n], carrierId);
      forall i | 0 <= i < |before|
        ensures before[i].revision == i + 1
      {
        assert mine[i] == before[i];
      }
      PreviousIsLast(offers[..n], carrierId);
    }
  }

  /** Superseding the carrier's last offer changes that offer in its list, and nothing in the other lists. */
  lemma {:induction false} SupersedeInList(offers: seq<Offer>, i: nat, o: Offer, carrierId: string)
    requires i < |offers| && o.carrierId == offers[i].carrierId
    requires forall j :: i < j < |offers| ==> offers[j].carrierId != o.carrierId
    ensures var mine, after := OffersOf(offers, carrierId), OffersOf(offers[i := o], carrierId);
            if carrierId == o.carrierId then mine != [] && after == mine[|mine| - 1 := o] else after == mine
  {
    var n := |offers| - 1;
    if i < n {
      SupersedeInList(offers[..n], i, o, carrierId);
      assert offers[i := o][..n] == offers[..n][i := o];
    } else {
      assert offers[i := o][..n] == offers[..n];
    }
  }

  /** Nothing after the previous offer is by the same carrier. */
  lemma PreviousAndNothingAfter(offers: seq<Offer>, carrierId: string)
    requires Revisions(OffersOf(offers, carrierId))
    ensures var i := PreviousOffer(offers, carrierId);
            forall j :: i < j < |offers| ==> offers[j].carrierId != carrierId
  {
    var i := PreviousOffer(offers, carrierId);
    forall j | i < j < |offers|
      ensures offers[j].carrierId != carrierId
    {
      if offers[j].carrierId == carrierId {
        LaterIsHigher(offers, carrierId, i, j);
      }
    }
  }

  lemma {:induction false} LaterIsHigher(offers: seq<Offer>, carrierId: string, i: nat, j: nat)
    requires i < j < |offers| && offers[i].carrierId == offers[j].carrierId == carrierId
    requires forall k :: 0 <= k < |OffersOf(offers, carrierId)| ==> OffersOf(offers, carrierId)[k].revision == k + 1
    ensures offers[i].revision < offers[j].revision
  {
    var n := |offers| - 1;
    var mine, before := OffersOf(offers, carrierId), OffersOf(offers[..n], carrierId);
    assert forall k :: 0 <= k < |before| ==> mine[k] == before[k];
    if j < n {
      LaterIsHigher(offers[..n], carrierId, i, j);
    } else {
      OffersOfMembers(offers[..n], carrierId);
      assert offers[..n][i] in before;
      var k :| 0 <= k < |before| && before[k] == offers[i];
      assert mine[|before|] == offers[n];
    }
  }

  /** What recording an offer does to the list of each carrier. */
  lemma AddOfferToLists(s: Snapshot, now: int, input: OfferInput, carrierId: string)
    requires forall c :: Revisions(OffersOf(s.offers, c))
    ensures var added := AddOffer(s, now, input);
            Revisions(OffersOf(added.state.offers, carrierId))
    ensures var added := AddOffer(s, now, input);
            carrierId != input.carrierId ==> OffersOf(added.state.offers, carrierId) == OffersOf(s.offers, carrierId)
    ensures var added := AddOffer(s, now, input);
            carrierId == input.carrierId ==>
              && |OffersOf(added.state.offers, carrierId)| == |OffersOf(s.offers, carrierId)| + 1
              && added.value == OffersOf(added.state.offers, carrierId)[|OffersOf(s.offers, carrierId)|]
  {
    var c := input.carrierId;
    var i := PreviousOffer(s.offers, c);
    var mine := OffersOf(s.offers, c);
    assert Revisions(mine) && Revisions(OffersOf(s.offers, carrierId));
    PreviousIsLast(s.offers, c);
    var superseded := Supersede(s.offers, i, now);
    var added := AddOffer(s, now, input);
    assert added.state.offers[..|superseded|] == superseded;
    if i < |s.offers| {
      PreviousAndNothingAfter(s.offers, c);
      assert s.offers[i].supersededAt.None?;
      SupersedeInList(s.offers, i, s.offers[i].(supersededAt := Some(now)), carrierId);
    } else {
      OffersOfMembers(s.offers, c);
    }
  }

  lemma PushDecisionFrame(s: Snapshot, kind: string, outcome: Outcome, related: Option<nat>, key: Key)
    ensures var t := PushDecision(s, kind, outcome, related, key).state;
            t == s.(decisions := t.decisions, events := t.events, nextId := t.nextId) && t.nextId >= s.nextId
  {
  }

  lemma NoteOfferFrame(collate: Collation, s: Snapshot, offer: Offer)
    ensures var t := NoteOffer(collate, s, offer);
            t == s.(decisions := t.decisions, events := t.events, nextId := t.nextId) && t.nextId >= s.nextId
  {
    var s1 := PushEvent(s, if offer.eligible then "offer.eligible" else "offer.blocked");
    var outcome := if offer.eligible then Allow else Block;
    PushDecisionFrame(s1, "OFFER_EVALUATED", outcome, Some(offer.id), OfferEvaluated(offer.id));
    var s2 := PushDecision(s1, "OFFER_EVALUATED", outcome, Some(offer.id), OfferEvaluated(offer.id)).state;
    PushDecisionFrame(s2, "MARKET_WINNER_UPDATED", Select, Some(offer.id), OfferWinner(offer.id));
  }

  lemma RecordOfferKeepsMarket(collate: Collation, s: Snapshot, now: int, input: OfferInput)
    requires MarketOk(s) && RecordOffer(collate, s, now, input).Ok?
    ensures MarketOk(RecordOffer(collate, s, now, input).value.state)
  {
    hide NoteOffer, RestatesOffer, Revisions, OffersOf;
    var t := RecordOffer(collate, s, now, input).value.state;
    var added := AddOffer(s, now, input);
    NoteOfferFrame(collate, added.state, added.value);
    if t != s {
      forall c
        ensures Revisions(OffersOf(t.offers, c))
      {
        AddOfferToLists(s, now, input, c);
      }
    }
  }

  /** Every other mutation leaves the offers alone. */
  lemma OffersFrame(collate: Collation, s: Snapshot, now: int, op: Op)
    requires Perform(collate, s, now, op).Ok? && !op.OpRecordOffer?
    ensures Perform(collate, s, now, op).value.offers == s.offers
    ensures Perform(collate, s, now, op).value.nextId >= s.nextId
  {
    hide AssertOfferBookable, FindCarrier, TransitionCommitment, FindDecision, QuotesSettled, IndexOfCall, Renamed;
  }

  // ----- the commitment -----

  /** The stored evidence is about the current commitment. */
  ghost predicate HasEvidence(s: Snapshot) {
    s.commitment.Some? && s.evidence.Some? && s.evidence.value.commitmentId == s.commitment.value.id
  }

  ghost predicate StatusOk(c: Commitment, evidenced: bool) {
    match c.status
    case Proposed => c.verballyConfirmedAt.None? && c.recapSentAt.None? && c.committedAt.None? && !evidenced
    case VerballyConfirmed => c.verballyConfirmedAt.Some? && c.recapSentAt.None? && c.committedAt.None?
    case RecapSent => c.verballyConfirmedAt.Some? && c.recapSentAt.Some? && c.committedAt.None? && !evidenced
    case Committed => c.verballyConfirmedAt.Some? && c.recapSentAt.Some? && c.committedAt.Some? && evidenced
    case Superseded => true
    case _ => false
  }

  ghost predicate CommitmentOk(s: Snapshot) {
    && (s.evidence.Some? ==> s.evidence.value.commitmentId < s.nextId)
    && (s.commitment.Some? ==> s.commitment.value.id < s.nextId && StatusOk(s.commitment.value, HasEvidence(s)))
  }

  lemma StageKeepsCommitment(collate: Collation, s: Snapshot, now: int, operationId: string, offerId: nat, callId: nat,
                             tokenHash: nat)
    requires CommitmentOk(s)
    ensures var r := StageBooking(collate, s, now, operationId, offerId, callId, tokenHash);
            r.Ok? ==> CommitmentOk(r.value.state)
  {
  }

  lemma RecapKeepsCommitment(s: Snapshot, now: int, commitmentId: nat, messageSid: string)
    requires CommitmentOk(s)
    ensures var r := MarkRecapSent(s, now, commitmentId, messageSid); r.Ok? ==> CommitmentOk(r.value.state)
  {
  }

  lemma LinkKeepsCommitment(s: Snapshot, now: int, commitmentId: nat, segment: string)
    requires CommitmentOk(s)
    ensures var r := LinkEvidence(s, now, commitmentId, segment); r.Ok? ==> CommitmentOk(r.value.state)
  {
  }

  lemma ConfirmKeepsCommitment(collate: Collation, s: Snapshot, now: int, commitmentId: nat, tokenHash: nat)
    requires CommitmentOk(s)
    ensures var r := ConfirmBooking(collate, s, now, commitmentId, tokenHash); r.Ok? ==> CommitmentOk(r.value.state)
  {
  }

  lemma SupersedeKeepsCommitment(s: Snapshot, commitmentId: nat)
    requires CommitmentOk(s)
    ensures var r := SupersedeCommitment(s, commitmentId); r.Ok? ==> CommitmentOk(r.value.state)
  {
  }

  predicate TouchesCommitment(op: Op) {
    op.OpStageBooking? || op.OpConfirmBooking? || op.OpMarkRecapSent? || op.OpSupersedeCommitment? || op.OpLinkEvidence?
  }

  /** The other mutations leave commitment and evidence alone. */
  lemma CommitmentFrame(collate: Collation, s: Snapshot, now: int, op: Op)
    requires Perform(collate, s, now, op).Ok? && !TouchesCommitment(op)
    ensures var t := Perform(collate, s, now, op).value;
            t.commitment == s.commitment && t.evidence == s.evidence && t.nextId >= s.nextId
  {
    match op
    case OpRecordOffer(input) =>
      var added := AddOffer(s, now, input);
      NoteOfferFrame(collate, added.state, added.value);
    case OpRecordDecision(kind, outcome, related, key) => PushDecisionFrame(s, kind, outcome, related, key);
    case OpCreateEscalation(callId) =>
      var escalation := Escalation(s.nextId, callId, Open);
      var s1 := s.(escalation := Some(escalation), operation := s.operation.(status := AtRisk), nextId := s.nextId + 1);
      PushDecisionFrame(PushEvent(s1, "escalation.requested"), "HUMAN_HANDOFF_REQUIRED", Escalate, None,
        EscalationRequired(escalation.id));
    case _ =>
  }

  lemma PerformKeepsCommitment(collate: Collation, s: Snapshot, now: int, op: Op)
    requires CommitmentOk(s) && Perform(collate, s, now, op).Ok?
    ensures CommitmentOk(Perform(collate, s, now, op).value)
  {
    hide StageBooking, ConfirmBooking, MarkRecapSent, SupersedeCommitment, LinkEvidence, RecordOffer, CreateEscalation;
    hide UpdateConfiguration, CreateCall, UpdateCall, UpdateEscalation, PushDecision, PushEvent;
    match op
    case OpStageBooking(operationId, offerId, callId, tokenHash) =>
      StageKeepsCommitment(collate, s, now, operationId, offerId, callId, tokenHash);
    case OpConfirmBooking(commitmentId, tokenHash) => ConfirmKeepsCommitment(collate, s, now, commitmentId, tokenHash);
    case OpMarkRecapSent(commitmentId, messageSid) => RecapKeepsCommitment(s, now, commitmentId, messageSid);
    case OpSupersedeCommitment(commitmentId) => SupersedeKeepsCommitment(s, commitmentId);
    case OpLinkEvidence(commitmentId, segment) => LinkKeepsCommitment(s, now, commitmentId, segment);
    case _ => CommitmentFrame(collate, s, now, op);
  }

  // ----- decisions -----

  /** At most a hundred decisions and events are kept, and no two kept decisions share a key. */
  ghost predicate WindowOk(s: Snapshot) {
    && |s.decisions| <= WINDOW && |s.events| <= WINDOW
    && forall i, j :: 0 <= i < j < |s.decisions| ==> s.decisions[i].key != s.decisions[j].key
  }

  lemma {:induction false} FindDecisionFinds(decisions: seq<Decision>, key: Key)
    ensures FindDecision(decisions, key).None? <==> forall i :: 0 <= i < |decisions| ==> decisions[i].key != key
  {
    if decisions != [] && decisions[0].key != key {
      FindDecisionFinds(decisions[1..], key);
      forall i | 0 <= i < |decisions| && FindDecision(decisions, key).None?
        ensures decisions[i].key != key
      {
        if i > 0 { assert decisions[1..][i - 1] == decisions[i]; }
      }
    }
  }

  /** A decision is recorded at most once while it is in the window: repeating the call changes nothing. */
  lemma DecisionIdempotent(s: Snapshot, kind: string, outcome: Outcome, related: Option<nat>, key: Key)
    requires WindowOk(s)
    ensures var done := PushDecision(s, kind, outcome, related, key);
            && WindowOk(done.state)
            && (forall k, o, r :: PushDecision(done.state, k, o, r, key) == done)
            && (done.state == s <==> exists i :: 0 <= i < |s.decisions| && s.decisions[i].key == key)
  {
    FindDecisionFinds(s.decisions, key);
    var done := PushDecision(s, kind, outcome, related, key);
    if FindDecision(s.decisions, key).None? {
      assert done.state.decisions[0] == done.value;
      assert done.state.nextId != s.nextId;
    }
  }

  lemma StageKeepsWindow(collate: Collation, s: Snapshot, now: int, operationId: string, offerId: nat, callId: nat,
                         tokenHash: nat)
    requires WindowOk(s)
    ensures var r := StageBooking(collate, s, now, operationId, offerId, callId, tokenHash);
            r.Ok? ==> WindowOk(r.value.state)
  {
    var r := StageBooking(collate, s, now, operationId, offerId, callId, tokenHash);
    if r.Ok? {
      var s1 := s.(commitment := Some(r.value.value), operation := s.operation.(status := Booking),
                   nextId := s.nextId + 1);
      var bookable := AssertOfferBookable(collate, s, offerId);
      DecisionIdempotent(PushEvent(s1, "commitment.proposed"), "BOOKING_STAGED", Select, Some(bookable.value.id),
        BookingStaged(r.value.value.id));
    }
  }

  lemma ConfirmKeepsWindow(collate: Collation, s: Snapshot, now: int, commitmentId: nat, tokenHash: nat)
    requires WindowOk(s)
    ensures var r := ConfirmBooking(collate, s, now, commitmentId, tokenHash); r.Ok? ==> WindowOk(r.value.state)
  {
    var r := ConfirmBooking(collate, s, now, commitmentId, tokenHash);
    if r.Ok? {
      var c := r.value.value;
      var s1 := PushEvent(s.(commitment := Some(c)), "commitment.verbally_confirmed");
      DecisionIdempotent(s1, "BOOKING_CONFIRMED", Allow, Some(c.offerId), BookingConfirmed(c.id));
    }
  }

  lemma SupersedeKeepsWindow(s: Snapshot, commitmentId: nat)
    requires WindowOk(s)
    ensures var r := SupersedeCommitment(s, commitmentId); r.Ok? ==> WindowOk(r.value.state)
  {
    var r := SupersedeCommitment(s, commitmentId);
    if r.Ok? {
      var c := r.value.value;
      var s1 := s.(commitment := Some(c), evidence := None, operation := s.operation.(status := AtRisk));
      DecisionIdempotent(PushEvent(s1, "commitment.superseded"), "COMMITMENT_SUPERSEDED", Observe, Some(c.offerId),
        CommitmentSuperseded(c.id));
    }
  }

  lemma NoteOfferKeepsWindow(collate: Collation, s: Snapshot, offer: Offer)
    requires WindowOk(s)
    ensures WindowOk(NoteOffer(collate, s, offer))
  {
    var s1 := PushEvent(s, if offer.eligible then "offer.eligible" else "offer.blocked");
    var outcome := if offer.eligible then Allow else Block;
    DecisionIdempotent(s1, "OFFER_EVALUATED", outcome, Some(offer.id), OfferEvaluated(offer.id));
    var s2 := PushDecision(s1, "OFFER_EVALUATED", outcome, Some(offer.id), OfferEvaluated(offer.id)).state;
    DecisionIdempotent(s2, "MARKET_WINNER_UPDATED", Select, Some(offer.id), OfferWinner(offer.id));
  }

  lemma RecapKeepsWindow(s: Snapshot, now: int, commitmentId: nat, messageSid: string)
    requires WindowOk(s)
    ensures var r := MarkRecapSent(s, now, commitmentId, messageSid); r.Ok? ==> WindowOk(r.value.state)
  {
  }

  lemma LinkKeepsWindow(s: Snapshot, now: int, commitmentId: nat, segment: string)
    requires WindowOk(s)
    ensures var r := LinkEvidence(s, now, commitmentId, segment); r.Ok? ==> WindowOk(r.value.state)
  {
  }

  lemma EscalationKeepsWindow(s: Snapshot, callId: nat)
    requires WindowOk(s)
    ensures WindowOk(CreateEscalation(s, callId).state)
  {
    var escalation := Escalation(s.nextId, callId, Open);
    var s1 := s.(escalation := Some(escalation), operation := s.operation.(status := AtRisk), nextId := s.nextId + 1);
    DecisionIdempotent(PushEvent(s1, "escalation.requested"), "HUMAN_HANDOFF_REQUIRED", Escalate, None,
      EscalationRequired(escalation.id));
  }

  lemma PerformKeepsWindow(collate: Collation, s: Snapshot, now: int, op: Op)
    requires WindowOk(s) && Perform(collate, s, now, op).Ok?
    ensures WindowOk(Perform(collate, s, now, op).value)
  {
    match op
    case OpStageBooking(operationId, offerId, callId, tokenHash) =>
      StageKeepsWindow(collate, s, now, operationId, offerId, callId, tokenHash);
    case OpConfirmBooking(commitmentId, tokenHash) => ConfirmKeepsWindow(collate, s, now, commitmentId, tokenHash);
    case OpSupersedeCommitment(commitmentId) => SupersedeKeepsWindow(s, commitmentId);
    case OpRecordOffer(input) =>
      var added := AddOffer(s, now, input);
      NoteOfferKeepsWindow(collate, added.state, added.value);
    case OpRecordDecision(kind, outcome, related, key) => DecisionIdempotent(s, kind, outcome, related, key);
    case OpMarkRecapSent(commitmentId, messageSid) => RecapKeepsWindow(s, now, commitmentId, messageSid);
    case OpLinkEvidence(commitmentId, segment) => LinkKeepsWindow(s, now, commitmentId, segment);
    case OpCreateEscalation(callId) => EscalationKeepsWindow(s, callId);
    case _ =>
  }

  // ----- the whole invariant -----

  ghost predicate LedgerOk(s: Snapshot) {
    MarketOk(s) && CommitmentOk(s) && WindowOk(s)
  }

  lemma PerformKeeps(collate: Collation, s: Snapshot, now: int, op: Op)
    requires LedgerOk(s) && Perform(collate, s, now, op).Ok?
    ensures LedgerOk(Perform(collate, s, now, op).value)
  {
    PerformKeepsCommitment(collate, s, now, op);
    PerformKeepsWindow(collate, s, now, op);
    if op.OpRecordOffer? {
      RecordOfferKeepsMarket(collate, s, now, op.input);
    } else {
      OffersFrame(collate, s, now, op);
    }
  }

  lemma {:induction false} ReachableOk(collate: Collation, s: Snapshot, ops: seq<Timed>)
    requires IsSeed(s)
    ensures LedgerOk(RunOps(collate, s, ops))
  {
    if ops == [] {
      assert forall c :: OffersOf(s.offers, c) == [];
    } else {
      var init, last := ops[..|ops| - 1], ops[|ops| - 1];
      ReachableOk(collate, s, init);
      var before := RunOps(collate, s, init);
      if Perform(collate, before, last.now, last.op).Ok? {
        PerformKeeps(collate, before, last.now, last.op);
      }
    }
  }

  // ----- COMMITTED means three proofs -----

  /** The commitments for which some call of the run was accepted, by kind of call. */
  datatype Proofs = Proofs(confirmed: set<nat>, recapped: set<nat>, evidenced: set<nat>)

  function Noted(proofs: Proofs, op: Op): Proofs {
    match op
    case OpConfirmBooking(id, _) => proofs.(confirmed := proofs.confirmed + {id})
    case OpMarkRecapSent(id, _) => proofs.(recapped := proofs.recapped + {id})
    case OpLinkEvidence(id, _) => proofs.(evidenced := proofs.evidenced + {id})
    case _ => proofs
  }

  function ProofsOf(collate: Collation, s: Snapshot, ops: seq<Timed>): Proofs {
    if ops == [] then Proofs({}, {}, {})
    else
      var init, last := ops[..|ops| - 1], ops[|ops| - 1];
      var before := ProofsOf(collate, s, init);
      if Perform(collate, RunOps(collate, s, init), last.now, last.op).Ok? then Noted(before, last.op) else before
  }

  ghost predicate Below(ids: set<nat>, bound: nat) {
    forall id :: id in ids ==> id < bound
  }

  ghost predicate ProofsMatch(s: Snapshot, p: Proofs) {
    && Below(p.confirmed, s.nextId) && Below(p.recapped, s.nextId) && Below(p.evidenced, s.nextId)
    && (s.commitment.Some? ==>
          var c := s.commitment.value;
          && (c.id in p.confirmed <==> c.verballyConfirmedAt.Some?)
          && (c.id in p.recapped <==> c.recapSentAt.Some?)
          && (c.status != Superseded ==> (c.id in p.evidenced <==> HasEvidence(s))))
  }

  lemma StageKeepsProofs(collate: Collation, s: Snapshot, p: Proofs, now: int, operationId: string, offerId: nat,
                         callId: nat, tokenHash: nat)
    requires CommitmentOk(s) && ProofsMatch(s, p)
    ensures var r := StageBooking(collate, s, now, operationId, offerId, callId, tokenHash);
            r.Ok? ==> ProofsMatch(r.value.state, p)
  {
  }

  lemma RecapKeepsProofs(s: Snapshot, p: Proofs, now: int, commitmentId: nat, messageSid: string)
    requires CommitmentOk(s) && ProofsMatch(s, p)
    ensures var r := MarkRecapSent(s, now, commitmentId, messageSid);
            r.Ok? ==> ProofsMatch(r.value.state, p.(recapped := p.recapped + {commitmentId}))
  {
  }

  lemma LinkKeepsProofs(s: Snapshot, p: Proofs, now: int, commitmentId: nat, segment: string)
    requires CommitmentOk(s) && ProofsMatch(s, p)
    ensures var r := LinkEvidence(s, now, commitmentId, segment);
            r.Ok? ==> ProofsMatch(r.value.state, p.(evidenced := p.evidenced + {commitmentId}))
  {
  }

  lemma ConfirmKeepsProofs(collate: Collation, s: Snapshot, p: Proofs, now: int, commitmentId: nat, tokenHash: nat)
    requires CommitmentOk(s) && ProofsMatch(s, p)
    ensures var r := ConfirmBooking(collate, s, now, commitmentId, tokenHash);
            r.Ok? ==> ProofsMatch(r.value.state, p.(confirmed := p.confirmed + {commitmentId}))
  {
  }

  lemma SupersedeKeepsProofs(s: Snapshot, p: Proofs, commitmentId: nat)
    requires CommitmentOk(s) && ProofsMatch(s, p)
    ensures var r := SupersedeCommitment(s, commitmentId); r.Ok? ==> ProofsMatch(r.value.state, p)
  {
  }

  lemma PerformKeepsProofs(collate: Collation, s: Snapshot, p: Proofs, now: int, op: Op)
    requires CommitmentOk(s) && ProofsMatch(s, p) && Perform(collate, s, now, op).Ok?
    ensures ProofsMatch(Perform(collate, s, now, op).value, Noted(p, op))
  {
    hide StageBooking, ConfirmBooking, MarkRecapSent, SupersedeCommitment, LinkEvidence, RecordOffer, CreateEscalation;
    hide UpdateConfiguration, CreateCall, UpdateCall, UpdateEscalation, PushDecision, PushEvent;
    match op
    case OpStageBooking(operationId, offerId, callId, tokenHash) =>
      StageKeepsProofs(collate, s, p, now, operationId, offerId, callId, tokenHash);
    case OpConfirmBooking(commitmentId, tokenHash) => ConfirmKeepsProofs(collate, s, p, now, commitmentId, tokenHash);
    case OpMarkRecapSent(commitmentId, messageSid) => RecapKeepsProofs(s, p, now, commitmentId, messageSid);
    case OpSupersedeCommitment(commitmentId) => SupersedeKeepsProofs(s, p, commitmentId);
    case OpLinkEvidence(commitmentId, segment) => LinkKeepsProofs(s, p, now, commitmentId, segment);
    case _ => CommitmentFrame(collate, s, now, op);
  }

  lemma {:induction false} RunMatchesProofs(collate: Collation, s: Snapshot, ops: seq<Timed>)
    requires IsSeed(s)
    ensures ProofsMatch(RunOps(collate, s, ops), ProofsOf(collate, s, ops))
  {
    if ops != [] {
      var init, last := ops[..|ops| - 1], ops[|ops| - 1];
      RunMatchesProofs(collate, s, init);
      ReachableOk(collate, s, init);
      var before := RunOps(collate, s, init);
      if Perform(collate, before, last.now, last.op).Ok? {
        PerformKeepsProofs(collate, before, ProofsOf(collate, s, init), last.now, last.op);
      }
    }
  }

  /**
    After any run the standing commitment is COMMITTED exactly if the run confirmed it, sent its recap
    and linked evidence to it, in whatever order recap and evidence came. It never rests in
    EVIDENCE_LINKED.
   */
  lemma CommittedIffThreeProofs(collate: Collation, s: Snapshot, ops: seq<Timed>)
    requires IsSeed(s)
    ensures var t := RunOps(collate, s, ops);
            var p := ProofsOf(collate, s, ops);
            t.commitment.Some? && t.commitment.value.status != Superseded ==>
              var c := t.commitment.value;
              && (c.status == Committed <==> c.id in p.confirmed && c.id in p.recapped && c.id in p.evidenced)
              && (c.status == Committed <==> c.verballyConfirmedAt.Some? && c.recapSentAt.Some? && HasEvidence(t))
              && c.status != EvidenceLinked
  {
    ReachableOk(collate, s, ops);
    RunMatchesProofs(collate, s, ops);
  }

  /** Recap and evidence commute: either order commits the confirmed booking, with the same commitment. */
  lemma RecapAndEvidenceCommute(s: Snapshot, now: int, id: nat, messageSid: string, segment: string)
    requires CommitmentOk(s) && Names(s, id) && s.commitment.value.status == VerballyConfirmed
    ensures var recap, link := MarkRecapSent(s, now, id, messageSid), LinkEvidence(s, now, id, segment);
            recap.Ok? && link.Ok?
            && var a := LinkEvidence(recap.value.state, now, id, segment);
            var b := MarkRecapSent(link.value.state, now, id, messageSid);
            && a.Ok? && b.Ok?
            && a.value.state.commitment == b.value.state.commitment
            && b.value.value.status == Committed
            && HasEvidence(a.value.state) && HasEvidence(b.value.state)
            && a.value.state.operation == b.value.state.operation
  {
  }

  /**
    A committed booking stays as it is until it is superseded; in particular nothing else can be staged.
    Its evidence stays too, unless evidence is linked to it anew.
   */
  lemma CommittedStands(collate: Collation, s: Snapshot, now: int, op: Op)
    requires LedgerOk(s) && s.commitment.Some? && s.commitment.value.status == Committed
    requires Perform(collate, s, now, op).Ok? && op != OpSupersedeCommitment(s.commitment.value.id)
    ensures Perform(collate, s, now, op).value.commitment == s.commitment
    ensures HasEvidence(Perform(collate, s, now, op).value)
    ensures var t := Perform(collate, s, now, op).value;
            match op
            case OpLinkEvidence(id, segment) => t.evidence == Some(Evidence(s.nextId, id, segment, now))
            case _ => t.evidence == s.evidence
  {
    if !TouchesCommitment(op) {
      CommitmentFrame(collate, s, now, op);
    }
  }

  // ----- the market after any run -----

  /** Each carrier's offers are revisions 1, 2, ... in recording order and only the last one stands. */
  lemma RevisionsCount(collate: Collation, s: Snapshot, ops: seq<Timed>, carrierId: string)
    requires IsSeed(s)
    ensures Revisions(OffersOf(RunOps(collate, s, ops).offers, carrierId))
  {
    ReachableOk(collate, s, ops);
  }

  /** Among the offers of a reachable snapshot the live ones are exactly the latest ones. */
  lemma LiveIsLatest(s: Snapshot, o: Offer)
    requires MarketOk(s) && Live(s.offers, o)
    ensures o in Latest(s.offers)
  {
    LatestIsLatest(s.offers);
    assert Represented(Latest(s.offers), o);
    var latest := Latest(s.offers);
    var i :| 0 <= i < |latest| && latest[i].carrierId == o.carrierId && o.revision <= latest[i].revision;
    var l := latest[i];
    var mine := OffersOf(s.offers, o.carrierId);
    OffersOfMembers(s.offers, o.carrierId);
    assert l in Latest(s.offers) && Live(s.offers, l);
    assert l in mine && o in mine;
    assert Revisions(mine);
  }

  /**
    After any run there is a winner if any live offer is eligible, the winner is one of those, and
    exactly it can be booked.
   */
  lemma WinnerAfterAnyRun(collate: Collation, s: Snapshot, ops: seq<Timed>, offerId: nat)
    requires IsSeed(s)
    ensures var t := RunOps(collate, s, ops);
            var winner := Winner(collate, t.carriers, t.offers);
            && (winner.None? <==> forall o :: Live(t.offers, o) ==> !o.eligible)
            && (winner.Some? ==> Live(t.offers, winner.value) && winner.value.eligible)
            && (AssertOfferBookable(collate, t, offerId).Ok? <==> winner.Some? && winner.value.id == offerId)
  {
    ReachableOk(collate, s, ops);
    var t := RunOps(collate, s, ops);
    var candidates := Eligible(Latest(t.offers));
    WinnerIsLive(collate, t.carriers, t.offers);
    BookableExactlyWinner(collate, t, offerId);
    LatestIsLatest(t.offers);
    forall o | Live(t.offers, o) && o.eligible
      ensures o in candidates
    {
      LiveIsLatest(t, o);
    }
    if candidates != [] {
      assert candidates[0] in candidates;
    }
  }

  ghost predicate RecordsClockTimes(ops: seq<Timed>) {
    forall i :: 0 <= i < |ops| && ops[i].op.OpRecordOffer? ==> IsClockTime(ops[i].op.input.pickupTime)
  }

  ghost predicate AtClockTimes(offers: seq<Offer>) {
    forall o :: o in offers ==> IsClockTime(o.pickupTime)
  }

  lemma RecordOfferAtClockTime(collate: Collation, s: Snapshot, now: int, input: OfferInput)
    requires AtClockTimes(s.offers) && IsClockTime(input.pickupTime) && RecordOffer(collate, s, now, input).Ok?
    ensures AtClockTimes(RecordOffer(collate, s, now, input).value.state.offers)
  {
    var added := AddOffer(s, now, input);
    NoteOfferFrame(collate, added.state, added.value);
    var superseded := Supersede(s.offers, PreviousOffer(s.offers, input.carrierId), now);
    forall o | o in superseded
      ensures IsClockTime(o.pickupTime)
    {
      var k :| 0 <= k < |superseded| && superseded[k] == o;
      assert s.offers[k] in s.offers && s.offers[k].pickupTime == o.pickupTime;
    }
  }

  /** Offers carry the times they were recorded with. */
  lemma {:induction false} RunAtClockTimes(collate: Collation, s: Snapshot, ops: seq<Timed>)
    requires IsSeed(s) && RecordsClockTimes(ops)
    ensures AtClockTimes(RunOps(collate, s, ops).offers)
  {
    if ops != [] {
      var init, last := ops[..|ops| - 1], ops[|ops| - 1];
      RunAtClockTimes(collate, s, init);
      var before := RunOps(collate, s, init);
      if Perform(collate, before, last.now, last.op).Ok? {
        if last.op.OpRecordOffer? {
          RecordOfferAtClockTime(collate, before, last.now, last.op.input);
        } else {
          OffersFrame(collate, before, last.now, last.op);
        }
      }
    }
  }

  /**
    After any run that records offers at times of the form 00:00, under a locale that tells such times
    apart, the winner costs no more than any live eligible offer. Among those that cost the same it has
    the earliest pickup time, and among those at the same time the first carrier name.
   */
  lemma WinnerBeatsAll(collate: Collation, s: Snapshot, ops: seq<Timed>, o: Offer)
    requires IsSeed(s) && IsCollation(collate) && SeparatesClockTimes(collate) && RecordsClockTimes(ops)
    requires Live(RunOps(collate, s, ops).offers, o) && o.eligible
    ensures var t := RunOps(collate, s, ops);
            && Winner(collate, t.carriers, t.offers).Some?
            && var w := Winner(collate, t.carriers, t.offers).value;
            && w.amount <= o.amount
            && (w.amount == o.amount && w.pickupTime != o.pickupTime ==> collate(w.pickupTime, o.pickupTime) < 0)
            && (w.amount == o.amount && w.pickupTime == o.pickupTime ==>
                  collate(CarrierName(t.carriers, w.carrierId), CarrierName(t.carriers, o.carrierId)) <= 0)
  {
    hide RunOps, Latest, Winner, CarrierName, MarketOk, CommitmentOk, WindowOk, IsClockTime;
    RunAtClockTimes(collate, s, ops);
    ReachableOk(collate, s, ops);
    var t := RunOps(collate, s, ops);
    var candidates := Eligible(Latest(t.offers));
    LiveIsLatest(t, o);
    assert o in candidates;
    WinnerIsLive(collate, t.carriers, t.offers);
    WinnerIsLeast(collate, t.carriers, t.offers);
    var w := Winner(collate, t.carriers, t.offers).value;
    var k: nat :| FirstLeast(collate, t.carriers, candidates, k) && candidates[k] == w;
    var j :| 0 <= j < |candidates| && candidates[j] == o;
    CollatesSelf(collate, CarrierName(t.carriers, o.carrierId));
    assert IsClockTime(w.pickupTime) && IsClockTime(o.pickupTime);
  }

  lemma CollatesSelf(collate: Collation, a: string)
    requires IsCollation(collate)
    ensures collate(a, a) == 0
  {
    assert collate(a, a) > 0 <==> collate(a, a) < 0;
  }

  // ----- the counter budget -----

  function EligibleCount(offers: seq<Offer>): nat {
    if offers == [] then 0 else EligibleCount(offers[..|offers| - 1]) + (if offers[|offers| - 1].eligible then 1 else 0)
  }

  ghost predicate WithinBudget(s: Snapshot, mandate: Mandate) {
    s.mandate == mandate && forall o :: o in s.offers && o.eligible ==> o.revision <= 1 + CounterBudget(mandate)
  }

  ghost predicate KeepsMandate(ops: seq<Timed>) {
    forall i :: 0 <= i < |ops| && ops[i].op.OpUpdateConfiguration? ==> ops[i].op.patch.mandate.None?
  }

  lemma RecordOfferWithinBudget(collate: Collation, s: Snapshot, now: int, input: OfferInput)
    requires WithinBudget(s, s.mandate) && RecordOffer(collate, s, now, input).Ok?
    ensures WithinBudget(RecordOffer(collate, s, now, input).value.state, s.mandate)
  {
    var added := AddOffer(s, now, input);
    NoteOfferFrame(collate, added.state, added.value);
    EligibleIff(s.operation, s.mandate, input, added.value.revision);
    var i := PreviousOffer(s.offers, input.carrierId);
    var superseded := Supersede(s.offers, i, now);
    forall o | o in superseded && o.eligible
      ensures o.revision <= 1 + CounterBudget(s.mandate)
    {
      var k :| 0 <= k < |superseded| && superseded[k] == o;
      assert s.offers[k] in s.offers && s.offers[k].eligible == o.eligible && s.offers[k].revision == o.revision;
    }
  }

  lemma MandateFrame(collate: Collation, s: Snapshot, now: int, op: Op)
    requires Perform(collate, s, now, op).Ok? && !op.OpRecordOffer?
    requires op.OpUpdateConfiguration? ==> op.patch.mandate.None?
    ensures Perform(collate, s, now, op).value.mandate == s.mandate
  {
  }

  lemma {:induction false} RunWithinBudget(collate: Collation, s: Snapshot, ops: seq<Timed>)
    requires IsSeed(s) && KeepsMandate(ops)
    ensures WithinBudget(RunOps(collate, s, ops), s.mandate)
  {
    if ops != [] {
      var init, last := ops[..|ops| - 1], ops[|ops| - 1];
      RunWithinBudget(collate, s, init);
      var before := RunOps(collate, s, init);
      if Perform(collate, before, last.now, last.op).Ok? {
        if last.op.OpRecordOffer? {
          RecordOfferWithinBudget(collate, before, last.now, last.op.input);
        } else {
          OffersFrame(collate, before, last.now, last.op);
          MandateFrame(collate, before, last.now, last.op);
        }
      }
    }
  }

  lemma {:induction false} CountByRevision(offers: seq<Offer>, bound: int)
    requires forall i :: 0 <= i < |offers| ==> offers[i].revision == i + 1
    requires forall o :: o in offers && o.eligible ==> o.revision <= bound
    ensures EligibleCount(offers) <= if bound < 0 then 0 else if bound < |offers| then bound else |offers|
  {
    if offers != [] {
      var n := |offers| - 1;
      CountByRevision(offers[..n], bound);
      assert offers[n] in offers;
    }
  }

  /** Under one mandate no carrier ever has more eligible offers than the opening quote and the counters allowed. */
  lemma EligibleOffersBounded(collate: Collation, s: Snapshot, ops: seq<Timed>, carrierId: string)
    requires IsSeed(s) && KeepsMandate(ops)
    ensures var budget := CounterBudget(s.mandate);
            EligibleCount(OffersOf(RunOps(collate, s, ops).offers, carrierId)) <= if budget < 0 then 0 else 1 + budget
  {
    ReachableOk(collate, s, ops);
    RunWithinBudget(collate, s, ops);
    var t := RunOps(collate, s, ops);
    var mine := OffersOf(t.offers, carrierId);
    OffersOfMembers(t.offers, carrierId);
    assert Revisions(mine);
    CountByRevision(mine, 1 + CounterBudget(s.mandate));
  }

  lemma NewOfferStands(collate: Collation, s: Snapshot, now: int, input: OfferInput)
    requires MarketOk(s)
    ensures var t := NoteOffer(collate, AddOffer(s, now, input).state, AddOffer(s, now, input).value);
            var i := PreviousOffer(t.offers, input.carrierId);
            i < |t.offers| && t.offers[i] == AddOffer(s, now, input).value
  {
    var added := AddOffer(s, now, input);
    NoteOfferFrame(collate, added.state, added.value);
    AddOfferToLists(s, now, input, input.carrierId);
    PreviousIsLast(added.state.offers, input.carrierId);
  }

  /** Repeating a call to recordOffer finds the offer already standing: nothing is written, no revision is spent. */
  lemma RepeatedOfferIsFree(collate: Collation, s: Snapshot, now: int, later: int, input: OfferInput)
    requires MarketOk(s) && RecordOffer(collate, s, now, input).Ok?
    ensures var done := RecordOffer(collate, s, now, input).value;
            RecordOffer(collate, done.state, later, input) == Ok(Done(done.state, done.value))
  {
    hide MarketOk, NoteOffer, QuotesSettled, Violations;
    var done := RecordOffer(collate, s, now, input).value;
    var added := AddOffer(s, now, input);
    NoteOfferFrame(collate, added.state, added.value);
    if done.state != s {
      NewOfferStands(collate, s, now, input);
      assert RestatesOffer(added.value, input);
    }
  }
}
