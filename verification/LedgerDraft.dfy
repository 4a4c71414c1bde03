/**
  The clone of the snapshot that a mutation works on. The methods change its fields one after another,
  as the store's callbacks do; each is tied to the function of the same name in Ledger. A method that
  throws leaves the clone unchanged, all but UpdateConfiguration; the store drops the clone in any case.
 */
module LedgerDraft {
  import opened Domain
  import opened Wrappers
  import opened Policy
  import L = Ledger

  class Draft {
    var operation: Operation
    var mandate: Mandate
    var carriers: seq<Carrier>
    var calls: seq<CallAttempt>
    var offers: seq<Offer>
    var commitment: Option<Commitment>
    var evidence: Option<Evidence>
    var escalation: Option<Escalation>
    var decisions: seq<Decision>
    var events: seq<Event>
    var nextId: nat

    function View(): Snapshot
      reads this
    {
      Snapshot(operation, mandate, carriers, calls, offers, commitment, evidence, escalation, decisions, events, nextId)
    }

    constructor (s: Snapshot)
      ensures View() == s
    {
      operation, mandate, carriers, calls, offers := s.operation, s.mandate, s.carriers, s.calls, s.offers;
      commitment, evidence, escalation := s.commitment, s.evidence, s.escalation;
      decisions, events, nextId := s.decisions, s.events, s.nextId;
    }

    method FreshId() returns (id: nat)
      modifies this`nextId
      ensures id == old(nextId) && nextId == id + 1
    {
      id := nextId;
      nextId := nextId + 1;
    }

    method PushEvent(kind: string)
      modifies this`events, this`nextId
      ensures View() == L.PushEvent(old(View()), kind)
    {
      var id := FreshId();
      events := [Event(id, kind)] + events;
      if |events| > L.WINDOW {
        events := events[..L.WINDOW];
      }
    }

    method PushDecision(kind: string, outcome: Outcome, related: Option<nat>, key: Key) returns (decision: Decision)
      modifies this`decisions, this`events, this`nextId
      ensures L.PushDecision(old(View()), kind, outcome, related, key) == L.Done(View(), decision)
    {
      var existing := L.FindDecision(decisions, key);
      if existing.Some? {
        return existing.value;
      }
      var id := FreshId();
      decision := Decision(id, kind, outcome, related, key);
      decisions := [decision] + decisions;
      if |decisions| > L.WINDOW {
        decisions := decisions[..L.WINDOW];
      }
      PushEvent("decision." + kind);
    }

    /** Puts the new offer on the market and retires the one before it. */
    method AddOffer(now: int, input: OfferInput) returns (offer: Offer)
      modifies this`offers, this`operation, this`nextId
      ensures L.AddOffer(old(View()), now, input) == L.Done(View(), offer)
    {
      hide Violations, L.TerminalCount, L.QuoteCount, L.PreviousOffer;
      var i := L.PreviousOffer(offers, input.carrierId);
      var revision := 1;
      if i < |offers| {
        revision := offers[i].revision + 1;
        if offers[i].supersededAt.None? {
          offers := offers[i := offers[i].(supersededAt := Some(now))];
        }
      }
      var violations := EvaluateOffer(operation, mandate, input, revision);
      var settled := L.QuotesSettled(View());
      var id := FreshId();
      offer := Offer(id, input.carrierId, input.callId, revision, input.amount, input.currency, input.pickupDate,
                     input.pickupTime, Conditions(input), violations == [], violations, None, now);
      offers := offers + [offer];
      operation := operation.(status := if settled then Quoted else Scanning);
    }

    method RecordOffer(collate: Collation, now: int, input: OfferInput) returns (r: Result<Offer>)
      modifies this
      ensures match L.RecordOffer(collate, old(View()), now, input)
              case Ok(done) => r == Ok(done.value) && View() == done.state
              case Err(error) => r == Err(error) && View() == old(View())
    {
      if operation.id != input.operationId {
        return Err(OperationNotFound);
      }
      var i := L.PreviousOffer(offers, input.carrierId);
      if i < |offers| && offers[i].supersededAt.None? && L.RestatesOffer(offers[i], input) {
        return Ok(offers[i]);
      }
      var offer := AddOffer(now, input);
      PushEvent(if offer.eligible then "offer.eligible" else "offer.blocked");
      var outcome := if offer.eligible then Allow else Block;
      var _ := PushDecision("OFFER_EVALUATED", outcome, Some(offer.id), OfferEvaluated(offer.id));
      var selected := Winner(collate, carriers, offers);
      if selected.Some? && selected.value.id == offer.id {
        var _ := PushDecision("MARKET_WINNER_UPDATED", Select, Some(offer.id), OfferWinner(offer.id));
      }
      return Ok(offer);
    }

    method Propose(now: int, offer: Offer, offerId: nat, callId: nat, tokenHash: nat) returns (c: Commitment)
      modifies this`commitment, this`operation, this`events, this`decisions, this`nextId
      ensures L.Propose(old(View()), now, offer, offerId, callId, tokenHash) == L.Done(View(), c)
    {
      hide L.PushEvent, L.PushDecision;
      var id := FreshId();
      c := Commitment(id, offer.carrierId, offerId, callId, Proposed, tokenHash, now + L.TOKEN_LIFETIME_MS,
                      None, None, None, None);
      commitment := Some(c);
      operation := operation.(status := Booking);
      PushEvent("commitment.proposed");
      var _ := PushDecision("BOOKING_STAGED", Select, Some(offer.id), BookingStaged(c.id));
    }

    method StageBooking(collate: Collation, now: int, operationId: string, offerId: nat, callId: nat, tokenHash: nat)
      returns (r: Result<Commitment>)
      modifies this
      ensures match L.StageBooking(collate, old(View()), now, operationId, offerId, callId, tokenHash)
              case Ok(done) => r == Ok(done.value) && View() == done.state
              case Err(error) => r == Err(error) && View() == old(View())
    {
      hide AssertOfferBookable, L.Propose;
      if operation.id != operationId {
        return Err(OperationNotFound);
      }
      var bookable := AssertOfferBookable(collate, View(), offerId);
      if bookable.Err? {
        return Err(bookable.error);
      }
      if L.FindCarrier(carriers, bookable.value.carrierId).None? {
        return Err(CarrierNotFound);
      }
      if commitment.Some? && commitment.value.status !in {Superseded, Rejected} {
        return Err(ActiveCommitmentExists);
      }
      var c := Propose(now, bookable.value, offerId, callId, tokenHash);
      return Ok(c);
    }

    method ConfirmBooking(collate: Collation, now: int, commitmentId: nat, tokenHash: nat)
      returns (r: Result<Commitment>)
      modifies this
      ensures match L.ConfirmBooking(collate, old(View()), now, commitmentId, tokenHash)
              case Ok(done) => r == Ok(done.value) && View() == done.state
              case Err(error) => r == Err(error) && View() == old(View())
    {
      if commitment.None? || commitment.value.id != commitmentId {
        return Err(CommitmentNotFound);
      }
      var c := commitment.value;
      if c.tokenExpiresAt < now {
        return Err(TokenExpired);
      }
      if tokenHash != c.tokenHash {
        return Err(InvalidToken);
      }
      var bookable := AssertOfferBookable(collate, View(), c.offerId);
      if bookable.Err? {
        return Err(bookable.error);
      }
      var to := TransitionCommitment(c.status, VerballyConfirmed);
      if to.Err? {
        return Err(to.error);
      }
      c := c.(status := to.value);
      c := c.(verballyConfirmedAt := Some(now));
      commitment := Some(c);
      PushEvent("commitment.verbally_confirmed");
      var _ := PushDecision("BOOKING_CONFIRMED", Allow, Some(c.offerId), BookingConfirmed(c.id));
      return Ok(c);
    }

    /** The last two transitions of a commitment whose recap is sent and whose evidence is stored. */
    method Commit(now: int)
      requires commitment.Some? && commitment.value.status == RecapSent
      modifies this`commitment, this`operation, this`events, this`nextId
      ensures L.Commit(old(View()), now) == Ok(View())
    {
      var c := commitment.value;
      var linked := TransitionCommitment(c.status, EvidenceLinked);
      c := c.(status := linked.value);
      var committed := TransitionCommitment(c.status, Committed);
      c := c.(status := committed.value);
      c := c.(committedAt := Some(now));
      commitment := Some(c);
      operation := operation.(status := OperationCommitted);
      PushEvent("commitment.committed");
    }

    method MarkRecapSent(now: int, commitmentId: nat, messageSid: string) returns (r: Result<Commitment>)
      modifies this
      ensures match L.MarkRecapSent(old(View()), now, commitmentId, messageSid)
              case Ok(done) => r == Ok(done.value) && View() == done.state
              case Err(error) => r == Err(error) && View() == old(View())
    {
      if commitment.None? || commitment.value.id != commitmentId {
        return Err(CommitmentNotFound);
      }
      var c := commitment.value;
      var to := TransitionCommitment(c.status, RecapSent);
      if to.Err? {
        return Err(to.error);
      }
      c := c.(status := to.value);
      c := c.(recapSentAt := Some(now));
      c := c.(messageSid := Some(messageSid));
      commitment := Some(c);
      PushEvent("commitment.recap_sent");
      if evidence.Some? && evidence.value.commitmentId == c.id {
        Commit(now);
      }
      return Ok(commitment.value);
    }

    method SupersedeCommitment(commitmentId: nat) returns (r: Result<Commitment>)
      modifies this
      ensures match L.SupersedeCommitment(old(View()), commitmentId)
              case Ok(done) => r == Ok(done.value) && View() == done.state
              case Err(error) => r == Err(error) && View() == old(View())
    {
      if commitment.None? || commitment.value.id != commitmentId {
        return Err(CommitmentNotFound);
      }
      var c := commitment.value;
      var to := TransitionCommitment(c.status, Superseded);
      if to.Err? {
        return Err(to.error);
      }
      c := c.(status := to.value);
      commitment := Some(c);
      evidence := None;
      operation := operation.(status := AtRisk);
      PushEvent("commitment.superseded");
      var _ := PushDecision("COMMITMENT_SUPERSEDED", Observe, Some(c.offerId), CommitmentSuperseded(commitmentId));
      return Ok(c);
    }

    method LinkEvidence(now: int, commitmentId: nat, segment: string) returns (r: Result<Evidence>)
      modifies this
      ensures match L.LinkEvidence(old(View()), now, commitmentId, segment)
              case Ok(done) => r == Ok(done.value) && View() == done.state
              case Err(error) => r == Err(error) && View() == old(View())
    {
      if commitment.None? || commitment.value.id != commitmentId {
        return Err(CommitmentNotFound);
      }
      if commitment.value.status == Proposed {
        return Err(NothingConfirmed);
      }
      var id := FreshId();
      var linked := Evidence(id, commitmentId, segment, now);
      evidence := Some(linked);
      if commitment.value.status == RecapSent {
        Commit(now);
      } else {
        PushEvent("evidence.linked_pending_recap");
      }
      return Ok(linked);
    }

    /** Operation and mandate are changed before the carriers are checked. */
    method UpdateConfiguration(operationId: string, patch: L.ConfigurationPatch) returns (r: Result<Snapshot>)
      modifies this
      ensures match L.UpdateConfiguration(old(View()), operationId, patch)
              case Ok(done) => r == Ok(done.value) && View() == done.state
              case Err(error) => r == Err(error)
    {
      if operation.id != operationId {
        return Err(OperationNotFound);
      }
      operation := operation.(
        pickupDate := L.Or(patch.pickupDate, operation.pickupDate),
        pickupWindowStart := L.Or(patch.pickupWindowStart, operation.pickupWindowStart),
        pickupWindowEnd := L.Or(patch.pickupWindowEnd, operation.pickupWindowEnd),
        status := L.Or(patch.status, operation.status));
      mandate := L.Or(patch.mandate, mandate);
      if patch.carriers.Some? {
        var ids := L.CarrierIds(patch.carriers.value);
        if |ids| != |carriers| || !(L.CarrierIds(carriers) <= ids) {
          return Err(EveryCarrierRequired);
        }
        carriers := L.Renamed(carriers, patch.carriers.value);
      }
      PushEvent("mandate.updated");
      return Ok(View());
    }

    method CreateCall(operationId: string, mode: CallMode) returns (r: Result<CallAttempt>)
      modifies this
      ensures match L.CreateCall(old(View()), operationId, mode)
              case Ok(done) => r == Ok(done.value) && View() == done.state
              case Err(error) => r == Err(error) && View() == old(View())
    {
      if operation.id != operationId {
        return Err(OperationNotFound);
      }
      var id := FreshId();
      var call := CallAttempt(id, mode, Queued);
      calls := calls + [call];
      PushEvent("call.queued");
      return Ok(call);
    }

    method UpdateCall(callId: nat, status: Option<CallStatus>) returns (r: Result<CallAttempt>)
      modifies this
      ensures match L.UpdateCall(old(View()), callId, status)
              case Ok(done) => r == Ok(done.value) && View() == done.state
              case Err(error) => r == Err(error) && View() == old(View())
    {
      var i := L.IndexOfCall(calls, callId);
      if i == |calls| {
        return Err(CallNotFound);
      }
      var call := calls[i].(status := L.Or(status, calls[i].status));
      calls := calls[i := call];
      if call.mode == QuoteCall && status in {Some(Completed), Some(Failed)} {
        var settled := L.QuotesSettled(View());
        if settled {
          operation := operation.(status := Quoted);
        }
      }
      PushEvent("call.updated");
      return Ok(call);
    }

    method CreateEscalation(callId: nat) returns (live: Escalation)
      modifies this
      ensures L.CreateEscalation(old(View()), callId) == L.Done(View(), live)
    {
      hide L.PushEvent, L.PushDecision;
      if escalation.Some? && escalation.value.callId == callId && escalation.value.status != Resolved {
        return escalation.value;
      }
      var id := FreshId();
      live := Escalation(id, callId, Open);
      escalation := Some(live);
      operation := operation.(status := AtRisk);
      PushEvent("escalation.requested");
      var _ := PushDecision("HUMAN_HANDOFF_REQUIRED", Escalate, None, EscalationRequired(id));
    }

    method UpdateEscalation(id: nat, status: EscalationStatus) returns (r: Result<Escalation>)
      modifies this
      ensures match L.UpdateEscalation(old(View()), id, status)
              case Ok(done) => r == Ok(done.value) && View() == done.state
              case Err(error) => r == Err(error) && View() == old(View())
    {
      if escalation.None? || escalation.value.id != id {
        return Err(EscalationNotFound);
      }
      escalation := Some(escalation.value.(status := status));
      PushEvent("escalation.updated");
      return Ok(escalation.value);
    }

    /** The callback of one mutation, whichever it is. */
    method Perform(collate: Collation, now: int, op: L.Op) returns (error: Option<Error>)
      modifies this
      ensures match L.Perform(collate, old(View()), now, op)
              case Ok(next) => error.None? && View() == next
              case Err(thrown) => error == Some(thrown)
    {
      hide L.UpdateConfiguration, L.CreateCall, L.UpdateCall, L.PushDecision, L.RecordOffer, L.StageBooking;
      hide L.ConfirmBooking, L.MarkRecapSent, L.SupersedeCommitment, L.LinkEvidence, L.CreateEscalation;
      hide L.UpdateEscalation, L.PushEvent;
      match op
      case OpUpdateConfiguration(operationId, patch) =>
        var r := UpdateConfiguration(operationId, patch);
        error := ErrorOf(r);
      case OpCreateCall(operationId, mode) =>
        var r := CreateCall(operationId, mode);
        error := ErrorOf(r);
      case OpUpdateCall(callId, status) =>
        var r := UpdateCall(callId, status);
        error := ErrorOf(r);
      case OpRecordDecision(kind, outcome, related, key) =>
        var _ := PushDecision(kind, outcome, related, key);
        error := None;
      case OpRecordOffer(input) =>
        var r := RecordOffer(collate, now, input);
        error := ErrorOf(r);
      case OpStageBooking(operationId, offerId, callId, tokenHash) =>
        var r := StageBooking(collate, now, operationId, offerId, callId, tokenHash);
        error := ErrorOf(r);
      case OpConfirmBooking(commitmentId, tokenHash) =>
        var r := ConfirmBooking(collate, now, commitmentId, tokenHash);
        error := ErrorOf(r);
      case OpMarkRecapSent(commitmentId, messageSid) =>
        var r := MarkRecapSent(now, commitmentId, messageSid);
        error := ErrorOf(r);
      case OpSupersedeCommitment(commitmentId) =>
        var r := SupersedeCommitment(commitmentId);
        error := ErrorOf(r);
      case OpLinkEvidence(commitmentId, segment) =>
        var r := LinkEvidence(now, commitmentId, segment);
        error := ErrorOf(r);
      case OpCreateEscalation(callId) =>
        var _ := CreateEscalation(callId);
        error := None;
      case OpUpdateEscalation(id, status) =>
        var r := UpdateEscalation(id, status);
        error := ErrorOf(r);
      case OpAddEvent(kind) =>
        PushEvent(kind);
        error := None;
    }
  }

  function ErrorOf<T>(r: Result<T>): Option<Error> {
    match r
    case Ok(_) => None
    case Err(error) => Some(error)
  }
}
