/** The ledger operations as functions from snapshot to snapshot. */
module Ledger {
  import opened Domain
  import opened Wrappers
  import opened Policy

  /** A completed mutation: the changed clone and what the caller gets. */
  datatype Done<+T> = Done(state: Snapshot, value: T)

  const WINDOW := 100

  function Capped<T>(s: seq<T>): seq<T> {
    if |s| <= WINDOW then s else s[..WINDOW]
  }

  function PushEvent(s: Snapshot, kind: string): Snapshot {
    s.(events := Capped([Event(s.nextId, kind)] + s.events), nextId := s.nextId + 1)
  }

  function FindDecision(decisions: seq<Decision>, key: Key): Option<Decision> {
    if decisions == [] then None
    else if decisions[0].key == key then Some(decisions[0])
    else FindDecision(decisions[1..], key)
  }

  function PushDecision(s: Snapshot, kind: string, outcome: Outcome, related: Option<nat>, key: Key): Done<Decision> {
    var existing := FindDecision(s.decisions, key);
    if existing.Some? then Done(s, existing.value)
    else
      var decision := Decision(s.nextId, kind, outcome, related, key);
      var s1 := s.(decisions := Capped([decision] + s.decisions), nextId := s.nextId + 1);
      Done(PushEvent(s1, "decision." + kind), decision)
  }

  // ----- offers -----

  /** The index of the carrier's highest revision, the first of equals, or the length if it has no offer. */
  function PreviousOffer(offers: seq<Offer>, carrierId: string): (i: nat)
    ensures i <= |offers|
    ensures i < |offers| ==> offers[i].carrierId == carrierId
    ensures forall j :: 0 <= j < |offers| && offers[j].carrierId == carrierId ==>
              i < |offers| && offers[j].revision <= offers[i].revision
    ensures forall j :: 0 <= j < i < |offers| && offers[j].carrierId == carrierId ==>
            offers[j].revision < offers[i].revision
  {
    if offers == [] then 0
    else
      var n := |offers| - 1;
      var i := PreviousOffer(offers[..n], carrierId);
      if offers[n].carrierId == carrierId && (i == n || offers[i].revision < offers[n].revision) then n
      else if i == n then n + 1 else i
  }

  /** The incoming offer says what the standing one says, as far as the code compares conditions. */
  predicate RestatesOffer(standing: Offer, incoming: OfferInput) {
    && standing.amount == incoming.amount && standing.currency == incoming.currency
    && standing.pickupDate == incoming.pickupDate && standing.pickupTime == incoming.pickupTime
    && |standing.conditions| == |Conditions(incoming)|
    && forall c :: c in standing.conditions ==> c in Conditions(incoming)
  }

  function TerminalCount(calls: seq<CallAttempt>): (n: nat)
    ensures n <= QuoteCount(calls)
  {
    if calls == [] then 0
    else
      var over := calls[0].mode == QuoteCall && calls[0].status in {Completed, Failed};
      (if over then 1 else 0) + TerminalCount(calls[1..])
  }

  function QuoteCount(calls: seq<CallAttempt>): nat {
    if calls == [] then 0 else (if calls[0].mode == QuoteCall then 1 else 0) + QuoteCount(calls[1..])
  }

  /** Every carrier has been called for a quote and every quote call is over. */
  predicate QuotesSettled(s: Snapshot) {
    QuoteCount(s.calls) >= |s.carriers| && TerminalCount(s.calls) == QuoteCount(s.calls)
  }

  function MakeOffer(s: Snapshot, now: int, input: OfferInput, revision: int): Offer {
    var violations := Violations(s.operation, s.mandate, input, revision);
    Offer(s.nextId, input.carrierId, input.callId, revision, input.amount, input.currency, input.pickupDate,
          input.pickupTime, Conditions(input), violations == [], violations, None, now)
  }

  function Supersede(offers: seq<Offer>, i: nat, now: int): seq<Offer>
    requires i <= |offers|
  {
    if i < |offers| && offers[i].supersededAt.None? then offers[i := offers[i].(supersededAt := Some(now))] else offers
  }

  /** The snapshot with the new offer on the market, before the bookkeeping of events and decisions. */
  function AddOffer(s: Snapshot, now: int, input: OfferInput): Done<Offer> {
    var i := PreviousOffer(s.offers, input.carrierId);
    var revision := if i < |s.offers| then s.offers[i].revision + 1 else 1;
    var offer := MakeOffer(s, now, input, revision);
    var status := if QuotesSettled(s) then Quoted else Scanning;
    Done(s.(offers := Supersede(s.offers, i, now) + [offer], operation := s.operation.(status := status),
            nextId := s.nextId + 1), offer)
  }

  function NoteOffer(collate: Collation, s: Snapshot, offer: Offer): Snapshot {
    var s1 := PushEvent(s, if offer.eligible then "offer.eligible" else "offer.blocked");
    var s2 := PushDecision(s1, "OFFER_EVALUATED", if offer.eligible then Allow else Block,
                           Some(offer.id), OfferEvaluated(offer.id)).state;
    var selected := Winner(collate, s2.carriers, s2.offers);
    if selected.Some? && selected.value.id == offer.id then
      PushDecision(s2, "MARKET_WINNER_UPDATED", Select, Some(offer.id), OfferWinner(offer.id)).state
    else s2
  }

  function RecordOffer(collate: Collation, s: Snapshot, now: int, input: OfferInput): Result<Done<Offer>> {
    if s.operation.id != input.operationId then Err(OperationNotFound)
    else
      var i := PreviousOffer(s.offers, input.carrierId);
      if i < |s.offers| && s.offers[i].supersededAt.None? && RestatesOffer(s.offers[i], input) then
        Ok(Done(s, s.offers[i]))
      else
        var added := AddOffer(s, now, input);
        Ok(Done(NoteOffer(collate, added.state, added.value), added.value))
  }

  // ----- the commitment -----

  function FindCarrier(carriers: seq<Carrier>, id: string): Option<Carrier> {
    if carriers == [] then None
    else if carriers[0].id == id then Some(carriers[0])
    else FindCarrier(carriers[1..], id)
  }

  const TOKEN_LIFETIME_MS := 20 * 60_000

  /** The proposal put on the ledger once every check has passed. */
  function Propose(s: Snapshot, now: int, offer: Offer, offerId: nat, callId: nat, tokenHash: nat): Done<Commitment> {
    var c := Commitment(s.nextId, offer.carrierId, offerId, callId, Proposed, tokenHash,
                        now + TOKEN_LIFETIME_MS, None, None, None, None);
    var s1 := s.(commitment := Some(c), operation := s.operation.(status := Booking), nextId := s.nextId + 1);
    var s2 := PushEvent(s1, "commitment.proposed");
    Done(PushDecision(s2, "BOOKING_STAGED", Select, Some(offer.id), BookingStaged(c.id)).state, c)
  }

  function StageBooking(collate: Collation, s: Snapshot, now: int,
                        operationId: string, offerId: nat, callId: nat, tokenHash: nat): Result<Done<Commitment>>
  {
    if s.operation.id != operationId then Err(OperationNotFound)
    else
      var bookable := AssertOfferBookable(collate, s, offerId);
      if bookable.Err? then Err(bookable.error)
      else if FindCarrier(s.carriers, bookable.value.carrierId).None? then Err(CarrierNotFound)
      else if s.commitment.Some? && s.commitment.value.status !in {Superseded, Rejected} then
        Err(ActiveCommitmentExists)
      else Ok(Propose(s, now, bookable.value, offerId, callId, tokenHash))
  }

  predicate Names(s: Snapshot, commitmentId: nat) {
    s.commitment.Some? && s.commitment.value.id == commitmentId
  }

  function ConfirmBooking(collate: Collation, s: Snapshot, now: int, commitmentId: nat, tokenHash: nat)
    : Result<Done<Commitment>>
  {
    if !Names(s, commitmentId) then Err(CommitmentNotFound)
    else
      var c := s.commitment.value;
      if c.tokenExpiresAt < now then Err(TokenExpired)
      else if tokenHash != c.tokenHash then Err(InvalidToken)
      else
        var bookable := AssertOfferBookable(collate, s, c.offerId);
        if bookable.Err? then Err(bookable.error)
        else
          var to := TransitionCommitment(c.status, VerballyConfirmed);
          if to.Err? then Err(to.error)
          else
            var c1 := c.(status := to.value, verballyConfirmedAt := Some(now));
            var s1 := PushEvent(s.(commitment := Some(c1)), "commitment.verbally_confirmed");
            Ok(Done(PushDecision(s1, "BOOKING_CONFIRMED", Allow, Some(c.offerId), BookingConfirmed(c.id)).state, c1))
  }

  /** The two last transitions, taken together once recap and evidence are both there. */
  function Commit(s: Snapshot, now: int): Result<Snapshot>
    requires s.commitment.Some?
  {
    var c := s.commitment.value;
    var linked := TransitionCommitment(c.status, EvidenceLinked);
    if linked.Err? then Err(linked.error)
    else
      var committed := TransitionCommitment(linked.value, Committed);
      if committed.Err? then Err(committed.error)
      else
        Ok(PushEvent(s.(commitment := Some(c.(status := committed.value, committedAt := Some(now))),
                        operation := s.operation.(status := OperationCommitted)), "commitment.committed"))
  }

  function MarkRecapSent(s: Snapshot, now: int, commitmentId: nat, messageSid: string): Result<Done<Commitment>> {
    if !Names(s, commitmentId) then Err(CommitmentNotFound)
    else
      var c := s.commitment.value;
      var to := TransitionCommitment(c.status, RecapSent);
      if to.Err? then Err(to.error)
      else
        var c1 := c.(status := to.value, recapSentAt := Some(now), messageSid := Some(messageSid));
        var s1 := PushEvent(s.(commitment := Some(c1)), "commitment.recap_sent");
        if s1.evidence.Some? && s1.evidence.value.commitmentId == c.id then
          var s2 := Commit(s1, now);
          if s2.Err? then Err(s2.error) else Ok(Done(s2.value, s2.value.commitment.value))
        else Ok(Done(s1, c1))
  }

  function SupersedeCommitment(s: Snapshot, commitmentId: nat): Result<Done<Commitment>> {
    if !Names(s, commitmentId) then Err(CommitmentNotFound)
    else
      var c := s.commitment.value;
      var to := TransitionCommitment(c.status, Superseded);
      if to.Err? then Err(to.error)
      else
        var c1 := c.(status := to.value);
        var s1 := s.(commitment := Some(c1), evidence := None, operation := s.operation.(status := AtRisk));
        var s2 := PushEvent(s1, "commitment.superseded");
        var s3 := PushDecision(s2, "COMMITMENT_SUPERSEDED", Observe, Some(c.offerId), CommitmentSuperseded(c.id)).state;
        Ok(Done(s3, c1))
  }

  function LinkEvidence(s: Snapshot, now: int, commitmentId: nat, segment: string): Result<Done<Evidence>> {
    if !Names(s, commitmentId) then Err(CommitmentNotFound)
    else
      var c := s.commitment.value;
      if c.status == Proposed then Err(NothingConfirmed)
      else
        var evidence := Evidence(s.nextId, commitmentId, segment, now);
        var s1 := s.(evidence := Some(evidence), nextId := s.nextId + 1);
        if c.status == RecapSent then
          var s2 := Commit(s1, now);
          if s2.Err? then Err(s2.error) else Ok(Done(s2.value, evidence))
        else Ok(Done(PushEvent(s1, "evidence.linked_pending_recap"), evidence))
  }

  // ----- everything else that writes the snapshot -----

  datatype ConfigurationPatch = ConfigurationPatch(
    pickupDate: Option<string>, pickupWindowStart: Option<string>, pickupWindowEnd: Option<string>,
    status: Option<OperationStatus>, mandate: Option<Mandate>, carriers: Option<seq<Carrier>>)

  function Or<T>(patch: Option<T>, current: T): T {
    if patch.Some? then patch.value else current
  }

  function CarrierIds(carriers: seq<Carrier>): set<string> {
    set c | c in carriers :: c.id
  }

  function Renamed(carriers: seq<Carrier>, updates: seq<Carrier>): (r: seq<Carrier>)
    ensures |r| == |carriers|
  {
    if carriers == [] then []
    else [Carrier(carriers[0].id, CarrierName(updates, carriers[0].id))] + Renamed(carriers[1..], updates)
  }

  function UpdateConfiguration(s: Snapshot, operationId: string, patch: ConfigurationPatch): Result<Done<Snapshot>> {
    if s.operation.id != operationId then Err(OperationNotFound)
    else
      var operation := s.operation.(
        pickupDate := Or(patch.pickupDate, s.operation.pickupDate),
        pickupWindowStart := Or(patch.pickupWindowStart, s.operation.pickupWindowStart),
        pickupWindowEnd := Or(patch.pickupWindowEnd, s.operation.pickupWindowEnd),
        status := Or(patch.status, s.operation.status));
      var s1 := s.(operation := operation, mandate := Or(patch.mandate, s.mandate));
      if patch.carriers.Some? && (|CarrierIds(patch.carriers.value)| != |s.carriers|
                                  || !(CarrierIds(s.carriers) <= CarrierIds(patch.carriers.value))) then
        Err(EveryCarrierRequired)
      else
        var s2 := if patch.carriers.Some? then s1.(carriers := Renamed(s.carriers, patch.carriers.value)) else s1;
        var s3 := PushEvent(s2, "mandate.updated");
        Ok(Done(s3, s3))
  }

  function CreateCall(s: Snapshot, operationId: string, mode: CallMode): Result<Done<CallAttempt>> {
    if s.operation.id != operationId then Err(OperationNotFound)
    else
      var call := CallAttempt(s.nextId, mode, Queued);
      Ok(Done(PushEvent(s.(calls := s.calls + [call], nextId := s.nextId + 1), "call.queued"), call))
  }

  function IndexOfCall(calls: seq<CallAttempt>, id: nat): (i: nat)
    ensures i <= |calls| && (i < |calls| ==> calls[i].id == id)
  {
    if calls == [] || calls[0].id == id then 0 else 1 + IndexOfCall(calls[1..], id)
  }

  function UpdateCall(s: Snapshot, callId: nat, status: Option<CallStatus>): Result<Done<CallAttempt>> {
    var i := IndexOfCall(s.calls, callId);
    if i == |s.calls| then Err(CallNotFound)
    else
      var call := s.calls[i].(status := Or(status, s.calls[i].status));
      var s1 := s.(calls := s.calls[i := call]);
      var s2 := if call.mode == QuoteCall && status in {Some(Completed), Some(Failed)} && QuotesSettled(s1)
                then s1.(operation := s1.operation.(status := Quoted)) else s1;
      Ok(Done(PushEvent(s2, "call.updated"), call))
  }

  function CreateEscalation(s: Snapshot, callId: nat): Done<Escalation> {
    if s.escalation.Some? && s.escalation.value.callId == callId && s.escalation.value.status != Resolved then
      Done(s, s.escalation.value)
    else
      var escalation := Escalation(s.nextId, callId, Open);
      var s1 := s.(escalation := Some(escalation), operation := s.operation.(status := AtRisk), nextId := s.nextId + 1);
      var s2 := PushEvent(s1, "escalation.requested");
      var s3 := PushDecision(s2, "HUMAN_HANDOFF_REQUIRED", Escalate, None, EscalationRequired(escalation.id)).state;
      Done(s3, escalation)
  }

  function UpdateEscalation(s: Snapshot, id: nat, status: EscalationStatus): Result<Done<Escalation>> {
    if s.escalation.None? || s.escalation.value.id != id then Err(EscalationNotFound)
    else
      var escalation := s.escalation.value.(status := status);
      Ok(Done(PushEvent(s.(escalation := Some(escalation)), "escalation.updated"), escalation))
  }

  // ----- one mutation, any mutation -----

  datatype Op =
    | OpUpdateConfiguration(operationId: string, patch: ConfigurationPatch)
    | OpCreateCall(operationId: string, mode: CallMode)
    | OpUpdateCall(callId: nat, status: Option<CallStatus>)
    | OpRecordDecision(kind: string, outcome: Outcome, related: Option<nat>, key: Key)
    | OpRecordOffer(input: OfferInput)
    | OpStageBooking(operationId: string, offerId: nat, callId: nat, tokenHash: nat)
    | OpConfirmBooking(commitmentId: nat, tokenHash: nat)
    | OpMarkRecapSent(commitmentId: nat, messageSid: string)
    | OpSupersedeCommitment(commitmentId: nat)
    | OpLinkEvidence(commitmentId: nat, segment: string)
    | OpCreateEscalation(callId: nat)
    | OpUpdateEscalation(escalationId: nat, escalationStatus: EscalationStatus)
    | OpAddEvent(eventKind: string)

  function StateOf<T>(r: Result<Done<T>>): Result<Snapshot> {
    match r
    case Ok(done) => Ok(done.state)
    case Err(error) => Err(error)
  }

  /** The snapshot a mutation would write, or the error that keeps it from writing. */
  function Perform(collate: Collation, s: Snapshot, now: int, op: Op): Result<Snapshot> {
    match op
    case OpUpdateConfiguration(operationId, patch) => StateOf(UpdateConfiguration(s, operationId, patch))
    case OpCreateCall(operationId, mode) => StateOf(CreateCall(s, operationId, mode))
    case OpUpdateCall(callId, status) => StateOf(UpdateCall(s, callId, status))
    case OpRecordDecision(kind, outcome, related, key) => Ok(PushDecision(s, kind, outcome, related, key).state)
    case OpRecordOffer(input) => StateOf(RecordOffer(collate, s, now, input))
    case OpStageBooking(operationId, offerId, callId, tokenHash) =>
      StateOf(StageBooking(collate, s, now, operationId, offerId, callId, tokenHash))
    case OpConfirmBooking(commitmentId, tokenHash) => StateOf(ConfirmBooking(collate, s, now, commitmentId, tokenHash))
    case OpMarkRecapSent(commitmentId, messageSid) => StateOf(MarkRecapSent(s, now, commitmentId, messageSid))
    case OpSupersedeCommitment(commitmentId) => StateOf(SupersedeCommitment(s, commitmentId))
    case OpLinkEvidence(commitmentId, segment) => StateOf(LinkEvidence(s, now, commitmentId, segment))
    case OpCreateEscalation(callId) => Ok(CreateEscalation(s, callId).state)
    case OpUpdateEscalation(id, status) => StateOf(UpdateEscalation(s, id, status))
    case OpAddEvent(kind) => Ok(PushEvent(s, kind))
  }

  datatype Timed = Timed(now: int, op: Op)

  /** A run: a mutation that throws writes nothing. */
  function RunOps(collate: Collation, s: Snapshot, ops: seq<Timed>): Snapshot {
    if ops == [] then s
    else
      var before := RunOps(collate, s, ops[..|ops| - 1]);
      var last := ops[|ops| - 1];
      var r := Perform(collate, before, last.now, last.op);
      if r.Ok? then r.value else before
  }

  /** A fresh operation: no calls, offers, commitment or evidence yet. */
  predicate IsSeed(s: Snapshot) {
    && s.calls == [] && s.offers == [] && s.commitment.None? && s.evidence.None? && s.escalation.None?
    && s.decisions == [] && |s.events| <= WINDOW
  }
}
