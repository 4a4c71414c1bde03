/** The operation snapshot: what the ledger stores, one value per version. */
module Domain {
  import opened Wrappers

  datatype Result<+T> = Ok(value: T) | Err(error: Error)

  datatype Error =
    | OperationNotFound
    | EveryCarrierRequired
    | CallNotFound
    | OfferNotFound
    | OfferSuperseded
    | NotTheWinner
    | OfferViolatesMandate
    | CarrierNotFound
    | ActiveCommitmentExists
    | CommitmentNotFound
    | TokenExpired
    | InvalidToken
    | InvalidTransition(from: CommitmentStatus, to: CommitmentStatus)
    | NothingConfirmed
    | EscalationNotFound

  datatype OperationStatus = Draft | Scanning | Quoted | Booking | OperationCommitted | AtRisk

  datatype Operation = Operation(
    id: string, pickupDate: string, pickupWindowStart: string, pickupWindowEnd: string, status: OperationStatus)

  datatype Mandate = Mandate(
    currency: string, maximumRate: real, negotiateRate: bool, acceptAccessorials: bool, maximumCounters: int)

  datatype Carrier = Carrier(id: string, name: string)

  datatype CallMode = QuoteCall | BookingCall | RenegotiationCall | InboundCall | HandoffCall

  datatype CallStatus = Queued | Ringing | InProgress | Completed | Failed

  datatype CallAttempt = CallAttempt(id: nat, mode: CallMode, status: CallStatus)

  datatype Violation =
    | CounterLimitExhausted
    | RateNegotiationNotAuthorized
    | CurrencyMismatch
    | RateAboveMandate
    | PickupDayOutsideMandate
    | PickupTimeOutsideWindow
    | UnsupportedAccessorial

  datatype OfferInput = OfferInput(
    operationId: string, carrierId: string, callId: nat, amount: real, currency: string,
    pickupDate: string, pickupTime: string, conditions: Option<seq<string>>)

  datatype Offer = Offer(
    id: nat, carrierId: string, callId: nat, revision: int, amount: real, currency: string,
    pickupDate: string, pickupTime: string, conditions: seq<string>,
    eligible: bool, violations: seq<Violation>, supersededAt: Option<int>, createdAt: int)

  datatype CommitmentStatus =
    | Proposed
    | VerballyConfirmed
    | RecapSent
    | EvidenceLinked
    | Committed
    | Superseded
    | Rejected
    | VerificationFailed
    | Escalated

  datatype Commitment = Commitment(
    id: nat, carrierId: string, offerId: nat, bookingCallId: nat, status: CommitmentStatus,
    tokenHash: nat, tokenExpiresAt: int,
    verballyConfirmedAt: Option<int>, recapSentAt: Option<int>, messageSid: Option<string>, committedAt: Option<int>)

  datatype Evidence = Evidence(id: nat, commitmentId: nat, segment: string, verifiedAt: int)

  datatype EscalationStatus = Open | Dialing | Connected | Resolved

  datatype Escalation = Escalation(id: nat, callId: nat, status: EscalationStatus)

  datatype Outcome = Allow | Block | Select | Escalate | Observe

  /** Idempotency keys; the source builds them as strings, callers of recordDecision may pass any of them. */
  datatype Key =
    | OfferEvaluated(offer: nat)
    | OfferWinner(offer: nat)
    | BookingStaged(commitment: nat)
    | BookingConfirmed(commitment: nat)
    | CommitmentSuperseded(commitment: nat)
    | EscalationRequired(escalation: nat)
    | Other(text: string)

  datatype Decision = Decision(id: nat, kind: string, outcome: Outcome, relatedOfferId: Option<nat>, key: Key)

  datatype Event = Event(id: nat, kind: string)

  /** `nextId` stands for the source of fresh random identifiers: everything below it may be in use. */
  datatype Snapshot = Snapshot(
    operation: Operation, mandate: Mandate, carriers: seq<Carrier>, calls: seq<CallAttempt>, offers: seq<Offer>,
    commitment: Option<Commitment>, evidence: Option<Evidence>, escalation: Option<Escalation>,
    decisions: seq<Decision>, events: seq<Event>, nextId: nat)

  // ----- the commitment state machine -----

  function Successors(from: CommitmentStatus): set<CommitmentStatus> {
    match from
    case Proposed => {VerballyConfirmed, Superseded, Rejected, Escalated}
    case VerballyConfirmed => {RecapSent, Superseded, Rejected, VerificationFailed}
    case RecapSent => {EvidenceLinked, Superseded, VerificationFailed}
    case EvidenceLinked => {Committed, Superseded, VerificationFailed}
    case Committed => {Superseded, Escalated}
    case Superseded => {}
    case Rejected => {}
    case VerificationFailed => {EvidenceLinked, Escalated}
    case Escalated => {}
  }

  function TransitionCommitment(from: CommitmentStatus, to: CommitmentStatus): Result<CommitmentStatus> {
    if to in Successors(from) then Ok(to) else Err(InvalidTransition(from, to))
  }
}
