/** What callers of the market get, said in the fields of the offers. */
module MarketProofs {
  import opened Domain
  import opened Wrappers
  import opened Policy
  import opened Ledger
  import opened LedgerProofs

  // ----- recording an offer -----

  /** The offer says what the caller said. */
  ghost predicate Answers(o: Offer, input: OfferInput) {
    && o.carrierId == input.carrierId && o.amount == input.amount && o.currency == input.currency
    && o.pickupDate == input.pickupDate && o.pickupTime == input.pickupTime
    && var said := if input.conditions.Some? then input.conditions.value else [];
    |o.conditions| == |said| && forall c :: c in o.conditions ==> c in said
  }

  ghost predicate Standing(s: Snapshot, o: Offer, carrierId: string) {
    Live(s.offers, o) && o.carrierId == carrierId
  }

  /** Whatever the state of the market, a caller gets an offer with the terms it named. */
  lemma RecordOfferAnswers(collate: Collation, s: Snapshot, now: int, input: OfferInput)
    ensures var r := RecordOffer(collate, s, now, input);
            && (r.Ok? <==> s.operation.id == input.operationId)
            && (r.Ok? ==> Answers(r.value.value, input))
  {
  }

  lemma StandingIsPrevious(s: Snapshot, o: Offer, carrierId: string)
    requires MarketOk(s) && Standing(s, o, carrierId)
    ensures var i := PreviousOffer(s.offers, carrierId); i < |s.offers| && s.offers[i] == o
  {
    var mine := OffersOf(s.offers, carrierId);
    OffersOfMembers(s.offers, carrierId);
    assert Revisions(mine) && o in mine;
    PreviousIsLast(s.offers, carrierId);
  }

  /**
    Terms that restate the standing offer change nothing. Any other terms are recorded: a new live offer
    takes the place of the standing one, a revision higher, or of none, as revision 1.
   */
  lemma RecordedExactlyWhenNew(collate: Collation, s: Snapshot, now: int, input: OfferInput)
    requires MarketOk(s) && s.operation.id == input.operationId
    ensures var Done(t, offer) := RecordOffer(collate, s, now, input).value;
            && (t == s <==> exists o :: Standing(s, o, input.carrierId) && Answers(o, input))
            && (t == s ==> Standing(s, offer, input.carrierId))
            && (t != s ==> offer !in s.offers && Standing(t, offer, input.carrierId) && offer.createdAt == now)
            && (t != s && (forall o :: !Standing(s, o, input.carrierId)) ==> offer.revision == 1)
    ensures var Done(t, offer) := RecordOffer(collate, s, now, input).value;
            forall o :: Standing(s, o, input.carrierId) && !Answers(o, input) ==>
              && offer.revision == o.revision + 1
              && !Live(t.offers, o) && o.(supersededAt := Some(now)) in t.offers
  {
    var done := RecordOffer(collate, s, now, input).value;
    var i := PreviousOffer(s.offers, input.carrierId);
    var added := AddOffer(s, now, input);
    NoteOfferFrame(collate, added.state, added.value);
    forall o | Standing(s, o, input.carrierId)
      ensures i < |s.offers| && s.offers[i] == o
    {
      StandingIsPrevious(s, o, input.carrierId);
    }
    var mine := OffersOf(s.offers, input.carrierId);
    OffersOfMembers(s.offers, input.carrierId);
    assert Revisions(mine);
    PreviousIsLast(s.offers, input.carrierId);
    if i < |s.offers| {
      assert Standing(s, s.offers[i], input.carrierId);
    }
    if i < |s.offers| && RestatesOffer(s.offers[i], input) {
      assert done == Done(s, s.offers[i]);
    } else {
      assert done.state.nextId > s.nextId;
      assert done.state.offers[|s.offers|] == done.value;
      if i < |s.offers| {
        assert done.state.offers[i] == s.offers[i].(supersededAt := Some(now));
        SupersededIsGone(s, i, now, done.value);
      }
    }
  }

  lemma SupersededIsGone(s: Snapshot, i: nat, now: int, offer: Offer)
    requires MarketOk(s) && i < |s.offers| && s.offers[i].supersededAt.None? && offer.id >= s.nextId
    ensures s.offers[i] !in Supersede(s.offers, i, now) + [offer]
  {
    var after := Supersede(s.offers, i, now) + [offer];
    forall k | 0 <= k < |after|
      ensures after[k] != s.offers[i]
    {
      assert k < |s.offers| && k != i ==> s.offers[k].id != s.offers[i].id;
      assert s.offers[i] in s.offers;
    }
  }

  // ----- judging an offer -----

  /** The rule behind each violation. */
  ghost predicate Breaks(operation: Operation, mandate: Mandate, o: Offer, v: Violation) {
    match v
    case CounterLimitExhausted => mandate.negotiateRate && o.revision > 1 + mandate.maximumCounters
    case RateNegotiationNotAuthorized => !mandate.negotiateRate && o.revision > 1
    case CurrencyMismatch => o.currency != mandate.currency
    case RateAboveMandate => o.amount > mandate.maximumRate
    case PickupDayOutsideMandate => o.pickupDate != operation.pickupDate
    case PickupTimeOutsideWindow =>
      || (exists k: nat :: DiffersAt(o.pickupTime, operation.pickupWindowStart, k))
      || (exists k: nat :: DiffersAt(operation.pickupWindowEnd, o.pickupTime, k))
    case UnsupportedAccessorial => o.conditions != [] && !mandate.acceptAccessorials
  }

  lemma FlagHas(broken: bool, w: Violation, v: Violation)
    ensures v in Flag(broken, w) <==> broken && v == w
  {
  }

  lemma InOneOfSix(a: seq<Violation>, b: seq<Violation>, c: seq<Violation>, d: seq<Violation>, e: seq<Violation>,
                   f: seq<Violation>, v: Violation)
    ensures v in a + b + c + d + e + f <==> v in a || v in b || v in c || v in d || v in e || v in f
  {
    assert v in a + b <==> v in a || v in b;
    assert v in a + b + c <==> v in a + b || v in c;
    assert v in a + b + c + d <==> v in a + b + c || v in d;
    assert v in a + b + c + d + e <==> v in a + b + c + d || v in e;
  }

  lemma ViolationsMean(s: Snapshot, now: int, input: OfferInput, revision: int, v: Violation)
    ensures v in Violations(s.operation, s.mandate, input, revision) <==>
              Breaks(s.operation, s.mandate, MakeOffer(s, now, input, revision), v)
  {
    StringLessMeans(input.pickupTime, s.operation.pickupWindowStart);
    StringLessMeans(s.operation.pickupWindowEnd, input.pickupTime);
    var outside := StringLess(input.pickupTime, s.operation.pickupWindowStart)
                   || StringLess(s.operation.pickupWindowEnd, input.pickupTime);
    var (m, n) := (s.mandate, s.operation);
    var counter := if m.negotiateRate then CounterLimitExhausted else RateNegotiationNotAuthorized;
    FlagHas(revision - 1 > CounterBudget(m), counter, v);
    FlagHas(input.currency != m.currency, CurrencyMismatch, v);
    FlagHas(input.amount > m.maximumRate, RateAboveMandate, v);
    FlagHas(input.pickupDate != n.pickupDate, PickupDayOutsideMandate, v);
    FlagHas(outside, PickupTimeOutsideWindow, v);
    FlagHas(!m.acceptAccessorials && |Conditions(input)| > 0, UnsupportedAccessorial, v);
    hide StringLess, DiffersAt, Flag;
    InOneOfSix(
      Flag(revision - 1 > CounterBudget(m), counter), Flag(input.currency != m.currency, CurrencyMismatch),
      Flag(input.amount > m.maximumRate, RateAboveMandate),
      Flag(input.pickupDate != n.pickupDate, PickupDayOutsideMandate), Flag(outside, PickupTimeOutsideWindow),
      Flag(!m.acceptAccessorials && |Conditions(input)| > 0, UnsupportedAccessorial), v);
  }

  /** A new offer carries exactly the violations of the mandate it commits, and is eligible without any. */
  lemma NewOfferJudged(collate: Collation, s: Snapshot, now: int, input: OfferInput)
    requires RecordOffer(collate, s, now, input).Ok? && RecordOffer(collate, s, now, input).value.state != s
    ensures var o := RecordOffer(collate, s, now, input).value.value;
            && (forall v :: v in o.violations <==> Breaks(s.operation, s.mandate, o, v))
            && (o.eligible <==> forall v :: !Breaks(s.operation, s.mandate, o, v))
  {
    var o := RecordOffer(collate, s, now, input).value.value;
    hide Violations, Breaks, RestatesOffer;
    forall v
      ensures v in o.violations <==> Breaks(s.operation, s.mandate, o, v)
    {
      ViolationsMean(s, now, input, o.revision, v);
    }
    if o.violations != [] {
      assert o.violations[0] in o.violations;
    }
  }

  function QuoteCalls(calls: seq<CallAttempt>, from: nat): set<nat> {
    set i: nat | from <= i < |calls| && calls[i].mode == QuoteCall
  }

  lemma {:induction false} CountsQuoteCalls(calls: seq<CallAttempt>, from: nat)
    requires from <= |calls|
    ensures QuoteCount(calls[from..]) == |QuoteCalls(calls, from)|
    ensures TerminalCount(calls[from..]) == QuoteCount(calls[from..]) <==>
            forall i :: i in QuoteCalls(calls, from) ==> calls[i].status == Completed || calls[i].status == Failed
    decreases |calls| - from
  {
    if from < |calls| {
      CountsQuoteCalls(calls, from + 1);
      assert calls[from..][1..] == calls[from + 1..];
      var rest := QuoteCalls(calls, from + 1);
      assert QuoteCalls(calls, from) == if calls[from].mode == QuoteCall then {from} + rest else rest;
    }
  }

  /** A new offer leaves the operation quoted if as many quote calls as carriers were made and all are over. */
  lemma NewOfferMovesOperation(collate: Collation, s: Snapshot, now: int, input: OfferInput)
    requires RecordOffer(collate, s, now, input).Ok?
    requires RecordOffer(collate, s, now, input).value.state.offers != s.offers
    ensures var t := RecordOffer(collate, s, now, input).value.state;
            var quotes := QuoteCalls(s.calls, 0);
            var settled := |s.carriers| <= |quotes|
                           && forall i :: i in quotes ==> s.calls[i].status == Completed || s.calls[i].status == Failed;
            t.operation == s.operation.(status := if settled then Quoted else Scanning)
  {
    CountsQuoteCalls(s.calls, 0);
    assert s.calls[0..] == s.calls;
    var added := AddOffer(s, now, input);
    NoteOfferFrame(collate, added.state, added.value);
  }

  lemma NewDecisionIsKept(s: Snapshot, kind: string, outcome: Outcome, related: Option<nat>, key: Key)
    requires FindDecision(s.decisions, key).None?
    ensures var Done(t, d) := PushDecision(s, kind, outcome, related, key);
            && d == Decision(s.nextId, kind, outcome, related, key)
            && t.decisions == Capped([d] + s.decisions)
  {
  }

  lemma WinnerById(collate: Collation, t: Snapshot, o: Offer)
    requires DistinctIds(t.offers) && o in t.offers
    ensures Winner(collate, t.carriers, t.offers) == Some(o) <==>
              Winner(collate, t.carriers, t.offers).Some? && Winner(collate, t.carriers, t.offers).value.id == o.id
  {
    WinnerIsLive(collate, t.carriers, t.offers);
  }

  /** Noting an offer records its evaluation, and its selection exactly if it is the winner. */
  lemma NotingDecides(collate: Collation, s: Snapshot, o: Offer)
    requires DistinctIds(s.offers) && o in s.offers
    requires forall d :: d in s.decisions ==> d.key != OfferEvaluated(o.id) && d.key != OfferWinner(o.id)
    ensures var t := NoteOffer(collate, s, o);
            && (exists d :: d in t.decisions && d.key == OfferEvaluated(o.id) && d.kind == "OFFER_EVALUATED"
                            && d.outcome == (if o.eligible then Allow else Block) && d.relatedOfferId == Some(o.id))
            && ((exists d :: d in t.decisions && d.key == OfferWinner(o.id)) <==>
                  Winner(collate, s.carriers, s.offers) == Some(o))
  {
    hide Winner, DistinctIds;
    WinnerById(collate, s, o);
    var s1 := PushEvent(s, if o.eligible then "offer.eligible" else "offer.blocked");
    FindDecisionFinds(s1.decisions, OfferEvaluated(o.id));
    var outcome := if o.eligible then Allow else Block;
    NewDecisionIsKept(s1, "OFFER_EVALUATED", outcome, Some(o.id), OfferEvaluated(o.id));
    var Done(s2, d1) := PushDecision(s1, "OFFER_EVALUATED", outcome, Some(o.id), OfferEvaluated(o.id));
    assert s2.decisions[0] == d1;
    FindDecisionFinds(s2.decisions, OfferWinner(o.id));
    NewDecisionIsKept(s2, "MARKET_WINNER_UPDATED", Select, Some(o.id), OfferWinner(o.id));
    var t := NoteOffer(collate, s, o);
    if Winner(collate, s.carriers, s.offers) == Some(o) {
      assert t.decisions[0].key == OfferWinner(o.id) && t.decisions[1] == d1;
    } else {
      assert t == s2;
    }
  }

  lemma NewOfferNoted(collate: Collation, s: Snapshot, now: int, input: OfferInput)
    requires MarketOk(s)
    requires RecordOffer(collate, s, now, input).Ok?
    requires RecordOffer(collate, s, now, input).value.state.offers != s.offers
    requires forall d :: d in s.decisions ==> d.key != OfferEvaluated(s.nextId) && d.key != OfferWinner(s.nextId)
    ensures var Done(t, o) := RecordOffer(collate, s, now, input).value;
            && o.id == s.nextId
            && (exists d :: d in t.decisions && d.key == OfferEvaluated(o.id) && d.kind == "OFFER_EVALUATED"
                            && d.outcome == (if o.eligible then Allow else Block) && d.relatedOfferId == Some(o.id))
            && ((exists d :: d in t.decisions && d.key == OfferWinner(o.id)) <==>
                  Winner(collate, t.carriers, t.offers) == Some(o))
  {
    hide Winner, RestatesOffer, PreviousOffer, QuotesSettled, Violations, OffersOf, NoteOffer;
    var added := AddOffer(s, now, input);
    NoteOfferFrame(collate, added.state, added.value);
    RecordOfferKeepsMarket(collate, s, now, input);
    assert added.state.offers[|added.state.offers| - 1] == added.value;
    NotingDecides(collate, added.state, added.value);
  }

  // ----- ties -----

  function LiveOnes(offers: seq<Offer>): seq<Offer> {
    if offers == [] then []
    else
      var last := offers[|offers| - 1];
      LiveOnes(offers[..|offers| - 1]) + if last.supersededAt.None? then [last] else []
  }

  ghost predicate OneLiveEach(offers: seq<Offer>) {
    forall i, j :: 0 <= i < j < |offers| && offers[i].supersededAt.None? && offers[j].supersededAt.None? ==>
      offers[i].carrierId != offers[j].carrierId
  }

  lemma {:induction false} LatestAreLive(offers: seq<Offer>)
    requires OneLiveEach(offers)
    ensures Latest(offers) == LiveOnes(offers)
  {
    if offers != [] {
      var init, last := offers[..|offers| - 1], offers[|offers| - 1];
      LatestAreLive(init);
      LatestIsLatest(init);
      forall o | o in Latest(init)
        ensures last.supersededAt.None? ==> o.carrierId != last.carrierId
      {
        assert Live(init, o);
        var k :| 0 <= k < |init| && init[k] == o;
        assert offers[k] == o && offers[|init|] == last;
      }
    }
  }

  lemma LiveStandsAt(s: Snapshot, i: nat)
    requires MarketOk(s) && i < |s.offers| && s.offers[i].supersededAt.None?
    ensures PreviousOffer(s.offers, s.offers[i].carrierId) == i
  {
    var o, p := s.offers[i], PreviousOffer(s.offers, s.offers[i].carrierId);
    StandingIsPrevious(s, o, o.carrierId);
    SamePlace(s.offers, p, i);
  }

  lemma SamePlace(offers: seq<Offer>, i: nat, j: nat)
    requires DistinctIds(offers) && i < |offers| && j < |offers| && offers[i].id == offers[j].id
    ensures i == j
  {
  }

  lemma MarketHasOneLiveEach(s: Snapshot)
    requires MarketOk(s)
    ensures OneLiveEach(s.offers)
  {
    hide MarketOk;
    forall i, j | 0 <= i < j < |s.offers| && s.offers[i].supersededAt.None? && s.offers[j].supersededAt.None?
      ensures s.offers[i].carrierId != s.offers[j].carrierId
    {
      LiveStandsAt(s, i);
      LiveStandsAt(s, j);
    }
  }

  ghost predicate Before(offers: seq<Offer>, a: Offer, b: Offer) {
    exists p, q :: 0 <= p < q < |offers| && offers[p] == a && offers[q] == b
  }

  lemma BeforeInPrefix(offers: seq<Offer>, a: Offer, b: Offer)
    requires offers != []
    ensures var n := |offers| - 1;
            Before(offers, a, b) <==> Before(offers[..n], a, b) || (b == offers[n] && a in offers[..n])
  {
    var n := |offers| - 1;
    if Before(offers[..n], a, b) {
      var p, q :| 0 <= p < q < n && offers[..n][p] == a && offers[..n][q] == b;
      assert offers[p] == a && offers[q] == b;
    }
    if b == offers[n] && a in offers[..n] {
      var p :| 0 <= p < n && offers[..n][p] == a;
      assert offers[p] == a;
    }
    if Before(offers, a, b) {
      var p, q :| 0 <= p < q <= n && offers[p] == a && offers[q] == b;
      assert offers[..n][p] == a && (q < n ==> offers[..n][q] == b);
    }
  }

  lemma BeforeInRest(offers: seq<Offer>, a: Offer, b: Offer)
    requires offers != []
    ensures Before(offers, a, b) <==> Before(offers[1..], a, b) || (a == offers[0] && b in offers[1..])
  {
    var rest := offers[1..];
    if Before(rest, a, b) {
      var p, q :| 0 <= p < q < |rest| && rest[p] == a && rest[q] == b;
      assert offers[p + 1] == a && offers[q + 1] == b;
    }
    if a == offers[0] && b in rest {
      var q :| 0 <= q < |rest| && rest[q] == b;
      assert offers[q + 1] == b;
    }
    if Before(offers, a, b) {
      var p, q :| 0 <= p < q < |offers| && offers[p] == a && offers[q] == b;
      assert rest[q - 1] == b && (p > 0 ==> rest[p - 1] == a);
    }
  }

  lemma {:induction false} EligibleKeepsOrder(offers: seq<Offer>, a: Offer, b: Offer)
    requires Before(Eligible(offers), a, b)
    ensures Before(offers, a, b)
  {
    BeforeInRest(offers, a, b);
    BeforeInRest(Eligible(offers), a, b);
    hide Before;
    if offers[0].eligible {
      assert Eligible(offers)[1..] == Eligible(offers[1..]);
    }
    if Before(Eligible(offers[1..]), a, b) {
      EligibleKeepsOrder(offers[1..], a, b);
    }
  }

  lemma {:induction false} LiveMembers(offers: seq<Offer>)
    ensures forall o :: o in LiveOnes(offers) ==> o in offers
  {
    if offers != [] {
      LiveMembers(offers[..|offers| - 1]);
    }
  }

  lemma {:induction false} LiveKeepsOrder(offers: seq<Offer>, a: Offer, b: Offer)
    requires Before(LiveOnes(offers), a, b)
    ensures Before(offers, a, b)
  {
    var init, last := offers[..|offers| - 1], offers[|offers| - 1];
    BeforeInPrefix(offers, a, b);
    BeforeInPrefix(LiveOnes(offers), a, b);
    hide Before;
    LiveMembers(init);
    if last.supersededAt.None? {
      assert LiveOnes(offers)[..|LiveOnes(offers)| - 1] == LiveOnes(init);
    }
    if Before(LiveOnes(init), a, b) {
      LiveKeepsOrder(init, a, b);
    }
  }

  lemma FirstOfEquals(collate: Collation, carriers: seq<Carrier>, candidates: seq<Offer>, k: nat, o: Offer)
    requires FirstLeast(collate, carriers, candidates, k) && o in candidates && o != candidates[k]
    requires !Ahead(collate, carriers, candidates[k], o)
    ensures Before(candidates, candidates[k], o)
  {
    var j :| 0 <= j < |candidates| && candidates[j] == o;
    assert j > k;
  }

  /** Of offers that tie in amount, time and carrier name the one recorded first wins. */
  lemma TieGoesToFirstRecorded(collate: Collation, s: Snapshot, p: nat, q: nat)
    requires MarketOk(s) && IsCollation(collate) && TimesDistinguished(collate, s.offers)
    requires p < |s.offers| && q < |s.offers| && Winner(collate, s.carriers, s.offers) == Some(s.offers[p])
    requires Live(s.offers, s.offers[q]) && s.offers[q].eligible
    requires s.offers[p].amount == s.offers[q].amount && s.offers[p].pickupTime == s.offers[q].pickupTime
    requires CarrierName(s.carriers, s.offers[p].carrierId) == CarrierName(s.carriers, s.offers[q].carrierId)
    ensures p <= q
  {
    var w, o := s.offers[p], s.offers[q];
    var candidates := Eligible(Latest(s.offers));
    assert DistinctIds(s.offers);
    MarketHasOneLiveEach(s);
    LatestAreLive(s.offers);
    WinnerIsLeast(collate, s.carriers, s.offers);
    LiveIsLatest(s, o);
    assert o in candidates;
    CollatesSelf(collate, CarrierName(s.carriers, o.carrierId));
    hide Eligible, Latest, MarketOk, CarrierName, Winner, IsCollation, TimesDistinguished, FirstLeast;
    var k: nat :| k < |candidates| && FirstLeast(collate, s.carriers, candidates, k) && candidates[k] == w;
    if p != q {
      assert w.id != o.id;
      FirstOfEquals(collate, s.carriers, candidates, k, o);
      EligibleKeepsOrder(LiveOnes(s.offers), w, o);
      LiveKeepsOrder(s.offers, w, o);
    }
  }
}
