/** The mandate engine and the market ranking. */
module Policy {
  import opened Domain
  import opened Wrappers

  /** The locale's string order, as a three-way comparison. */
  type Collation = (string, string) -> int

  ghost predicate IsCollation(collate: Collation) {
    && (forall a, b :: collate(a, b) > 0 <==> collate(b, a) < 0)
    && (forall a, b, c :: collate(a, b) <= 0 && collate(b, c) <= 0 ==> collate(a, c) <= 0)
  }

  /** String comparison by code units, as `<` does it. */
  predicate StringLess(a: string, b: string) {
    if b == "" then false
    else if a == "" then true
    else a[0] < b[0] || (a[0] == b[0] && StringLess(a[1..], b[1..]))
  }

  /** Up to some place the two agree, and there the first ends or has the smaller code unit. */
  ghost predicate DiffersAt(a: string, b: string, k: nat) {
    k <= |a| && k < |b| && a[..k] == b[..k] && (k < |a| ==> a[k] < b[k])
  }

  lemma {:induction false} StringLessMeans(a: string, b: string)
    ensures StringLess(a, b) <==> exists k: nat :: DiffersAt(a, b, k)
  {
    if a == "" && b != "" {
      assert DiffersAt(a, b, 0);
    } else if a != "" && b != "" {
      StringLessMeans(a[1..], b[1..]);
      if a[0] < b[0] {
        assert DiffersAt(a, b, 0);
      }
      forall k: nat | DiffersAt(a[1..], b[1..], k) && a[0] == b[0]
        ensures DiffersAt(a, b, k + 1)
      {
        assert a[..k + 1] == [a[0]] + a[1..][..k] && b[..k + 1] == [b[0]] + b[1..][..k];
      }
      forall k: nat | DiffersAt(a, b, k) && k > 0
        ensures a[0] == b[0] && DiffersAt(a[1..], b[1..], k - 1)
      {
        assert a[..k][0] == b[..k][0];
        assert a[1..][..k - 1] == a[..k][1..] && b[1..][..k - 1] == b[..k][1..];
      }
    }
  }

  function CounterBudget(mandate: Mandate): int {
    if mandate.negotiateRate then mandate.maximumCounters else 0
  }

  function Conditions(input: OfferInput): seq<string> {
    if input.conditions.Some? then input.conditions.value else []
  }

  function Flag(broken: bool, violation: Violation): seq<Violation> {
    if broken then [violation] else []
  }

  function Violations(operation: Operation, mandate: Mandate, offer: OfferInput, revision: int): seq<Violation> {
    Flag(revision - 1 > CounterBudget(mandate),
         if mandate.negotiateRate then CounterLimitExhausted else RateNegotiationNotAuthorized)
    + Flag(offer.currency != mandate.currency, CurrencyMismatch)
    + Flag(offer.amount > mandate.maximumRate, RateAboveMandate)
    + Flag(offer.pickupDate != operation.pickupDate, PickupDayOutsideMandate)
    + Flag(StringLess(offer.pickupTime, operation.pickupWindowStart)
           || StringLess(operation.pickupWindowEnd, offer.pickupTime), PickupTimeOutsideWindow)
    + Flag(!mandate.acceptAccessorials && |Conditions(offer)| > 0, UnsupportedAccessorial)
  }

  method PushIf(violations: seq<Violation>, broken: bool, violation: Violation) returns (after: seq<Violation>)
    ensures after == violations + Flag(broken, violation)
  {
    after := violations;
    if broken {
      after := after + [violation];
    }
  }

  method EvaluateOffer(operation: Operation, mandate: Mandate, offer: OfferInput, revision: int)
    returns (violations: seq<Violation>)
    ensures violations == Violations(operation, mandate, offer, revision)
  {
    violations := PushIf([], revision - 1 > CounterBudget(mandate),
                         if mandate.negotiateRate then CounterLimitExhausted else RateNegotiationNotAuthorized);
    violations := PushIf(violations, offer.currency != mandate.currency, CurrencyMismatch);
    violations := PushIf(violations, offer.amount > mandate.maximumRate, RateAboveMandate);
    violations := PushIf(violations, offer.pickupDate != operation.pickupDate, PickupDayOutsideMandate);
    var outside := StringLess(offer.pickupTime, operation.pickupWindowStart)
                   || StringLess(operation.pickupWindowEnd, offer.pickupTime);
    violations := PushIf(violations, outside, PickupTimeOutsideWindow);
    violations := PushIf(violations, !mandate.acceptAccessorials && |Conditions(offer)| > 0, UnsupportedAccessorial);
    assert forall f: seq<Violation> :: [] + f == f;
  }

  /** An offer is eligible exactly if it meets every rule of the mandate. */
  lemma EligibleIff(operation: Operation, mandate: Mandate, offer: OfferInput, revision: int)
    ensures Violations(operation, mandate, offer, revision) == [] <==>
            && revision <= 1 + CounterBudget(mandate)
            && offer.currency == mandate.currency && offer.amount <= mandate.maximumRate
            && offer.pickupDate == operation.pickupDate
            && !StringLess(offer.pickupTime, operation.pickupWindowStart)
            && !StringLess(operation.pickupWindowEnd, offer.pickupTime)
            && (mandate.acceptAccessorials || Conditions(offer) == [])
  {
    var v := Violations(operation, mandate, offer, revision);
    if v == [] {
      assert |v| == 0;
    }
  }

  // ----- the latest offer of each carrier -----

  function IndexOfCarrier(offers: seq<Offer>, carrierId: string): (i: nat)
    ensures i <= |offers|
    ensures i < |offers| ==> offers[i].carrierId == carrierId
    ensures forall j :: 0 <= j < i ==> offers[j].carrierId != carrierId
  {
    if offers == [] || offers[0].carrierId == carrierId then 0 else 1 + IndexOfCarrier(offers[1..], carrierId)
  }

  /** An insertion-ordered map from carrier to offer: a higher revision takes the place of the one there. */
  function Upsert(current: seq<Offer>, offer: Offer): seq<Offer> {
    var i := IndexOfCarrier(current, offer.carrierId);
    if i == |current| then current + [offer]
    else if offer.revision > current[i].revision then current[i := offer]
    else current
  }

  function Latest(offers: seq<Offer>): seq<Offer> {
    if offers == [] then []
    else
      var before := Latest(offers[..|offers| - 1]);
      var offer := offers[|offers| - 1];
      if offer.supersededAt.None? then Upsert(before, offer) else before
  }

  method LatestOffers(offers: seq<Offer>) returns (current: seq<Offer>)
    ensures current == Latest(offers)
  {
    current := [];
    for i := 0 to |offers|
      invariant current == Latest(offers[..i])
    {
      assert offers[..i + 1][..i] == offers[..i];
      if offers[i].supersededAt.None? {
        current := Upsert(current, offers[i]);
      }
    }
    assert offers[..|offers|] == offers;
  }

  ghost predicate Live(offers: seq<Offer>, o: Offer) {
    o in offers && o.supersededAt.None?
  }

  ghost predicate OnePerCarrier(current: seq<Offer>) {
    forall i, j :: 0 <= i < j < |current| ==> current[i].carrierId != current[j].carrierId
  }

  /** Some offer of the list is by the same carrier as o and no earlier a revision. */
  ghost predicate Represented(current: seq<Offer>, o: Offer) {
    exists i :: 0 <= i < |current| && current[i].carrierId == o.carrierId && o.revision <= current[i].revision
  }

  lemma UpsertKeeps(current: seq<Offer>, offer: Offer)
    requires OnePerCarrier(current)
    ensures OnePerCarrier(Upsert(current, offer))
    ensures Represented(Upsert(current, offer), offer)
    ensures forall o :: o in Upsert(current, offer) ==> o == offer || o in current
    ensures forall o :: Represented(current, o) ==> Represented(Upsert(current, offer), o)
  {
    var i, after := IndexOfCarrier(current, offer.carrierId), Upsert(current, offer);
    assert after[i].carrierId == offer.carrierId && offer.revision <= after[i].revision;
    forall o | Represented(current, o)
      ensures Represented(after, o)
    {
      var k :| 0 <= k < |current| && current[k].carrierId == o.carrierId && o.revision <= current[k].revision;
      assert after[k].carrierId == o.carrierId && o.revision <= after[k].revision;
    }
  }

  /** The latest offers are live offers, one for every carrier that has any, of the highest revision. */
  lemma {:induction false} LatestIsLatest(offers: seq<Offer>)
    ensures forall o :: o in Latest(offers) ==> Live(offers, o)
    ensures OnePerCarrier(Latest(offers))
    ensures forall o :: Live(offers, o) ==> Represented(Latest(offers), o)
  {
    if offers != [] {
      var init, offer := offers[..|offers| - 1], offers[|offers| - 1];
      LatestIsLatest(init);
      assert offers == init + [offer];
      assert forall o :: Live(offers, o) ==> Live(init, o) || o == offer;
      assert forall o :: Live(init, o) ==> Live(offers, o);
      if offer.supersededAt.None? {
        UpsertKeeps(Latest(init), offer);
      }
    }
  }

  // ----- the ranking -----

  /** The last carrier with the id, as a map built from the list holds it; the empty name if there is none. */
  function CarrierName(carriers: seq<Carrier>, id: string): string {
    if carriers == [] then ""
    else if carriers[|carriers| - 1].id == id then carriers[|carriers| - 1].name
    else CarrierName(carriers[..|carriers| - 1], id)
  }

  /** The name is that of the last carrier with the id. */
  lemma {:induction false} CarrierNameIsLast(carriers: seq<Carrier>, id: string, i: nat)
    requires i < |carriers| && carriers[i].id == id
    requires forall j :: i < j < |carriers| ==> carriers[j].id != id
    ensures CarrierName(carriers, id) == carriers[i].name
  {
    if i < |carriers| - 1 {
      CarrierNameIsLast(carriers[..|carriers| - 1], id, i);
    }
  }

  function Compare(collate: Collation, carriers: seq<Carrier>, left: Offer, right: Offer): int {
    if left.amount < right.amount then -1
    else if left.amount > right.amount then 1
    else if left.pickupTime != right.pickupTime then collate(left.pickupTime, right.pickupTime)
    else collate(CarrierName(carriers, left.carrierId), CarrierName(carriers, right.carrierId))
  }

  function Eligible(offers: seq<Offer>): (r: seq<Offer>)
    ensures forall o :: o in r <==> o in offers && o.eligible
  {
    if offers == [] then []
    else if offers[0].eligible then [offers[0]] + Eligible(offers[1..])
    else Eligible(offers[1..])
  }

  /** Behind everything that does not come after it. */
  function Insert(collate: Collation, carriers: seq<Carrier>, sorted: seq<Offer>, o: Offer): seq<Offer> {
    if sorted == [] || Compare(collate, carriers, o, sorted[0]) < 0 then [o] + sorted
    else [sorted[0]] + Insert(collate, carriers, sorted[1..], o)
  }

  /** A stable sort by the comparison. */
  function Sorted(collate: Collation, carriers: seq<Carrier>, offers: seq<Offer>): seq<Offer> {
    if offers == [] then []
    else Insert(collate, carriers, Sorted(collate, carriers, offers[..|offers| - 1]), offers[|offers| - 1])
  }

  function RankOffers(collate: Collation, carriers: seq<Carrier>, offers: seq<Offer>): seq<Offer> {
    Sorted(collate, carriers, Eligible(Latest(offers)))
  }

  function Winner(collate: Collation, carriers: seq<Carrier>, offers: seq<Offer>): Option<Offer> {
    var ranked := RankOffers(collate, carriers, offers);
    if ranked == [] then None else Some(ranked[0])
  }

  function FindOffer(offers: seq<Offer>, id: nat): Option<Offer> {
    if offers == [] then None
    else if offers[0].id == id then Some(offers[0])
    else FindOffer(offers[1..], id)
  }

  function AssertOfferBookable(collate: Collation, s: Snapshot, offerId: nat): Result<Offer> {
    var selected := FindOffer(s.offers, offerId);
    if selected.None? then Err(OfferNotFound)
    else if selected.value.supersededAt.Some? then Err(OfferSuperseded)
    else
      var expected := Winner(collate, s.carriers, s.offers);
      if expected.None? || expected.value.id != selected.value.id then Err(NotTheWinner)
      else if !selected.value.eligible then Err(OfferViolatesMandate)
      else Ok(selected.value)
  }

  /** Two digits, a colon, two digits: what the tool that records offers accepts as a pickup time. */
  predicate IsClockTime(t: string) {
    && |t| == 5 && t[2] == ':'
    && '0' <= t[0] <= '9' && '0' <= t[1] <= '9' && '0' <= t[3] <= '9' && '0' <= t[4] <= '9'
  }

  ghost predicate SeparatesClockTimes(collate: Collation) {
    forall x, y :: IsClockTime(x) && IsClockTime(y) && collate(x, y) == 0 ==> x == y
  }

  /** Different pickup times do not tie, so the carrier name decides only between equal times. */
  ghost predicate TimesDistinguished(collate: Collation, offers: seq<Offer>) {
    forall a, b :: a in offers && b in offers && collate(a.pickupTime, b.pickupTime) == 0 ==>
      a.pickupTime == b.pickupTime
  }

  lemma CompareTransitive(collate: Collation, carriers: seq<Carrier>, offers: seq<Offer>, a: Offer, b: Offer, c: Offer)
    requires IsCollation(collate) && TimesDistinguished(collate, offers)
    requires a in offers && b in offers && c in offers
    requires Compare(collate, carriers, a, b) <= 0 && Compare(collate, carriers, b, c) <= 0
    ensures Compare(collate, carriers, a, c) <= 0
  {
    if a.amount == b.amount == c.amount {
      var x, y, z := a.pickupTime, b.pickupTime, c.pickupTime;
      assert collate(x, y) == 0 ==> x == y;
    }
  }

  lemma CompareTotal(collate: Collation, carriers: seq<Carrier>, a: Offer, b: Offer)
    requires IsCollation(collate)
    ensures Compare(collate, carriers, a, b) > 0 <==> Compare(collate, carriers, b, a) < 0
  {
  }

  lemma {:induction false} InsertKeeps(collate: Collation, carriers: seq<Carrier>, sorted: seq<Offer>, o: Offer)
    ensures multiset(Insert(collate, carriers, sorted, o)) == multiset(sorted) + multiset{o}
  {
    if sorted != [] && Compare(collate, carriers, o, sorted[0]) >= 0 {
      InsertKeeps(collate, carriers, sorted[1..], o);
      assert sorted == [sorted[0]] + sorted[1..];
    }
  }

  lemma {:induction false} SortedPermutes(collate: Collation, carriers: seq<Carrier>, offers: seq<Offer>)
    ensures multiset(Sorted(collate, carriers, offers)) == multiset(offers)
  {
    if offers != [] {
      var n := |offers| - 1;
      SortedPermutes(collate, carriers, offers[..n]);
      InsertKeeps(collate, carriers, Sorted(collate, carriers, offers[..n]), offers[n]);
      assert offers == offers[..n] + [offers[n]];
    }
  }

  /** The order of offers of the same amount: by pickup time, and at the same time by the name of the carrier. */
  function TieBreak(collate: Collation, carriers: seq<Carrier>, a: Offer, b: Offer): int {
    if a.pickupTime != b.pickupTime then collate(a.pickupTime, b.pickupTime)
    else collate(CarrierName(carriers, a.carrierId), CarrierName(carriers, b.carrierId))
  }

  /** The cheaper offer is ahead, and of two as cheap the one that wins the tie. */
  ghost predicate Ahead(collate: Collation, carriers: seq<Carrier>, a: Offer, b: Offer) {
    a.amount < b.amount || (a.amount == b.amount && TieBreak(collate, carriers, a, b) < 0)
  }

  ghost predicate NotBehind(collate: Collation, carriers: seq<Carrier>, a: Offer, b: Offer) {
    a.amount < b.amount || (a.amount == b.amount && TieBreak(collate, carriers, a, b) <= 0)
  }

  lemma CompareMeans(collate: Collation, carriers: seq<Carrier>, a: Offer, b: Offer)
    ensures Compare(collate, carriers, a, b) < 0 <==> Ahead(collate, carriers, a, b)
    ensures Compare(collate, carriers, a, b) <= 0 <==> NotBehind(collate, carriers, a, b)
  {
  }

  /** Offer k of the list comes first: ahead of every earlier one, not behind any later one. */
  ghost predicate FirstLeast(collate: Collation, carriers: seq<Carrier>, offers: seq<Offer>, k: nat) {
    && k < |offers|
    && (forall j :: 0 <= j < k ==> Ahead(collate, carriers, offers[k], offers[j]))
    && (forall j :: k < j < |offers| ==> NotBehind(collate, carriers, offers[k], offers[j]))
  }

  lemma StrictThenWeak(collate: Collation, carriers: seq<Carrier>, offers: seq<Offer>, a: Offer, b: Offer, c: Offer)
    requires IsCollation(collate) && TimesDistinguished(collate, offers)
    requires a in offers && b in offers && c in offers
    requires Compare(collate, carriers, a, b) < 0 && Compare(collate, carriers, b, c) <= 0
    ensures Compare(collate, carriers, a, c) < 0
  {
    CompareTotal(collate, carriers, a, b);
    CompareTotal(collate, carriers, b, a);
    CompareTotal(collate, carriers, a, c);
    CompareTotal(collate, carriers, c, a);
    if Compare(collate, carriers, a, c) >= 0 {
      CompareTransitive(collate, carriers, offers, b, c, a);
    }
  }

  /** A last offer that is ahead of the head is ahead of all. */
  lemma NewHead(collate: Collation, carriers: seq<Carrier>, offers: seq<Offer>, k: nat)
    requires IsCollation(collate) && TimesDistinguished(collate, offers) && k < |offers| - 1
    requires FirstLeast(collate, carriers, offers[..|offers| - 1], k)
    requires Compare(collate, carriers, offers[|offers| - 1], offers[k]) < 0
    ensures FirstLeast(collate, carriers, offers, |offers| - 1)
  {
    hide Compare, TieBreak;
    var n := |offers| - 1;
    var init, last := offers[..n], offers[n];
    forall j | 0 <= j < n
      ensures Ahead(collate, carriers, last, offers[j])
    {
      CompareMeans(collate, carriers, last, offers[j]);
      if j != k {
        assert NotBehind(collate, carriers, init[k], init[j]);
        CompareMeans(collate, carriers, init[k], init[j]);
        StrictThenWeak(collate, carriers, offers, last, offers[k], offers[j]);
      }
    }
  }

  lemma {:induction false} SortedHead(collate: Collation, carriers: seq<Carrier>, offers: seq<Offer>) returns (k: nat)
    requires IsCollation(collate) && TimesDistinguished(collate, offers) && offers != []
    ensures FirstLeast(collate, carriers, offers, k)
    ensures Sorted(collate, carriers, offers) != [] && Sorted(collate, carriers, offers)[0] == offers[k]
  {
    hide Compare, TieBreak;
    var n := |offers| - 1;
    var init := offers[..n];
    if n == 0 {
      assert init == [];
      k := 0;
    } else {
      k := SortedHead(collate, carriers, init);
      var head, last := offers[k], offers[n];
      if Compare(collate, carriers, last, head) < 0 {
        NewHead(collate, carriers, offers, k);
        k := n;
      } else {
        CompareTotal(collate, carriers, head, last);
        CompareMeans(collate, carriers, head, last);
        assert forall j :: 0 <= j < n ==> init[j] == offers[j];
      }
    }
  }

  /** Whatever the order, there is a winner if there is an eligible live offer, and the winner is one. */
  lemma WinnerIsLive(collate: Collation, carriers: seq<Carrier>, offers: seq<Offer>)
    ensures Winner(collate, carriers, offers).None? <==> Eligible(Latest(offers)) == []
    ensures Winner(collate, carriers, offers).Some? ==>
              Live(offers, Winner(collate, carriers, offers).value) && Winner(collate, carriers, offers).value.eligible
  {
    var candidates := Eligible(Latest(offers));
    var ranked := Sorted(collate, carriers, candidates);
    LatestIsLatest(offers);
    SortedPermutes(collate, carriers, candidates);
    assert forall o :: o in candidates ==> Live(offers, o) && o.eligible;
    assert |ranked| == |multiset(ranked)| == |candidates|;
    if ranked != [] {
      assert ranked[0] in multiset(ranked);
      assert ranked[0] in candidates;
    }
  }

  /** The winner is the first least of the eligible latest offers. */
  lemma WinnerIsLeast(collate: Collation, carriers: seq<Carrier>, offers: seq<Offer>)
    requires IsCollation(collate) && TimesDistinguished(collate, offers)
    ensures Winner(collate, carriers, offers).Some? ==>
              (exists k: nat :: FirstLeast(collate, carriers, Eligible(Latest(offers)), k)
                && Eligible(Latest(offers))[k] == Winner(collate, carriers, offers).value)
  {
    var candidates := Eligible(Latest(offers));
    LatestIsLatest(offers);
    if candidates != [] {
      var k := SortedHead(collate, carriers, candidates);
      assert candidates[k] in candidates;
    }
  }

  /** Two different times that tie leave the comparison without an order: no sorting by it has a meaning. */
  lemma TiedTimesBreakTheOrder(collate: Collation, carriers: seq<Carrier>, a: Offer, b: Offer, c: Offer)
    requires IsCollation(collate) && a.amount == b.amount == c.amount
    requires a.pickupTime == c.pickupTime != b.pickupTime && collate(a.pickupTime, b.pickupTime) == 0
    requires collate(CarrierName(carriers, a.carrierId), CarrierName(carriers, c.carrierId)) > 0
    ensures Compare(collate, carriers, a, b) <= 0 && Compare(collate, carriers, b, c) <= 0
    ensures Compare(collate, carriers, a, c) > 0
  {
    assert collate(b.pickupTime, a.pickupTime) <= 0;
  }

  /** The comparison chains for every list of carriers and every three offers. */
  ghost predicate Chains(collate: Collation) {
    forall carriers: seq<Carrier>, a: Offer, b: Offer, c: Offer ::
      Compare(collate, carriers, a, b) <= 0 && Compare(collate, carriers, b, c) <= 0 ==>
        Compare(collate, carriers, a, c) <= 0
  }

  ghost predicate TellsApart(collate: Collation) {
    forall x, y :: collate(x, y) == 0 ==> x == y
  }

  ghost predicate NeverRanks(collate: Collation) {
    forall x, y :: collate(x, y) == 0
  }

  function Named(o: Offer, carrierId: string, time: string): Offer {
    o.(carrierId := carrierId, pickupTime := time)
  }

  /** The ranking is an order under exactly those locales that tell all strings apart, or none. */
  lemma ChainsExactlyWhenTimesAreToldApart(collate: Collation, o: Offer)
    requires IsCollation(collate)
    ensures Chains(collate) <==> TellsApart(collate) || NeverRanks(collate)
  {
    if TellsApart(collate) {
      forall carriers: seq<Carrier>, a: Offer, b: Offer, c: Offer
        | Compare(collate, carriers, a, b) <= 0 && Compare(collate, carriers, b, c) <= 0
        ensures Compare(collate, carriers, a, c) <= 0
      {
        CompareTransitive(collate, carriers, [a, b, c], a, b, c);
      }
    } else if !NeverRanks(collate) {
      var x, y :| collate(x, y) == 0 && x != y;
      var u, v :| collate(u, v) != 0;
      var (low, high) := if collate(u, v) < 0 then (u, v) else (v, u);
      var carriers := [Carrier("a", high), Carrier("b", low)];
      assert CarrierName(carriers, "b") == low;
      assert carriers[..1] == [Carrier("a", high)] && CarrierName(carriers, "a") == high;
      TiedTimesBreakTheOrder(collate, carriers, Named(o, "a", x), Named(o, "c", y), Named(o, "b", x));
    }
  }

  ghost predicate DistinctIds(offers: seq<Offer>) {
    forall i, j :: 0 <= i < j < |offers| ==> offers[i].id != offers[j].id
  }

  lemma {:induction false} FindOfferFinds(offers: seq<Offer>, id: nat)
    ensures FindOffer(offers, id).Some? ==>
            FindOffer(offers, id).value in offers && FindOffer(offers, id).value.id == id
    ensures forall o :: o in offers && o.id == id && DistinctIds(offers) ==> FindOffer(offers, id) == Some(o)
    ensures FindOffer(offers, id).None? <==> forall o :: o in offers ==> o.id != id
  {
    if offers != [] {
      FindOfferFinds(offers[1..], id);
      assert offers == [offers[0]] + offers[1..];
      if DistinctIds(offers) {
        forall o | o in offers && o.id == id
          ensures FindOffer(offers, id) == Some(o)
        {
          var k :| 0 <= k < |offers| && offers[k] == o;
          if k > 0 {
            assert offers[0].id != offers[k].id;
            assert offers[1..][k - 1] == o;
          }
        }
      }
    }
  }

  /** With distinct ids exactly the winner can be booked; its eligibility needs no check of its own. */
  lemma BookableExactlyWinner(collate: Collation, s: Snapshot, offerId: nat)
    requires DistinctIds(s.offers)
    ensures var winner := Winner(collate, s.carriers, s.offers);
            var r := AssertOfferBookable(collate, s, offerId);
            && (r.Ok? <==> winner.Some? && winner.value.id == offerId)
            && (r.Ok? ==> r.value == winner.value)
            && r != Err(OfferViolatesMandate)
  {
    WinnerIsLive(collate, s.carriers, s.offers);
    FindOfferFinds(s.offers, offerId);
  }
}
