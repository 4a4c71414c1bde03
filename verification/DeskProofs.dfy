/** The operator's desk: the briefing, the calls and the handoff to a human. */
module DeskProofs {
  import opened Domain
  import opened Wrappers
  import opened Policy
  import opened Ledger
  import opened LedgerProofs
  import opened MarketProofs

  // ----- the briefing -----

  ghost predicate DistinctCarriers(carriers: seq<Carrier>) {
    forall i, j :: 0 <= i < j < |carriers| ==> carriers[i].id != carriers[j].id
  }

  lemma {:induction false} CountsCarriers(carriers: seq<Carrier>)
    requires DistinctCarriers(carriers)
    ensures |CarrierIds(carriers)| == |carriers|
  {
    if carriers != [] {
      var rest := carriers[1..];
      CountsCarriers(rest);
      assert CarrierIds(carriers) == CarrierIds(rest) + {carriers[0].id};
      assert carriers[0].id !in CarrierIds(rest);
    }
  }

  lemma {:induction false} SameSizeSubset(a: set<string>, b: set<string>)
    requires a <= b && |a| == |b|
    ensures a == b
  {
    if x :| x in b - a {
      SubsetIsSmaller(a, b - {x});
    } else {
      assert b == a + (b - a);
    }
  }

  lemma {:induction false} SubsetIsSmaller(a: set<string>, b: set<string>)
    requires a <= b
    ensures |a| <= |b|
  {
    if x :| x in a {
      SubsetIsSmaller(a - {x}, b - {x});
    }
  }

  lemma {:induction false} RenamedAt(carriers: seq<Carrier>, updates: seq<Carrier>, i: nat)
    requires i < |carriers|
    ensures Renamed(carriers, updates)[i] == Carrier(carriers[i].id, CarrierName(updates, carriers[i].id))
  {
    if i > 0 {
      RenamedAt(carriers[1..], updates, i - 1);
    }
  }

  lemma {:induction false} CarrierNameIsThere(carriers: seq<Carrier>, id: string)
    requires id in CarrierIds(carriers)
    ensures Carrier(id, CarrierName(carriers, id)) in carriers
  {
    var n := |carriers| - 1;
    if carriers[n].id != id {
      assert id in CarrierIds(carriers[..n]);
      CarrierNameIsThere(carriers[..n], id);
    } else {
      assert carriers[n] == Carrier(id, CarrierName(carriers, id));
    }
  }

  ghost predicate Lists(carriers: seq<Carrier>, id: string) {
    exists c :: c in carriers && c.id == id
  }

  lemma SameIds(a: seq<Carrier>, b: seq<Carrier>)
    ensures CarrierIds(a) == CarrierIds(b) <==> forall id :: Lists(a, id) <==> Lists(b, id)
  {
    assert forall id :: Lists(a, id) <==> id in CarrierIds(a);
    assert forall id :: Lists(b, id) <==> id in CarrierIds(b);
  }

  /** A change of the briefing is taken exactly if its carriers, when it names any, are those of the operation. */
  lemma BriefingTakenExactly(s: Snapshot, operationId: string, patch: ConfigurationPatch)
    requires DistinctCarriers(s.carriers)
    ensures UpdateConfiguration(s, operationId, patch).Ok? <==>
              && s.operation.id == operationId
              && (patch.carriers.Some? ==>
                    forall id :: Lists(patch.carriers.value, id) <==> Lists(s.carriers, id))
  {
    if patch.carriers.Some? {
      var given, known := CarrierIds(patch.carriers.value), CarrierIds(s.carriers);
      CountsCarriers(s.carriers);
      if |given| == |known| && known <= given {
        SameSizeSubset(known, given);
      }
      SameIds(patch.carriers.value, s.carriers);
    }
  }

  /** What it changes: the fields it names; carriers keep their ids and places and get the names it gives them. */
  lemma BriefingApplied(s: Snapshot, operationId: string, patch: ConfigurationPatch)
    requires UpdateConfiguration(s, operationId, patch).Ok?
    ensures var t := UpdateConfiguration(s, operationId, patch).value.state;
            var (before, after) := (s.operation, t.operation);
            && after.id == before.id
            && (if patch.pickupDate == None then after.pickupDate == before.pickupDate
                else Some(after.pickupDate) == patch.pickupDate)
            && (if patch.pickupWindowStart == None then after.pickupWindowStart == before.pickupWindowStart
                else Some(after.pickupWindowStart) == patch.pickupWindowStart)
            && (if patch.pickupWindowEnd == None then after.pickupWindowEnd == before.pickupWindowEnd
                else Some(after.pickupWindowEnd) == patch.pickupWindowEnd)
            && (if patch.status == None then after.status == before.status else Some(after.status) == patch.status)
            && (if patch.mandate == None then t.mandate == s.mandate else Some(t.mandate) == patch.mandate)
            && t.offers == s.offers && t.calls == s.calls && t.commitment == s.commitment
    ensures var t := UpdateConfiguration(s, operationId, patch).value.state;
            if patch.carriers == None then t.carriers == s.carriers
            else
              && |t.carriers| == |s.carriers|
              && forall i :: 0 <= i < |s.carriers| ==>
                   t.carriers[i].id == s.carriers[i].id && t.carriers[i] in patch.carriers.value
  {
    if patch.carriers.Some? {
      forall i | 0 <= i < |s.carriers|
        ensures Renamed(s.carriers, patch.carriers.value)[i].id == s.carriers[i].id
        ensures Renamed(s.carriers, patch.carriers.value)[i] in patch.carriers.value
      {
        RenamedAt(s.carriers, patch.carriers.value, i);
        assert s.carriers[i].id in CarrierIds(s.carriers);
        CarrierNameIsThere(patch.carriers.value, s.carriers[i].id);
      }
    }
  }

  // ----- calls -----

  ghost predicate Over(call: CallAttempt) {
    call.status == Completed || call.status == Failed
  }

  /** As many quote calls as carriers were made and all of them are over. */
  ghost predicate AllQuoted(s: Snapshot) {
    var quotes := QuoteCalls(s.calls, 0);
    |s.carriers| <= |quotes| && forall i :: i in quotes ==> Over(s.calls[i])
  }

  lemma SettledIsAllQuoted(s: Snapshot)
    ensures QuotesSettled(s) <==> AllQuoted(s)
  {
    CountsQuoteCalls(s.calls, 0);
    assert s.calls[0..] == s.calls;
  }

  lemma {:induction false} FirstCall(calls: seq<CallAttempt>, id: nat)
    ensures forall j :: 0 <= j < IndexOfCall(calls, id) ==> calls[j].id != id
  {
    if calls != [] && calls[0].id != id {
      FirstCall(calls[1..], id);
    }
  }

  /**
    An update changes the status of the first call with the id and of no other; the operation becomes quoted
    exactly when it ends a quote call that leaves all quotes given.
   */
  lemma CallUpdated(s: Snapshot, callId: nat, status: Option<CallStatus>)
    ensures var r := UpdateCall(s, callId, status);
            r.Ok? <==> exists call :: call in s.calls && call.id == callId
    ensures var r := UpdateCall(s, callId, status);
            r.Ok? ==>
              var Done(t, call) := r.value;
              exists i :: 0 <= i < |s.calls| && s.calls[i].id == callId && t.calls == s.calls[i := call]
                          && (forall j :: 0 <= j < i ==> s.calls[j].id != callId)
                          && call.id == callId && call.mode == s.calls[i].mode
                          && (if status == None then call.status == s.calls[i].status else Some(call.status) == status)
    ensures var r := UpdateCall(s, callId, status);
            r.Ok? ==>
              var Done(t, call) := r.value;
              var ends := call.mode == QuoteCall && status.Some? && Over(call) && AllQuoted(t);
              t.operation == if ends then s.operation.(status := Quoted) else s.operation
  {
    var i := IndexOfCall(s.calls, callId);
    FirstCall(s.calls, callId);
    if i < |s.calls| {
      assert s.calls[i] in s.calls;
      var call := s.calls[i].(status := Or(status, s.calls[i].status));
      SettledIsAllQuoted(s.(calls := s.calls[i := call]));
      assert UpdateCall(s, callId, status).value.state.calls == s.calls[i := call];
    }
  }

  // ----- the handoff -----

  /** Asking for a human again joins the open handoff of the call; after it is resolved a new one is opened. */
  lemma HandoffJoins(s: Snapshot, callId: nat, status: EscalationStatus)
    ensures var Done(t, e) := CreateEscalation(s, callId);
            && t.escalation == Some(e) && e.callId == callId && e.status != Resolved
            && CreateEscalation(t, callId) == Done(t, e)
            && (t != s ==> e.status == Open && e.id == s.nextId && t.operation.status == AtRisk)
    ensures var Done(t, e) := CreateEscalation(s, callId);
            var moved := UpdateEscalation(t, e.id, status);
            && moved.Ok? && moved.value.value == e.(status := status)
            && (CreateEscalation(moved.value.state, callId).state == moved.value.state <==> status != Resolved)
            && (status == Resolved ==> CreateEscalation(moved.value.state, callId).value.status == Open)
  {
    hide FindDecision;
  }
}
