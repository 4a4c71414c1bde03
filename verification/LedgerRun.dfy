/** The ledger at work: the mutations of LedgerDraft, one clone after another. */
module LedgerRun {
  import opened Domain
  import opened Wrappers
  import opened Policy
  import opened LedgerDraft
  import opened LedgerProofs
  import L = Ledger

  /**
    Every mutation runs on a clone, which is kept exactly if it did not throw. From a seed the methods
    of the draft, in whatever order they are called and whether or not they throw, keep the rules of the
    ledger, and a standing commitment is COMMITTED exactly with its three proofs.
   */
  method Work(collate: Collation, seed: Snapshot, ops: seq<L.Timed>) returns (s: Snapshot, errors: seq<Option<Error>>)
    requires L.IsSeed(seed)
    ensures s == L.RunOps(collate, seed, ops) && |errors| == |ops|
    ensures forall i :: 0 <= i < |ops| ==>
              errors[i] == ErrorOf(L.Perform(collate, L.RunOps(collate, seed, ops[..i]), ops[i].now, ops[i].op))
    ensures LedgerOk(s)
    ensures s.commitment.Some? && s.commitment.value.status != Superseded ==>
              (s.commitment.value.status == Committed <==>
                s.commitment.value.verballyConfirmedAt.Some? && s.commitment.value.recapSentAt.Some? && HasEvidence(s))
  {
    hide L.Perform, LedgerOk;
    s, errors := seed, [];
    for i := 0 to |ops|
      invariant s == L.RunOps(collate, seed, ops[..i]) && |errors| == i
      invariant forall j :: 0 <= j < i ==>
                  errors[j] == ErrorOf(L.Perform(collate, L.RunOps(collate, seed, ops[..j]), ops[j].now, ops[j].op))
    {
      assert ops[..i + 1][..i] == ops[..i];
      var draft := new Draft(s);
      var error := draft.Perform(collate, ops[i].now, ops[i].op);
      if error.None? {
        s := draft.View();
      }
      errors := errors + [error];
    }
    assert ops[..|ops|] == ops;
    ReachableOk(collate, seed, ops);
    CommittedIffThreeProofs(collate, seed, ops);
  }
}
