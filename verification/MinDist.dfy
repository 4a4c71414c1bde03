/**
  Spacing repair of line spectral frequencies: 16 frequencies between 0 and pi make 17 gaps, each with a
  minimum. Floating-point values are taken as reals.
 */
module MinDist {

  const ORDER := 16
  const GAPS := 17
  const ROUNDS := 1000

  function SumOf(s: seq<real>): real {
    if s == [] then 0.0 else SumOf(s[..|s| - 1]) + s[|s| - 1]
  }

  function Gap(lsfs: seq<real>, pi: real, i: nat): real
    requires |lsfs| == ORDER && i < GAPS
  {
    if i == 0 then lsfs[0] else if i < ORDER then lsfs[i] - lsfs[i - 1] else pi - lsfs[ORDER - 1]
  }

  function Slacks(lsfs: seq<real>, minDist: seq<real>, pi: real): (d: seq<real>)
    requires |lsfs| == ORDER && |minDist| == GAPS
    ensures |d| == GAPS
  {
    seq(GAPS, i requires 0 <= i < GAPS => Gap(lsfs, pi, i) - minDist[i])
  }

  ghost predicate Spaced(lsfs: seq<real>, minDist: seq<real>, pi: real)
    requires |lsfs| == ORDER && |minDist| == GAPS
  {
    forall i :: 0 <= i < GAPS ==> Gap(lsfs, pi, i) >= minDist[i]
  }

  // ----- sums -----

  lemma {:induction false} SumUpdate(s: seq<real>, i: nat, x: real)
    requires i < |s|
    ensures SumOf(s[i := x]) == SumOf(s) - s[i] + x
  {
    var n := |s| - 1;
    if i < n {
      assert s[i := x][..n] == s[..n][i := x];
      SumUpdate(s[..n], i, x);
    } else {
      assert s[i := x][..n] == s[..n];
    }
  }

  /** Gaps telescope, so the slack in total is pi less the minima. */
  lemma {:induction false} SlackSum(lsfs: seq<real>, minDist: seq<real>, pi: real, n: nat)
    requires |lsfs| == ORDER && |minDist| == GAPS && n <= GAPS
    ensures SumOf(Slacks(lsfs, minDist, pi)[..n])
         == (if n == 0 then 0.0 else if n < GAPS then lsfs[n - 1] else pi) - SumOf(minDist[..n])
  {
    if n > 0 {
      SlackSum(lsfs, minDist, pi, n - 1);
      assert Slacks(lsfs, minDist, pi)[..n][..n - 1] == Slacks(lsfs, minDist, pi)[..n - 1];
      assert minDist[..n][..n - 1] == minDist[..n - 1];
    }
  }

  lemma TotalSlack(lsfs: seq<real>, minDist: seq<real>, pi: real)
    requires |lsfs| == ORDER && |minDist| == GAPS
    ensures SumOf(Slacks(lsfs, minDist, pi)) == pi - SumOf(minDist)
  {
    SlackSum(lsfs, minDist, pi, GAPS);
    assert Slacks(lsfs, minDist, pi)[..GAPS] == Slacks(lsfs, minDist, pi) && minDist[..GAPS] == minDist;
  }

  lemma {:induction false} SumNonNegative(s: seq<real>)
    requires forall i :: 0 <= i < |s| ==> s[i] >= 0.0
    ensures SumOf(s) >= 0.0
  {
    if s != [] {
      SumNonNegative(s[..|s| - 1]);
    }
  }

  // ----- rebuilding frequencies from slacks -----

  /** Frequency i when every gap is its minimum plus its slack. */
  function Rebuilt(d: seq<real>, minDist: seq<real>, i: nat): real
    requires |d| == |minDist| == GAPS && i < ORDER
  {
    if i == 0 then d[0] + minDist[0] else Rebuilt(d, minDist, i - 1) + (d[i] + minDist[i])
  }

  function AllRebuilt(d: seq<real>, minDist: seq<real>): (lsfs: seq<real>)
    requires |d| == |minDist| == GAPS
    ensures |lsfs| == ORDER
  {
    seq(ORDER, i requires 0 <= i < ORDER => Rebuilt(d, minDist, i))
  }

  lemma {:induction false} RebuiltSum(d: seq<real>, minDist: seq<real>, i: nat)
    requires |d| == |minDist| == GAPS && i < ORDER
    ensures Rebuilt(d, minDist, i) == SumOf(d[..i + 1]) + SumOf(minDist[..i + 1])
  {
    assert d[..i + 1][..i] == d[..i] && minDist[..i + 1][..i] == minDist[..i];
    if i > 0 {
      RebuiltSum(d, minDist, i - 1);
    } else {
      assert d[..0] == [] && minDist[..0] == [];
    }
  }

  /** When the slack in total is right, also the gap up to pi, which is never rebuilt, comes out right. */
  lemma RebuiltSlacks(d: seq<real>, minDist: seq<real>, pi: real)
    requires |d| == |minDist| == GAPS && SumOf(d) == pi - SumOf(minDist)
    ensures Slacks(AllRebuilt(d, minDist), minDist, pi) == d
  {
    var s := Slacks(AllRebuilt(d, minDist), minDist, pi);
    RebuiltSum(d, minDist, ORDER - 1);
    assert d[..GAPS - 1] == d[..ORDER] && minDist[..GAPS - 1] == minDist[..ORDER];
    forall i | 0 <= i < GAPS
      ensures s[i] == d[i]
    {
    }
  }

  lemma {:induction false} RebuildOf(lsfs: seq<real>, minDist: seq<real>, pi: real, i: nat)
    requires |lsfs| == ORDER && |minDist| == GAPS && i < ORDER
    ensures Rebuilt(Slacks(lsfs, minDist, pi), minDist, i) == lsfs[i]
  {
    if i > 0 {
      RebuildOf(lsfs, minDist, pi, i - 1);
    }
  }

  lemma RebuildIsInverse(lsfs: seq<real>, minDist: seq<real>, pi: real)
    requires |lsfs| == ORDER && |minDist| == GAPS
    ensures AllRebuilt(Slacks(lsfs, minDist, pi), minDist) == lsfs
  {
    forall i | 0 <= i < ORDER
      ensures Rebuilt(Slacks(lsfs, minDist, pi), minDist, i) == lsfs[i]
    {
      RebuildOf(lsfs, minDist, pi, i);
    }
  }

  // ----- the program -----

  ghost predicate IsFirstMin(d: seq<real>, m: real, mi: nat) {
    && mi < |d| && m == d[mi]
    && (forall i :: 0 <= i < |d| ==> m <= d[i])
    && (forall i :: 0 <= i < mi ==> m < d[i])
  }

  method FindMin(d: array<real>) returns (m: real, mi: nat)
    requires d.Length == GAPS
    ensures IsFirstMin(d[..], m, mi)
  {
    m := d[0];
    mi := 0;
    for i := 1 to GAPS
      invariant mi < i && m == d[mi]
      invariant forall j :: 0 <= j < i ==> m <= d[j]
      invariant forall j :: 0 <= j < mi ==> m < d[j]
    {
      if d[i] < m {
        m := d[i];
        mi := i;
      }
    }
  }

  function Added(d: seq<real>, i: nat, a: real): (e: seq<real>)
    requires i < |d|
    ensures |e| == |d|
  {
    d[i := d[i] + a]
  }

  function BetweenNeighbours(d: seq<real>, i: nat, delta: real, half: real): (e: seq<real>)
    requires 0 < i < |d| - 1
    ensures |e| == |d|
  {
    Added(Added(Added(d, i, delta), i - 1, -half), i + 1, -half)
  }

  /** The widened gap takes its slack from its neighbours: half from each, or all from the only one. */
  function Pushed(d: seq<real>, minIx: nat, delta: real): (e: seq<real>)
    requires |d| == GAPS && minIx < GAPS
    ensures |e| == GAPS
  {
    if minIx == 0 then Added(Added(d, 0, delta), 1, -delta)
    else if minIx == ORDER then Added(Added(d, ORDER, delta), ORDER - 1, -delta)
    else BetweenNeighbours(d, minIx, delta, delta * 0.5)
  }

  /** Where the slack goes: to the least gap, from the gaps next to it, half from each if there are two. */
  lemma PushedAt(d: seq<real>, minIx: nat, delta: real, i: nat)
    requires |d| == GAPS && minIx < GAPS && i < GAPS
    ensures i == minIx ==> Pushed(d, minIx, delta)[i] == d[i] + delta
    ensures i + 1 == minIx || i == minIx + 1 ==>
              2.0 * (d[i] - Pushed(d, minIx, delta)[i]) == if 0 < minIx < ORDER then delta else 2.0 * delta
    ensures i + 1 < minIx || i > minIx + 1 ==> Pushed(d, minIx, delta)[i] == d[i]
  {
  }

  lemma AddedSum(d: seq<real>, i: nat, a: real)
    requires i < |d|
    ensures SumOf(Added(d, i, a)) == SumOf(d) + a
  {
    hide SumOf;
    SumUpdate(d, i, d[i] + a);
  }

  lemma ThreeAdds(d: seq<real>, i: nat, delta: real, half: real)
    requires 0 < i < |d| - 1 && half + half == delta
    ensures SumOf(Added(Added(Added(d, i, delta), i - 1, -half), i + 1, -half)) == SumOf(d)
  {
    hide SumOf, Added;
    var a := Added(d, i, delta);
    AddedSum(d, i, delta);
    var b := Added(a, i - 1, -half);
    AddedSum(a, i - 1, -half);
    assert SumOf(b) == SumOf(d) + delta - half;
    AddedSum(b, i + 1, -half);
  }

  lemma BetweenConserves(d: seq<real>, i: nat, delta: real, half: real)
    requires 0 < i < |d| - 1 && half + half == delta
    ensures SumOf(BetweenNeighbours(d, i, delta, half)) == SumOf(d)
  {
    hide SumOf, Added;
    ThreeAdds(d, i, delta, half);
  }

  lemma PushConserves(d: seq<real>, minIx: nat, delta: real)
    requires |d| == GAPS && minIx < GAPS
    ensures SumOf(Pushed(d, minIx, delta)) == SumOf(d)
  {
    hide SumOf, Added, BetweenNeighbours;
    if minIx == 0 || minIx == ORDER {
      AddedSum(d, minIx, delta);
      AddedSum(Added(d, minIx, delta), if minIx == 0 then 1 else ORDER - 1, -delta);
    } else {
      BetweenConserves(d, minIx, delta, delta * 0.5);
    }
  }

  method Push(d: array<real>, minIx: nat, delta0: real)
    requires d.Length == GAPS && minIx < GAPS
    modifies d
    ensures d[..] == Pushed(old(d[..]), minIx, delta0)
  {
    var delta := delta0;
    d[minIx] := d[minIx] + delta;
    if minIx == 0 {
      d[1] := d[1] - delta;
    } else if minIx == ORDER {
      d[ORDER - 1] := d[ORDER - 1] - delta;
    } else {
      delta := delta * 0.5;
      d[minIx - 1] := d[minIx - 1] - delta;
      d[minIx + 1] := d[minIx + 1] - delta;
    }
  }

  method ComputeSlacks(lsfs: array<real>, minDist: seq<real>, pi: real) returns (d: array<real>)
    requires lsfs.Length == ORDER && |minDist| == GAPS
    ensures fresh(d) && d.Length == GAPS && d[..] == Slacks(lsfs[..], minDist, pi)
  {
    d := new real[GAPS];
    d[0] := lsfs[0] - minDist[0];
    for i := 1 to ORDER
      invariant forall j :: 0 <= j < i ==> d[j] == Slacks(lsfs[..], minDist, pi)[j]
    {
      d[i] := (lsfs[i] - lsfs[i - 1]) - minDist[i];
    }
    d[ORDER] := (pi - lsfs[ORDER - 1]) - minDist[ORDER];
  }

  method Rebuild(lsfs: array<real>, d: array<real>, minDist: seq<real>)
    requires lsfs.Length == ORDER && d.Length == |minDist| == GAPS && lsfs != d
    modifies lsfs
    ensures lsfs[..] == AllRebuilt(d[..], minDist)
  {
    lsfs[0] := d[0] + minDist[0];
    for i := 1 to ORDER
      invariant forall j :: 0 <= j < i ==> lsfs[j] == Rebuilt(d[..], minDist, j)
    {
      lsfs[i] := lsfs[i - 1] + (d[i] + minDist[i]);
    }
  }

  // ----- the rounds -----

  /** The first place of the least slack. */
  function MinIx(d: seq<real>): (i: nat)
    requires d != []
    ensures i < |d| && IsFirstMin(d, d[i], i)
  {
    var n := |d| - 1;
    if n == 0 then 0
    else
      var i := MinIx(d[..n]);
      assert forall j :: 0 <= j < n ==> d[..n][j] == d[j];
      if d[n] < d[i] then n else i
  }

  lemma FirstMinUnique(d: seq<real>, m: real, mi: nat)
    requires d != [] && IsFirstMin(d, m, mi)
    ensures mi == MinIx(d) && m == d[MinIx(d)]
  {
  }

  /** Round k lifts the least slack to k millionths. */
  function Lifted(d: seq<real>, k: nat): (e: seq<real>)
    requires |d| == GAPS
    ensures |e| == GAPS
  {
    Pushed(d, MinIx(d), k as real * 0.000001 - d[MinIx(d)])
  }

  /** The slacks after k rounds. */
  function Iterate(d: seq<real>, k: nat): (e: seq<real>)
    requires |d| == GAPS
    ensures |e| == GAPS
  {
    if k == 0 then d else Lifted(Iterate(d, k - 1), k - 1)
  }

  /** After round k the slack that was least is k millionths, and only the gaps beside it have changed with it. */
  lemma LiftedTo(d: seq<real>, k: nat, i: nat)
    requires |d| == GAPS && i < GAPS
    ensures var before, after := Iterate(d, k), Iterate(d, k + 1);
            var least := MinIx(before);
            && (i == least ==> after[i] == k as real / 1000000.0)
            && (i + 1 < least || i > least + 1 ==> after[i] == before[i])
  {
    hide Pushed, MinIx;
    var e := Iterate(d, k);
    PushedAt(e, MinIx(e), k as real * 0.000001 - e[MinIx(e)], i);
  }

  predicate Enough(d: seq<real>) {
    forall i :: 0 <= i < |d| ==> d[i] >= 0.0
  }

  /** The total slack is the same after every round. */
  lemma {:induction false} IterateConserves(d: seq<real>, k: nat)
    requires |d| == GAPS
    ensures SumOf(Iterate(d, k)) == SumOf(d)
  {
    hide SumOf, Pushed;
    if k > 0 {
      IterateConserves(d, k - 1);
      var e := Iterate(d, k - 1);
      PushConserves(e, MinIx(e), (k - 1) as real * 0.000001 - e[MinIx(e)]);
    }
  }

  /** The first round from k on after which no slack is missing, or a number past the last round. */
  function FirstEnough(d: seq<real>, k: nat): (j: nat)
    requires |d| == GAPS && k <= ROUNDS + 1
    ensures k <= j <= ROUNDS + 1
    ensures j <= ROUNDS ==> Enough(Iterate(d, j))
    ensures forall i :: k <= i < j ==> !Enough(Iterate(d, i))
    decreases ROUNDS + 1 - k
  {
    if k == ROUNDS + 1 || Enough(Iterate(d, k)) then k else FirstEnough(d, k + 1)
  }

  /** Unchanged if every slack is positive or a thousand rounds are not enough, else rebuilt from the first that are. */
  function Repaired(lsfs: seq<real>, minDist: seq<real>, pi: real): (r: seq<real>)
    requires |lsfs| == ORDER && |minDist| == GAPS
    ensures |r| == ORDER
  {
    var d := Slacks(lsfs, minDist, pi);
    if d[MinIx(d)] > 0.0 then lsfs
    else if FirstEnough(d, 1) > ROUNDS then lsfs
    else AllRebuilt(Iterate(d, FirstEnough(d, 1)), minDist)
  }

  lemma OneRound(d: seq<real>, k: nat)
    requires |d| == GAPS && k < ROUNDS
    ensures Iterate(d, k + 1) == Lifted(Iterate(d, k), k)
    ensures FirstEnough(d, k + 1) == if Enough(Iterate(d, k + 1)) then k + 1 else FirstEnough(d, k + 2)
  {
    hide Enough, Lifted;
  }

  /** One turn of the loop: the least slack is lifted, then sought again. */
  method LiftLeast(d: array<real>, k: nat, dm0: real, minIx0: nat) returns (dm: real, minIx: nat)
    requires d.Length == GAPS && minIx0 == MinIx(d[..]) && dm0 == d[..][minIx0]
    modifies d
    ensures d[..] == Lifted(old(d[..]), k) && minIx == MinIx(d[..]) && dm == d[..][minIx]
    ensures dm >= 0.0 <==> Enough(d[..])
  {
    hide Pushed, Enough, MinIx;
    var delta := k as real * 0.000001 - dm0;
    Push(d, minIx0, delta);
    dm, minIx := FindMin(d);
    FirstMinUnique(d[..], dm, minIx);
    LeastDecides(d[..]);
  }

  /** Rebuilds the frequencies from the first iterate whose slacks all suffice, if one is needed and one is found. */
  method LsfMinDist(lsfs: array<real>, minDist: seq<real>, pi: real)
    requires lsfs.Length == ORDER && |minDist| == GAPS
    modifies lsfs
    ensures lsfs[..] == Repaired(old(lsfs[..]), minDist, pi)
  {
    hide Slacks, Rebuilt, Enough, MinIx, Lifted, Iterate, FirstEnough;
    ghost var before := lsfs[..];
    ghost var slack := Slacks(before, minDist, pi);
    var d := ComputeSlacks(lsfs, minDist, pi);
    var dm, minIx := FindMin(d);
    FirstMinUnique(slack, dm, minIx);
    if dm > 0.0 {
      return;
    }
    NoRound(slack);
    for k := 0 to ROUNDS
      invariant lsfs[..] == before && d[..] == Iterate(slack, k)
      invariant minIx == MinIx(d[..]) && dm == d[..][minIx]
      invariant FirstEnough(slack, 1) == FirstEnough(slack, k + 1)
    {
      OneRound(slack, k);
      dm, minIx := LiftLeast(d, k, dm, minIx);
      if dm >= 0.0 {
        Rebuild(lsfs, d, minDist);
        return;
      }
    }
    NotEnough(slack);
  }

  lemma NoRound(d: seq<real>)
    requires |d| == GAPS
    ensures Iterate(d, 0) == d
  {
  }

  lemma NotEnough(d: seq<real>)
    requires |d| == GAPS
    ensures FirstEnough(d, ROUNDS + 1) == ROUNDS + 1
  {
  }

  lemma LeastDecides(d: seq<real>)
    requires d != []
    ensures Enough(d) <==> d[MinIx(d)] >= 0.0
  {
  }

  // ----- what the repair achieves -----

  lemma FirstRound(d: seq<real>)
    requires |d| == GAPS && d[MinIx(d)] == 0.0
    ensures Iterate(d, 1) == d
  {
    assert Iterate(d, 1) == Lifted(d, 0);
  }

  lemma SlackIsSpace(lsfs: seq<real>, minDist: seq<real>, pi: real)
    requires |lsfs| == ORDER && |minDist| == GAPS
    ensures Spaced(lsfs, minDist, pi) <==> Enough(Slacks(lsfs, minDist, pi))
  {
    var d := Slacks(lsfs, minDist, pi);
    assert forall i :: 0 <= i < GAPS ==> d[i] == Gap(lsfs, pi, i) - minDist[i];
  }

  lemma RebuiltIsSpaced(d: seq<real>, minDist: seq<real>, pi: real)
    requires |d| == |minDist| == GAPS && Enough(d) && SumOf(d) == pi - SumOf(minDist)
    ensures Spaced(AllRebuilt(d, minDist), minDist, pi) && SumOf(minDist) <= pi
  {
    hide SumOf, Rebuilt;
    RebuiltSlacks(d, minDist, pi);
    SlackIsSpace(AllRebuilt(d, minDist), minDist, pi);
    SumNonNegative(d);
  }

  /** Frequencies that keep their distances stay as they are. */
  lemma SpacedStays(lsfs: seq<real>, minDist: seq<real>, pi: real)
    requires |lsfs| == ORDER && |minDist| == GAPS && Spaced(lsfs, minDist, pi)
    ensures Repaired(lsfs, minDist, pi) == lsfs
  {
    hide SumOf, Rebuilt, Spaced, Iterate;
    var d := Slacks(lsfs, minDist, pi);
    SlackIsSpace(lsfs, minDist, pi);
    LeastDecides(d);
    if d[MinIx(d)] == 0.0 {
      FirstRound(d);
      assert FirstEnough(d, 1) == 1;
      RebuildIsInverse(lsfs, minDist, pi);
    }
  }

  /**
    The repair changes frequencies exactly if some gap is too narrow and some round of the first
    thousand leaves no slack missing. Then all 17 gaps keep their minima, which needs minima that fit.
   */
  lemma RepairSucceeds(lsfs: seq<real>, minDist: seq<real>, pi: real)
    requires |lsfs| == ORDER && |minDist| == GAPS
    ensures var d := Slacks(lsfs, minDist, pi);
            var r := Repaired(lsfs, minDist, pi);
            && (r != lsfs <==> !Spaced(lsfs, minDist, pi) && exists k :: 1 <= k <= ROUNDS && Enough(Iterate(d, k)))
            && (r != lsfs ==> Spaced(r, minDist, pi) && SumOf(minDist) <= pi)
  {
    hide SumOf, Rebuilt, Spaced, Enough, Iterate;
    var d := Slacks(lsfs, minDist, pi);
    if Spaced(lsfs, minDist, pi) {
      SpacedStays(lsfs, minDist, pi);
    } else {
      SlackIsSpace(lsfs, minDist, pi);
      LeastDecides(d);
      var j := FirstEnough(d, 1);
      if j <= ROUNDS {
        TotalSlack(lsfs, minDist, pi);
        IterateConserves(d, j);
        RebuiltIsSpaced(Iterate(d, j), minDist, pi);
      }
    }
  }

  /** Repairing twice is repairing once. */
  lemma RepairIsIdempotent(lsfs: seq<real>, minDist: seq<real>, pi: real)
    requires |lsfs| == ORDER && |minDist| == GAPS
    ensures var r := Repaired(lsfs, minDist, pi); Repaired(r, minDist, pi) == r
  {
    hide Spaced, SumOf, Repaired;
    RepairSucceeds(lsfs, minDist, pi);
    var r := Repaired(lsfs, minDist, pi);
    if r != lsfs {
      SpacedStays(r, minDist, pi);
    }
  }
}
