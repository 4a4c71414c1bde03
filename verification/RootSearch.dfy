/**
  What the root search finds: each output is the first sign change of its polynomial after the output
  before it; giving up means that all rounds ran out of table; and a panic takes values that lie
  further apart than 32 bits can say.
 */
module RootSearch {
  import opened Arith
  import opened Fixed
  import opened A2Nlsf
  import opened RootScan

  // ----- one bracket -----

  /** A narrowed interval still holds a sign change, and its new ends are points with their values. */
  ghost predicate Narrows(p: seq<int>, start: Interval, b: Interval)
    requires |p| >= 1
  {
    && Brackets(b.y0, b.y1)
    && ((b.x0 == start.x0 && b.y0 == start.y0) || b.y0 == Eval(p, b.x0))
    && ((b.x1 == start.x1 && b.y1 == start.y1) || b.y1 == Eval(p, b.x1))
    && Between(start, b.x0) && Between(start, b.x1)
  }

  predicate Between(start: Interval, x: int) {
    (start.x0 <= x <= start.x1) || (start.x1 <= x <= start.x0)
  }

  function Width(b: Interval): int {
    if b.x0 <= b.x1 then b.x1 - b.x0 else b.x0 - b.x1
  }

  predicate InTable(x: int) {
    -8192 <= x <= 8192
  }

  lemma MidpointInside(b: Interval)
    requires InTable(b.x0) && InTable(b.x1)
    ensures Between(b, Midpoint(b))
    ensures 2 * (if b.x0 <= Midpoint(b) then Midpoint(b) - b.x0 else b.x0 - Midpoint(b)) <= Width(b) + 1
    ensures 2 * (if b.x1 <= Midpoint(b) then Midpoint(b) - b.x1 else b.x1 - Midpoint(b)) <= Width(b) + 1
  {
  }

  lemma HalveNarrows(p: seq<int>, start: Interval, b: Interval, half: int)
    requires |p| >= 1 && InTable(start.x0) && InTable(start.x1) && Narrows(p, start, b)
    ensures Narrows(p, start, Halve(p, b, half))
    ensures 2 * Width(Halve(p, b, half)) <= Width(b) + 1
  {
    hide Eval, Midpoint;
    MidpointInside(b);
  }

  lemma HalfSizes()
    ensures HalfAt(0) == 128 && HalfAt(1) == 64 && HalfAt(2) == 32 && HalfAt(3) == 16
  {
  }

  /** Three halvings leave an eighth of the interval, up to rounding. */
  lemma BisectedNarrows(p: seq<int>, start: Interval)
    requires |p| >= 1 && InTable(start.x0) && InTable(start.x1) && Brackets(start.y0, start.y1)
    ensures Narrows(p, start, Bisected(p, start, 3))
    ensures start.ffrac <= Bisected(p, start, 3).ffrac <= start.ffrac + 224
    ensures 8 * Width(Bisected(p, start, 3)) <= Width(start) + 7
  {
    hide Eval, Narrows, Bisected, Width;
    HalfSizes();
    NarrowsItself(p, start);
    var b1, b2 := Halve(p, start, 128), Halve(p, Halve(p, start, 128), 64);
    HalveNarrows(p, start, start, 128);
    HalveNarrows(p, start, b1, 64);
    HalveNarrows(p, start, b2, 32);
    ThreeHalvings(p, start);
  }

  lemma NarrowsItself(p: seq<int>, start: Interval)
    requires |p| >= 1 && Brackets(start.y0, start.y1)
    ensures Narrows(p, start, start)
  {
    hide Eval;
  }

  lemma ThreeHalvings(p: seq<int>, start: Interval)
    requires |p| >= 1
    ensures Bisected(p, start, 3) == Halve(p, Halve(p, Halve(p, start, 128), 64), 32)
  {
    hide Halve;
    HalfSizes();
    assert Bisected(p, start, 1) == Halve(p, start, 128);
    assert Bisected(p, start, 2) == Halve(p, Halve(p, start, 128), 64);
  }

  lemma RefinedBracket(p: seq<int>, ylo: int, k: nat)
    requires |p| >= 1 && 1 <= k <= TABLE_STEPS && Brackets(ylo, Eval(p, CosAt(k)))
    ensures var start := Interval(CosAt(k - 1), ylo, CosAt(k), Eval(p, CosAt(k)), -256);
            var b := Narrowed(p, CosAt(k - 1), ylo, CosAt(k), Eval(p, CosAt(k)));
            && Narrows(p, start, b) && -256 <= b.ffrac <= -32
            && 8 * Width(b) <= Width(start) + 7
  {
    hide Eval;
    var start := Interval(CosAt(k - 1), ylo, CosAt(k), Eval(p, CosAt(k)), -256);
    BisectedNarrows(p, start);
  }

  // ----- when the interpolation divides by zero -----

  /** Exactly if the two bracketing values lie so far apart that their difference wraps around to nearly nothing. */
  lemma ZeroDivisionExactly(y0: int, y1: int)
    requires IsInt32(y0) && IsInt32(y1) && Brackets(y0, y1)
    ensures Interpolation(y0, y1).ZeroDivision? <==> y0 != -TWO31 && y1 - y0 >= TWO32 - 31
  {
    var diff := y0 - y1;
    if diff < -TWO31 {
      assert Wrap32(diff) == diff + TWO32;
    } else if diff >= TWO31 {
      assert Wrap32(diff) == diff - TWO32;
    }
  }

  lemma EvalIsInt32(p: seq<int>, x: int)
    requires |p| >= 2
    ensures IsInt32(Eval(p, x))
  {
  }

  /** The polynomial takes, at two points of the table's range, values too far apart for 32 bits. */
  ghost predicate TooSteep(p: seq<int>)
    requires |p| >= 1
  {
    exists x0, x1 :: SteepBetween(p, x0, x1)
  }

  predicate SteepBetween(p: seq<int>, x0: int, x1: int)
    requires |p| >= 1
  {
    InTable(x0) && InTable(x1) && Eval(p, x1) - Eval(p, x0) >= TWO32 - 31
  }

  lemma PanicIsSteep(p: seq<int>, ylo: int, k: nat)
    requires |p| >= 2 && 1 <= k <= TABLE_STEPS && Brackets(ylo, Eval(p, CosAt(k)))
    requires ylo == Eval(p, CosAt(k - 1)) || -4096 <= ylo <= 4096
    requires Refined(p, ylo, k).ZeroDivision?
    ensures TooSteep(p)
  {
    hide Eval;
    var b := Narrowed(p, CosAt(k - 1), ylo, CosAt(k), Eval(p, CosAt(k)));
    RefinedBracket(p, ylo, k);
    EvalIsInt32(p, b.x0);
    EvalIsInt32(p, b.x1);
    EvalIsInt32(p, CosAt(k - 1));
    ZeroDivisionExactly(b.y0, b.y1);
    assert b.y1 == Eval(p, b.x1) && b.y0 == Eval(p, b.x0);
    assert SteepBetween(p, b.x0, b.x1);
  }

  // ----- one round -----

  /** Roots from this one on come from sign changes; the one before it, if any, is the root at zero. */
  function FirstSought(p: seq<int>): nat
    requires |p| >= 1
  {
    if StartsAtZero(p) then 1 else 0
  }

  /** The table point of the root before, or 0 where the search for root r starts at the first point. */
  function Before(p: seq<int>, at: seq<nat>, r: nat): nat
    requires |p| >= 1 && r <= |at|
  {
    if r <= FirstSought(p) then 0 else at[r - 1]
  }

  /** The value on the left at table point k: a restart value within the step of the root before. */
  function LeftValue(p: seq<int>, q: seq<int>, at: seq<nat>, r: nat, k: nat): int
    requires |p| >= 1 && |q| >= 1 && r <= |at| && 1 <= k <= TABLE_STEPS + 1
  {
    if k == Before(p, at, r) then RestartValue(r) else Eval(PolyOf(p, q, r), CosAt(k - 1))
  }

  predicate ChangesAt(poly: seq<int>, k: nat)
    requires |poly| >= 1 && 1 <= k <= TABLE_STEPS
  {
    Brackets(Eval(poly, CosAt(k - 1)), Eval(poly, CosAt(k)))
  }

  /** No sign change in the table steps strictly between two points. */
  ghost predicate Quiet(poly: seq<int>, from: nat, to: nat)
    requires |poly| >= 1
  {
    forall k :: from < k < to && 1 <= k <= TABLE_STEPS ==> !ChangesAt(poly, k)
  }

  /**
    Root r lies in the table step k where the root before was found: the polynomial of r is supposed to start out
    with the sign of its restart value there. Where the other polynomial is zero at the end of the step, a zero
    at the same point does not count.
   */
  predicate ChangesWithin(p: seq<int>, q: seq<int>, r: nat, k: nat)
    requires |p| >= 1 && |q| >= 1 && 1 <= k <= TABLE_STEPS
  {
    var y := Eval(PolyOf(p, q, r), CosAt(k));
    && (if RestartValue(r) > 0 then y <= 0 else y >= 0)
    && (r > 0 && Eval(PolyOf(p, q, r - 1), CosAt(k)) == 0 ==> y != 0)
  }

  /** The search for root r passes the step of the root before it, if there is one. */
  ghost predicate Passed(p: seq<int>, q: seq<int>, at: seq<nat>, r: nat)
    requires |p| >= 1 && |q| >= 1 && r <= |at|
  {
    var k := Before(p, at, r);
    1 <= k <= TABLE_STEPS ==> !ChangesWithin(p, q, r, k)
  }

  /** Root r stands where its polynomial changes sign for the first time after the root before. */
  ghost predicate RootOk(p: seq<int>, q: seq<int>, roots: seq<int>, at: seq<nat>, r: nat)
    requires |p| >= 1 && |q| >= 1 && r < |roots| == |at|
  {
    if r < FirstSought(p) then roots[r] == 0 && at[r] == 1
    else
      var poly := PolyOf(p, q, r);
      && 1 <= at[r] <= TABLE_STEPS && Before(p, at, r) <= at[r]
      && (if at[r] == Before(p, at, r) then ChangesWithin(p, q, r, at[r])
          else Passed(p, q, at, r) && Quiet(poly, Before(p, at, r), at[r]) && ChangesAt(poly, at[r]))
      && Refined(poly, LeftValue(p, q, at, r, at[r]), at[r]) == Root(roots[r])
  }

  ghost predicate RootsOk(p: seq<int>, q: seq<int>, roots: seq<int>, at: seq<nat>)
    requires |p| >= 1 && |q| >= 1
  {
    |roots| == |at| && forall r :: 0 <= r < |roots| ==> RootOk(p, q, roots, at, r)
  }

  /** A zero at the end of the step of the root before counts for one polynomial only. */
  function Threshold(p: seq<int>, q: seq<int>, at: seq<nat>, k: nat): int
    requires |p| >= 1 && |q| >= 1 && 1 <= k <= TABLE_STEPS + 1
  {
    var r := |at|;
    if k == Before(p, at, r) && k <= TABLE_STEPS && Eval(PolyOf(p, q, r - 1), CosAt(k)) == 0 then 1 else 0
  }

  lemma RootBrackets(p: seq<int>, q: seq<int>, roots: seq<int>, at: seq<nat>, r: nat)
    requires |p| >= 1 && |q| >= 1 && r < |roots| == |at| && RootOk(p, q, roots, at, r) && r >= FirstSought(p)
    ensures Brackets(LeftValue(p, q, at, r, at[r]), Eval(PolyOf(p, q, r), CosAt(at[r])))
  {
    hide Eval, Refined, CosAt, PolyOf;
  }

  /** What the search knows at table point k. */
  ghost predicate Standing(p: seq<int>, q: seq<int>, k: nat, thr: int, ylo: int, roots: seq<int>, at: seq<nat>)
    requires |p| >= 1 && |q| >= 1 && 1 <= k <= TABLE_STEPS + 1
  {
    && RootsOk(p, q, roots, at) && |roots| >= FirstSought(p)
    && Before(p, at, |roots|) <= k && Quiet(PolyOf(p, q, |roots|), Before(p, at, |roots|), k)
    && ylo == LeftValue(p, q, at, |roots|, k)
    && thr == Threshold(p, q, at, k) && (k > Before(p, at, |roots|) ==> Passed(p, q, at, |roots|))
  }

  ghost predicate EndsWell(p: seq<int>, q: seq<int>, d: nat, s: Scan)
    requires |p| >= 1 && |q| >= 1
  {
    match s
    case AllFound(roots, at) => |roots| == d && RootsOk(p, q, roots, at)
    case Exhausted(at) =>
      && FirstSought(p) <= |at| < d && Passed(p, q, at, |at|)
      && Quiet(PolyOf(p, q, |at|), Before(p, at, |at|), TABLE_STEPS + 1)
    case ScanPanicked(at, k, ylo) =>
      && |at| < d && 1 <= k <= TABLE_STEPS && ylo == LeftValue(p, q, at, |at|, k)
      && Brackets(ylo, Eval(PolyOf(p, q, |at|), CosAt(k))) && Refined(PolyOf(p, q, |at|), ylo, k).ZeroDivision?
  }

  lemma RootsKept(p: seq<int>, q: seq<int>, roots: seq<int>, at: seq<nat>, v: int, k: nat, r: nat)
    requires |p| >= 1 && |q| >= 1 && |roots| == |at| && r < |roots| && RootOk(p, q, roots, at, r)
    ensures RootOk(p, q, roots + [v], at + [k], r)
  {
    hide Eval, Refined, CosAt;
    assert Before(p, at + [k], r) == Before(p, at, r);
  }

  lemma FoundOne(p: seq<int>, q: seq<int>, k: nat, thr: int, ylo: int, roots: seq<int>, at: seq<nat>, v: int)
    requires |p| >= 1 && |q| >= 1 && 1 <= k <= TABLE_STEPS && Standing(p, q, k, thr, ylo, roots, at)
    requires SignChange(ylo, Eval(PolyOf(p, q, |roots|), CosAt(k)), thr)
    requires Refined(PolyOf(p, q, |roots|), ylo, k) == Root(v)
    ensures RootsOk(p, q, roots + [v], at + [k])
  {
    hide Eval, Refined, CosAt, PolyOf, Quiet;
    var rs, ks, n := roots + [v], at + [k], |roots|;
    forall r | 0 <= r < |rs|
      ensures RootOk(p, q, rs, ks, r)
    {
      if r < n {
        RootsKept(p, q, roots, at, v, k, r);
      } else {
        assert Before(p, ks, n) == Before(p, at, n);
        assert LeftValue(p, q, ks, n, k) == LeftValue(p, q, at, n, k);
      }
    }
  }

  lemma StandsAfterRoot(p: seq<int>, q: seq<int>, k: nat, roots: seq<int>, at: seq<nat>, yhi: int)
    requires |p| >= 1 && |q| >= 1 && 1 <= k <= TABLE_STEPS && RootsOk(p, q, roots, at)
    requires |roots| > FirstSought(p) && at[|roots| - 1] == k && yhi == Eval(PolyOf(p, q, |roots| - 1), CosAt(k))
    ensures Standing(p, q, k, if yhi == 0 then 1 else 0, RestartValue(|roots|), roots, at)
  {
    hide Eval, Refined, CosAt, RootOk;
  }

  lemma StandsAfterMove(p: seq<int>, q: seq<int>, k: nat, thr: int, ylo: int, roots: seq<int>, at: seq<nat>)
    requires |p| >= 1 && |q| >= 1 && 1 <= k <= TABLE_STEPS && Standing(p, q, k, thr, ylo, roots, at)
    requires !SignChange(ylo, Eval(PolyOf(p, q, |roots|), CosAt(k)), thr)
    ensures Standing(p, q, k + 1, 0, Eval(PolyOf(p, q, |roots|), CosAt(k)), roots, at)
  {
    hide Eval, Refined, CosAt, RootOk, PolyOf;
  }

  lemma {:induction false} ScanEndsWell(p: seq<int>, q: seq<int>, d: nat, k: nat, thr: int, ylo: int, roots: seq<int>,
                                        at: seq<nat>)
    requires |p| >= 1 && |q| >= 1 && 1 <= k <= TABLE_STEPS + 1 && |roots| < d && Standing(p, q, k, thr, ylo, roots, at)
    ensures EndsWell(p, q, d, ScanFrom(p, q, d, k, thr, ylo, roots, at))
    decreases (TABLE_STEPS + 1 - k) + (d - |roots|)
  {
    hide Eval, Refined, CosAt, RootsOk, Quiet, ScanFrom, RootOk;
    SizesAgree(p, q, roots, at);
    if k > TABLE_STEPS {
      ScanEnds(p, q, d, k, thr, ylo, roots, at);
    } else {
      var poly := PolyOf(p, q, |roots|);
      var yhi := Eval(poly, CosAt(k));
      if !SignChange(ylo, yhi, thr) {
        ScanMoves(p, q, d, k, thr, ylo, roots, at, yhi);
        StandsAfterMove(p, q, k, thr, ylo, roots, at);
        ScanEndsWell(p, q, d, k + 1, 0, yhi, roots, at);
      } else {
        ScanFinds(p, q, d, k, thr, ylo, roots, at, yhi);
        var refined := Refined(poly, ylo, k);
        if refined.Root? {
          var rs, ks := roots + [refined.value], at + [k];
          FoundOne(p, q, k, thr, ylo, roots, at, refined.value);
          if |roots| + 1 < d {
            StandsAfterRoot(p, q, k, rs, ks, yhi);
            ScanEndsWell(p, q, d, k, if yhi == 0 then 1 else 0, RestartValue(|rs|), rs, ks);
          }
        }
      }
    }
  }

  // ----- the explanation leaves one outcome -----

  lemma SameNext(p: seq<int>, q: seq<int>, roots: seq<int>, at: seq<nat>, others: seq<int>, points: seq<nat>, r: nat)
    requires |p| >= 1 && |q| >= 1 && r < |roots| == |at| && r < |others| == |points|
    requires RootOk(p, q, roots, at, r) && RootOk(p, q, others, points, r)
    requires r > 0 ==> at[r - 1] == points[r - 1]
    ensures at[r] == points[r] && roots[r] == others[r]
  {
    hide Eval, Refined, CosAt, PolyOf, ChangesWithin, ChangesAt;
    if r >= FirstSought(p) {
      assert Before(p, at, r) == Before(p, points, r);
      assert at[r] == points[r];
    }
  }

  /** For given polynomials there is one list of roots, of any length, that are all explained. */
  lemma {:induction false} RootsDetermined(p: seq<int>, q: seq<int>, roots: seq<int>, at: seq<nat>, others: seq<int>,
                                           points: seq<nat>, n: nat)
    requires |p| >= 1 && |q| >= 1 && n <= |roots| && n <= |others|
    requires RootsOk(p, q, roots, at) && RootsOk(p, q, others, points)
    ensures roots[..n] == others[..n] && at[..n] == points[..n]
  {
    hide RootOk;
    if n > 0 {
      RootsDetermined(p, q, roots, at, others, points, n - 1);
      assert n > 1 ==> at[..n - 1][n - 2] == points[..n - 1][n - 2];
      SameNext(p, q, roots, at, others, points, n - 1);
    }
  }

  /** Roots alternate between the polynomials, and each starts over with the other sign after its own root. */
  lemma RestartAlternates(p: seq<int>, q: seq<int>, r: nat)
    ensures PolyOf(p, q, 2 * r) == p && PolyOf(p, q, 2 * r + 1) == q
    ensures RestartValue(0) > 0 && RestartValue(1) > 0
    ensures RestartValue(r + 2) == -RestartValue(r) && RestartValue(r) != 0
  {
    assert (r + 2) / 2 == r / 2 + 1;
  }

  lemma SizesAgree(p: seq<int>, q: seq<int>, roots: seq<int>, at: seq<nat>)
    requires |p| >= 1 && |q| >= 1 && RootsOk(p, q, roots, at)
    ensures |roots| == |at|
  {
  }

  lemma RoundEndsWell(p: seq<int>, q: seq<int>, d: nat)
    requires |p| >= 1 && |q| >= 1 && d >= 2
    ensures EndsWell(p, q, d, ScanAll(p, q, d))
  {
    hide Eval, Refined, CosAt, ScanFrom, ScanAll;
    ScanStarts(p, q, d);
    if StartsAtZero(p) {
      assert Standing(p, q, 1, 0, Eval(q, CosAt(0)), [0], [1]);
      ScanEndsWell(p, q, d, 1, 0, Eval(q, CosAt(0)), [0], [1]);
    } else {
      assert Standing(p, q, 1, 0, Eval(p, CosAt(0)), [], []);
      ScanEndsWell(p, q, d, 1, 0, Eval(p, CosAt(0)), [], []);
    }
  }

  lemma PanicInRoundIsSteep(p: seq<int>, q: seq<int>, d: nat)
    requires |p| >= 2 && |q| >= 2 && d >= 2 && ScanAll(p, q, d).ScanPanicked?
    ensures TooSteep(p) || TooSteep(q)
  {
    hide Eval, Refined, CosAt, ScanAll;
    RoundEndsWell(p, q, d);
    var ScanPanicked(at, k, ylo) := ScanAll(p, q, d);
    PanicIsSteep(PolyOf(p, q, |at|), ylo, k);
  }

  // ----- the whole search -----

  /** The outcome of the rounds from the i-th on. */
  ghost predicate Explains(a: seq<int>, d: nat, i: nat, s: Search)
    requires 2 <= d <= |a| && d % 2 == 0
  {
    match s
    case Found(round, roots, at) =>
      && i <= round <= MAX_RESTARTS && |roots| == d && RootsOk(RoundSum(a, d, round), RoundDiff(a, d, round), roots, at)
      && forall j :: i <= j < round ==> RoundScan(a, d, j).Exhausted?
    case GaveUp => forall j :: i <= j <= MAX_RESTARTS ==> RoundScan(a, d, j).Exhausted?
    case SearchPanicked(round) =>
      && i <= round <= MAX_RESTARTS && (TooSteep(RoundSum(a, d, round)) || TooSteep(RoundDiff(a, d, round)))
      && forall j :: i <= j < round ==> RoundScan(a, d, j).Exhausted?
  }

  /**
    Roots are first sign changes of the polynomials of the round they are found in, earlier rounds ran
    out of table, giving up means that all seventeen did, and a panic needs a polynomial that is too steep.
   */
  lemma {:induction false} SearchExplained(a: seq<int>, d: nat, i: nat)
    requires 2 <= d <= |a| && d % 2 == 0 && i <= MAX_RESTARTS
    ensures Explains(a, d, i, SearchFrom(a, d, i))
    decreases MAX_RESTARTS - i
  {
    hide RoundSum, RoundDiff, ScanAll, RootsOk, TooSteep, EndsWell;
    var p, q := RoundSum(a, d, i), RoundDiff(a, d, i);
    RoundOutcome(p, q, d);
    if RoundScan(a, d, i).Exhausted? && i < MAX_RESTARTS {
      SearchExplained(a, d, i + 1);
    }
  }

  lemma RoundOutcome(p: seq<int>, q: seq<int>, d: nat)
    requires |p| >= 2 && |q| >= 2 && d >= 2
    ensures match ScanAll(p, q, d)
            case AllFound(roots, at) => |roots| == d && RootsOk(p, q, roots, at)
            case ScanPanicked(_, _, _) => TooSteep(p) || TooSteep(q)
            case Exhausted(at) =>
              && FirstSought(p) <= |at| < d && Passed(p, q, at, |at|)
              && Quiet(PolyOf(p, q, |at|), Before(p, at, |at|), TABLE_STEPS + 1)
  {
    hide Eval, Refined, CosAt, ScanAll, TooSteep;
    RoundEndsWell(p, q, d);
    if ScanAll(p, q, d).ScanPanicked? {
      PanicInRoundIsSteep(p, q, d);
    }
  }

  /**
    Terminates for every coefficient vector, within the table and within the d outputs. Panic, outputs
    and the coefficients left behind are those of the search, and the search is explained.
   */
  method SilkA2Nlsf(nlsf: array<int>, aQ16: array<int>, d: nat) returns (panicked: bool)
    requires d >= 2 && d % 2 == 0 && d <= nlsf.Length && d <= aQ16.Length && nlsf != aQ16
    modifies nlsf, aQ16
    ensures var s := SearchFrom(old(aQ16[..]), d, 0);
            && Explains(old(aQ16[..]), d, 0, s)
            && panicked == s.SearchPanicked?
            && (!panicked ==> nlsf[..d] == OutputOf(s, d))
            && aQ16[..] == Expanded(old(aQ16[..]), d, RoundsUsed(s))
    ensures panicked ==> exists i :: 0 <= i <= MAX_RESTARTS && SteepRound(old(aQ16[..]), d, i)
    ensures nlsf[d..] == old(nlsf[d..])
  {
    hide Explains, TooSteep;
    ghost var a0 := aQ16[..];
    var p, q := new int[d / 2 + 1], new int[d / 2 + 1];
    InitPolys(aQ16, p, q, d / 2);
    assert aQ16[..] == a0;
    panicked := SearchRounds(nlsf, aQ16, p, q, d, a0);
    SearchExplained(a0, d, 0);
    if panicked {
      PanicExplained(a0, d);
    }
  }

  ghost predicate SteepRound(a: seq<int>, d: nat, i: nat)
    requires 2 <= d <= |a| && d % 2 == 0
  {
    TooSteep(RoundSum(a, d, i)) || TooSteep(RoundDiff(a, d, i))
  }

  lemma PanicExplained(a: seq<int>, d: nat)
    requires 2 <= d <= |a| && d % 2 == 0 && SearchFrom(a, d, 0).SearchPanicked?
    ensures exists i :: 0 <= i <= MAX_RESTARTS && SteepRound(a, d, i)
  {
    hide TooSteep, RoundSum, RoundDiff;
    SearchExplained(a, d, 0);
    assert SteepRound(a, d, SearchFrom(a, d, 0).round);
  }

  // ----- a coefficient vector on which the search panics -----

  const STEEP: seq<int> := [-1073603521, 1073683520]

  lemma SteepPolys()
    ensures RoundSum(STEEP, 2, 0) == [-145535, 65536]
    ensures RoundDiff(STEEP, 2, 0) == [2147352577, 65536]
  {
    var f, g := Folded(STEEP, 1, true), Folded(STEEP, 1, false);
    assert f == [-79999, 65536] && g == [2147287041, 65536];
    assert Deflate(f, 1, true) == Deflate(f[0 := -145535], 0, true) == [-145535, 65536];
    assert Deflate(g, 1, false) == Deflate(g[0 := 2147352577], 0, false) == [2147352577, 65536];
    assert TransFrom([-145535, 65536], 2) == [-145535, 65536];
    assert TransFrom([2147352577, 65536], 2) == [2147352577, 65536];
  }

  lemma EvalOfLine(c: int, x: int)
    requires InTable(x)
    ensures Eval([c, 65536], x) == Wrap32(c + 16 * x)
  {
    var p := [c, 65536];
    assert EvalFrom(p, x, 1) == 65536;
    assert Wrap32(x * 16) == x * 16;
    assert 65536 * (x * 16) / 65536 == x * 16;
  }

  lemma SteepValues()
    ensures var p, q := RoundSum(STEEP, 2, 0), RoundDiff(STEEP, 2, 0);
            && Eval(p, 8192) < 0 && Eval(q, 8192) == -2147483647
            && Eval(q, 8191) == 2147483633 && Eval(q, 8190) == 2147483617
  {
    hide Eval, RoundSum, RoundDiff;
    SteepPolys();
    EvalOfLine(-145535, 8192);
    EvalOfLine(2147352577, 8192);
    EvalOfLine(2147352577, 8191);
    EvalOfLine(2147352577, 8190);
  }

  lemma SteepNarrowed()
    ensures var q := RoundDiff(STEEP, 2, 0);
            var b := Narrowed(q, 8192, -2147483647, 8190, 2147483617);
            b.y0 == -2147483647 && b.y1 == 2147483633
  {
    hide Eval, RoundDiff, RoundSum, Bisected;
    SteepValues();
    var q := RoundDiff(STEEP, 2, 0);
    var start := Interval(8192, -2147483647, 8190, 2147483617, -256);
    ThreeHalvings(q, start);
    var b1 := Interval(8192, -2147483647, 8191, 2147483633, -256);
    var b2 := Interval(8192, -2147483647, 8191, 2147483633, -192);
    hide Halve, Narrowed;
    SteepMidpoints(start, b1, b2);
    HalveRight(q, start, 128);
    HalveLeft(q, b1, 64);
    HalveLeft(q, b2, 32);
    NarrowedIs(q, 8192, -2147483647, 8190, 2147483617);
  }

  lemma NarrowedIs(p: seq<int>, xlo: int, ylo: int, xhi: int, yhi: int)
    requires |p| >= 1
    ensures Narrowed(p, xlo, ylo, xhi, yhi) == Bisected(p, Interval(xlo, ylo, xhi, yhi, -256), 3)
  {
  }

  lemma SteepMidpoints(start: Interval, b1: Interval, b2: Interval)
    requires start.x0 == b1.x0 == b2.x0 == 8192 && start.x1 == 8190 && b1.x1 == b2.x1 == 8191
    ensures Midpoint(start) == 8191 && Midpoint(b1) == 8192 && Midpoint(b2) == 8192
  {
  }

  lemma HalveRight(p: seq<int>, b: Interval, half: int)
    requires |p| >= 1 && Brackets(b.y0, Eval(p, Midpoint(b)))
    ensures Halve(p, b, half) == b.(x1 := Midpoint(b), y1 := Eval(p, Midpoint(b)))
  {
    hide Eval, Midpoint;
  }

  lemma HalveLeft(p: seq<int>, b: Interval, half: int)
    requires |p| >= 1 && !Brackets(b.y0, Eval(p, Midpoint(b)))
    ensures Halve(p, b, half) == b.(x0 := Midpoint(b), y0 := Eval(p, Midpoint(b)), ffrac := b.ffrac + half)
  {
    hide Eval, Midpoint;
  }

  /** Two 32-bit coefficients for which the search divides by zero at its first bracket. */
  lemma SearchCanPanic()
    ensures forall i :: 0 <= i < |STEEP| ==> IsInt32(STEEP[i])
    ensures SearchFrom(STEEP, 2, 0) == SearchPanicked(0)
  {
    hide Eval, RoundDiff, RoundSum, Narrowed, ScanFrom, ScanAll;
    SteepValues();
    SteepNarrowed();
    var p, q := RoundSum(STEEP, 2, 0), RoundDiff(STEEP, 2, 0);
    FirstCosines();
    ZeroDivisionExactly(-2147483647, 2147483633);
    assert Refined(q, -2147483647, 1).ZeroDivision?;
    ScanStarts(p, q, 2);
    ScanFinds(p, q, 2, 1, 0, -2147483647, [0], [1], 2147483617);
  }
}
