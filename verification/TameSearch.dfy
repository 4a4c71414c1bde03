/**
  When the root search is safe: no difference of polynomial values overflows, so it does not panic and
  its outputs lie where they were found. Small coefficients are enough for that.
 */
module TameSearch {
  import opened Arith
  import opened Fixed
  import opened A2Nlsf
  import opened RootScan
  import opened RootSearch

  const SAFE := 0x4000_0000

  /** Values stay far enough inside 32 bits for a difference of two of them not to overflow. */
  ghost predicate Tame(p: seq<int>)
    requires |p| >= 1
  {
    forall x :: InTable(x) ==> IsSafe(Eval(p, x))
  }

  predicate IsSafe(y: int) {
    -SAFE < y < SAFE
  }

  ghost predicate TameRound(a: seq<int>, d: nat, i: nat)
    requires 2 <= d <= |a| && d % 2 == 0
  {
    Tame(RoundSum(a, d, i)) && Tame(RoundDiff(a, d, i))
  }

  /** No polynomial of any round takes a value near the ends of the 32-bit range. */
  ghost predicate Tamed(a: seq<int>, d: nat)
    requires 2 <= d <= |a| && d % 2 == 0
  {
    forall i :: 0 <= i <= MAX_RESTARTS ==> TameRound(a, d, i)
  }

  // ----- what it gives -----

  lemma QuotientBounded(a: int, b: int, bound: int)
    requires b != 0 && bound >= 0
    requires if b > 0 then 0 <= a < (bound + 1) * b else (bound + 1) * b < a <= 0
    ensures 0 <= TruncDiv(a, b) <= bound
  {
    if b > 0 {
      QuotientBelow(a, b, bound + 1);
    } else {
      assert (bound + 1) * -b == -((bound + 1) * b);
      QuotientBelow(-a, -b, bound + 1);
    }
  }

  lemma FineBounded(y0: int, den: int)
    requires den != 0 && -65536 < y0 < 65536 && Brackets(y0, y0 - den)
    ensures 0 <= TruncDiv(y0 * 32 + den / 2, den) <= 33
  {
    QuotientBounded(y0 * 32 + den / 2, den, 33);
  }

  lemma CoarseBounded(y0: int, den: int)
    requires !(-65536 < y0 < 65536) && Brackets(y0, y0 - den)
    ensures den / 32 != 0 && 0 <= TruncDiv(y0, den / 32) <= 32
  {
    QuotientBounded(y0, den / 32, 32);
  }

  /** Interpolating inside a bracket of safe values moves by 0 to 33 units. */
  lemma InterpolationBounded(y0: int, y1: int)
    requires Brackets(y0, y1) && IsSafe(y0) && IsSafe(y1)
    ensures Interpolation(y0, y1).Root? && 0 <= Interpolation(y0, y1).value <= 33
  {
    var den := y0 - y1;
    if !(-65536 < y0 < 65536) {
      CoarseBounded(y0, den);
    } else if den != 0 {
      FineBounded(y0, den);
    }
    hide TruncDiv;
    assert Wrap32(den) == den && Wrap32(-y0) == -y0;
  }

  /** A value found between table points k - 1 and k, up to one unit above and capped at 16 bits. */
  predicate RootAt(v: int, k: int) {
    1 <= k <= TABLE_STEPS && 256 * (k - 1) <= v <= 256 * k + 1 && v <= INT16_MAX
  }

  predicate NonDecreasing(at: seq<nat>) {
    forall i, j :: 0 <= i < j < |at| ==> at[i] <= at[j]
  }

  lemma TameRefined(p: seq<int>, ylo: int, k: nat)
    requires |p| >= 1 && 1 <= k <= TABLE_STEPS && Tame(p) && IsSafe(ylo)
    requires Brackets(ylo, Eval(p, CosAt(k)))
    ensures Refined(p, ylo, k).Root? && RootAt(Refined(p, ylo, k).value, k)
  {
    hide Eval, Interpolation, Narrowed;
    var b := Narrowed(p, CosAt(k - 1), ylo, CosAt(k), Eval(p, CosAt(k)));
    RefinedBracket(p, ylo, k);
    assert IsSafe(b.y0) && IsSafe(b.y1);
    InterpolationBounded(b.y0, b.y1);
  }

  lemma TameLeft(p: seq<int>, q: seq<int>, at: seq<nat>, r: nat, k: nat)
    requires |p| >= 1 && |q| >= 1 && Tame(p) && Tame(q) && r <= |at| && 1 <= k <= TABLE_STEPS + 1
    ensures IsSafe(LeftValue(p, q, at, r, k)) && Tame(PolyOf(p, q, r))
  {
    hide Eval;
    assert InTable(CosAt(k - 1));
  }

  lemma TameRootAt(p: seq<int>, q: seq<int>, roots: seq<int>, at: seq<nat>, r: nat)
    requires |p| >= 1 && |q| >= 1 && Tame(p) && Tame(q) && r < |roots| == |at| && RootOk(p, q, roots, at, r)
    ensures RootAt(roots[r], at[r])
  {
    hide Eval, Refined, CosAt, Tame;
    if r >= FirstSought(p) {
      RootBrackets(p, q, roots, at, r);
      TameLeft(p, q, at, r, at[r]);
      TameRefined(PolyOf(p, q, r), LeftValue(p, q, at, r, at[r]), at[r]);
    }
  }

  lemma {:induction false} RootsInOrder(p: seq<int>, q: seq<int>, roots: seq<int>, at: seq<nat>, i: nat, j: nat)
    requires |p| >= 1 && |q| >= 1 && RootsOk(p, q, roots, at) && i < j < |at|
    ensures at[i] <= at[j]
    decreases j
  {
    hide Eval, Refined, CosAt;
    assert RootOk(p, q, roots, at, j);
    if i < j - 1 {
      RootsInOrder(p, q, roots, at, i, j - 1);
    } else {
      assert RootOk(p, q, roots, at, i);
      if j <= FirstSought(p) {
        assert i == 0 && at[i] == 1;
      }
    }
  }

  lemma TameIsNotSteep(p: seq<int>)
    requires |p| >= 1 && Tame(p)
    ensures !TooSteep(p)
  {
    hide Eval;
    forall x0, x1
      ensures !SteepBetween(p, x0, x1)
    {
    }
  }

  lemma SpreadFits(d: nat)
    requires d >= 2
    ensures forall i :: 0 <= i < d ==> 0 <= Spread(d)[i] <= INT16_MAX
  {
    forall i | 0 <= i < d
      ensures 0 <= Spread(d)[i] <= INT16_MAX
    {
      GapsFit(d, i);
    }
  }

  /** No panic, 16-bit outputs, and roots at table points that never go back. */
  lemma TameSearchSucceeds(a: seq<int>, d: nat)
    requires 2 <= d <= |a| && d % 2 == 0 && Tamed(a, d)
    ensures var s := SearchFrom(a, d, 0);
            && !s.SearchPanicked? && |OutputOf(s, d)| == d
            && (forall i :: 0 <= i < d ==> 0 <= OutputOf(s, d)[i] <= INT16_MAX)
            && (s.Found? ==> |s.at| == d && NonDecreasing(s.at))
            && (s.Found? ==> forall i :: 0 <= i < d ==> RootAt(s.roots[i], s.at[i]))
  {
    hide RoundSum, RoundDiff, RoundScan, Tame, RootOk, TooSteep, Spread;
    SearchExplained(a, d, 0);
    var s := SearchFrom(a, d, 0);
    if s.GaveUp? {
      SpreadFits(d);
    } else {
      var round := if s.Found? then s.round else s.round;
      assert TameRound(a, d, round);
      var p, q := RoundSum(a, d, round), RoundDiff(a, d, round);
      if s.SearchPanicked? {
        TameIsNotSteep(p);
        TameIsNotSteep(q);
      } else {
        TameRoots(p, q, s.roots, s.at);
      }
    }
  }

  lemma TameRoots(p: seq<int>, q: seq<int>, roots: seq<int>, at: seq<nat>)
    requires |p| >= 1 && |q| >= 1 && Tame(p) && Tame(q) && RootsOk(p, q, roots, at)
    ensures |at| == |roots| && NonDecreasing(at) && forall i :: 0 <= i < |roots| ==> RootAt(roots[i], at[i])
  {
    hide RootOk, Tame;
    forall i | 0 <= i < |roots|
      ensures RootAt(roots[i], at[i])
    {
      TameRootAt(p, q, roots, at, i);
    }
    forall i, j | 0 <= i < j < |at|
      ensures at[i] <= at[j]
    {
      RootsInOrder(p, q, roots, at, i, j);
    }
  }

  /** Roots in order of their table points are in order themselves, up to the width of a table step. */
  lemma RootsNearlySorted(roots: seq<int>, at: seq<nat>, i: nat, j: nat)
    requires i < j < |at| == |roots| && NonDecreasing(at) && RootAt(roots[i], at[i]) && RootAt(roots[j], at[j])
    ensures roots[i] <= roots[j] + 257
    ensures at[i] < at[j] ==> roots[i] <= roots[j] + 1
  {
  }
}
