/**
  The conversion of whitening coefficients to line spectral frequencies: a table-driven search for the
  roots of two polynomials, with restarts on expanded coefficients. A division by zero ends the search
  the way a runtime panic does.
 */
module RootScan {
  import opened Arith
  import opened Fixed
  import opened A2Nlsf

  const TABLE_STEPS := 128
  const BISECTIONS := 3
  const MAX_RESTARTS := 16
  const INT16_MAX := 32767

  type CosQ12 = x: int | -8192 <= x <= 8192

  /** The cosine in Q12 at 129 points from 0 to pi, where the search evaluates. */
  const COS_TABLE: seq<CosQ12> := [
    8192, 8190, 8182, 8170, 8152, 8130, 8104, 8072, 8034, 7994, 7946, 7896] + [
    7840, 7778, 7714, 7644, 7568, 7490, 7406, 7318, 7226, 7128, 7026, 6922,
    6812, 6698, 6580, 6458, 6332, 6204, 6070, 5934, 5792, 5648, 5502, 5352,
    5198, 5040, 4880, 4718, 4552, 4382, 4212, 4038, 3862, 3684, 3502, 3320,
    3136, 2948, 2760, 2570, 2378, 2186, 1990, 1794, 1598, 1400, 1202, 1002,
    802, 602, 402, 202, 0, -202, -402, -602, -802, -1002, -1202, -1400,
    -1598, -1794, -1990, -2186, -2378, -2570, -2760, -2948, -3136, -3320, -3502, -3684,
    -3862, -4038, -4212, -4382, -4552, -4718, -4880, -5040, -5198, -5352, -5502, -5648,
    -5792, -5934, -6070, -6204, -6332, -6458, -6580, -6698, -6812, -6922, -7026, -7128,
    -7226, -7318, -7406, -7490, -7568, -7644, -7714, -7778, -7840, -7896, -7946, -7994,
    -8034, -8072, -8104, -8130, -8152, -8170, -8182, -8190, -8192]

  function CosAt(k: nat): CosQ12
    requires k <= TABLE_STEPS
  {
    COS_TABLE[k]
  }

  lemma FirstCosines()
    ensures CosAt(0) == 8192 && CosAt(1) == 8190
  {
    assert COS_TABLE[0] == 8192 && COS_TABLE[1] == 8190;
  }

  // ----- one root -----

  /** The interval ends have opposite signs, zero counting as either. */
  predicate Brackets(y0: int, y1: int) {
    (y0 <= 0 && y1 >= 0) || (y0 >= 0 && y1 <= 0)
  }

  /** The test of the search; with a threshold of 1 a zero at the right end does not count. */
  predicate SignChange(ylo: int, yhi: int, thr: int) {
    (ylo <= 0 && yhi >= thr) || (ylo >= 0 && yhi <= -thr)
  }

  /** An interval with the values at its ends, and the position of its left end in 1/256 of a table step. */
  datatype Interval = Interval(x0: int, y0: int, x1: int, y1: int, ffrac: int)

  function Midpoint(b: Interval): int {
    Halved(Wrap32(b.x0 + b.x1))
  }

  /** The half of the interval that keeps the sign change. */
  function Halve(p: seq<int>, b: Interval, half: int): Interval
    requires |p| >= 1
  {
    var ymid := Eval(p, Midpoint(b));
    if Brackets(b.y0, ymid) then b.(x1 := Midpoint(b), y1 := ymid)
    else b.(x0 := Midpoint(b), y0 := ymid, ffrac := b.ffrac + half)
  }

  function HalfAt(m: nat): int {
    if m == 0 then 128 else HalfAt(m - 1) / 2
  }

  function Bisected(p: seq<int>, b: Interval, m: nat): Interval
    requires |p| >= 1
  {
    if m == 0 then b else Halve(p, Bisected(p, b, m - 1), HalfAt(m - 1))
  }

  /** Three halvings of the interval between two table points. */
  function Narrowed(p: seq<int>, xlo: int, ylo: int, xhi: int, yhi: int): Interval
    requires |p| >= 1
  {
    Bisected(p, Interval(xlo, ylo, xhi, yhi, -256), BISECTIONS)
  }

  method Bisect(p: array<int>, xlo: int, ylo: int, xhi: int, yhi: int) returns (y0: int, y1: int, ffrac: int)
    requires p.Length >= 1
    ensures var b := Narrowed(p[..], xlo, ylo, xhi, yhi); y0 == b.y0 && y1 == b.y1 && ffrac == b.ffrac
  {
    ghost var start := Interval(xlo, ylo, xhi, yhi, -256);
    var x0, x1 := xlo, xhi;
    y0, y1, ffrac := ylo, yhi, -256;
    var half := 128;
    for m := 0 to BISECTIONS
      invariant Interval(x0, y0, x1, y1, ffrac) == Bisected(p[..], start, m)
      invariant half == HalfAt(m)
    {
      var xmid := Halved(Wrap32(x0 + x1));
      var ymid := EvalPoly(p, xmid);
      if (y0 <= 0 && ymid >= 0) || (y0 >= 0 && ymid <= 0) {
        x1 := xmid;
        y1 := ymid;
      } else {
        x0 := xmid;
        y0 := ymid;
        ffrac := ffrac + half;
      }
      half := half / 2;
    }
  }

  datatype Refinement = Root(value: int) | ZeroDivision

  /** The quotient of the interpolation, or a division by zero. */
  function Interpolation(y0: int, y1: int): Refinement {
    var magnitude := if y0 < 0 then Wrap32(-y0) else y0;
    var den := Wrap32(y0 - y1);
    if magnitude < 65536 then
      var nom := Wrap32(Wrap32(y0 * 32) + Shr(den, 2));
      if den != 0 then Root(Wrap32(TruncDiv(nom, den))) else Root(0)
    else
      var shifted := Shr(den, 32);
      if shifted == 0 then ZeroDivision else Root(Wrap32(TruncDiv(y0, shifted)))
  }

  /** The root between table points k - 1 and k, in 1/256 of a table step, capped at 16 bits. */
  function Refined(p: seq<int>, ylo: int, k: nat): Refinement
    requires |p| >= 1 && 1 <= k <= TABLE_STEPS
  {
    var b := Narrowed(p, CosAt(k - 1), ylo, CosAt(k), Eval(p, CosAt(k)));
    match Interpolation(b.y0, b.y1)
    case ZeroDivision => ZeroDivision
    case Root(fraction) => Root(Min(Wrap32(k * 256 + Wrap32(b.ffrac + fraction)), INT16_MAX))
  }

  method RefineRoot(p: array<int>, xlo: int, ylo: int, xhi: int, yhi: int, k: nat) returns (r: Refinement)
    requires p.Length >= 1 && 1 <= k <= TABLE_STEPS
    requires xlo == CosAt(k - 1) && xhi == CosAt(k) && yhi == Eval(p[..], xhi)
    ensures r == Refined(p[..], ylo, k)
  {
    hide Narrowed, Interpolation, Eval, CosAt;
    var y0, y1, ffrac := Bisect(p, xlo, ylo, xhi, yhi);
    r := Interpolation(y0, y1);
    if r.Root? {
      var root := Wrap32(k * 256 + Wrap32(ffrac + r.value));
      if root > INT16_MAX {
        root := INT16_MAX;
      }
      r := Root(root);
    }
  }

  // ----- one round -----

  datatype Scan =
    | AllFound(roots: seq<int>, at: seq<nat>)
    | Exhausted(at: seq<nat>)
    | ScanPanicked(at: seq<nat>, k: nat, ylo: int)

  /** Roots alternate between the two polynomials. */
  function PolyOf(p: seq<int>, q: seq<int>, rootIx: nat): seq<int> {
    if rootIx % 2 != 0 then q else p
  }

  /** What stands for the left value when the search goes on within the step where it found a root. */
  function RestartValue(rootIx: nat): int {
    (1 - 2 * (rootIx / 2 % 2)) * 4096
  }

  /** The search from table point k on; `at` remembers the table point of each root. */
  function ScanFrom(p: seq<int>, q: seq<int>, d: nat, k: nat, thr: int, ylo: int, roots: seq<int>, at: seq<nat>): Scan
    requires |p| >= 1 && |q| >= 1 && 1 <= k <= TABLE_STEPS + 1 && |roots| < d
    decreases (TABLE_STEPS + 1 - k) + (d - |roots|)
  {
    if k > TABLE_STEPS then Exhausted(at)
    else
      var poly := PolyOf(p, q, |roots|);
      var yhi := Eval(poly, CosAt(k));
      if SignChange(ylo, yhi, thr) then
        match Refined(poly, ylo, k)
        case ZeroDivision => ScanPanicked(at, k, ylo)
        case Root(v) =>
          if |roots| + 1 >= d then AllFound(roots + [v], at + [k])
          else
            ScanFrom(p, q, d, k, if yhi == 0 then 1 else 0, RestartValue(|roots| + 1), roots + [v], at + [k])
      else ScanFrom(p, q, d, k + 1, 0, yhi, roots, at)
  }

  /** Whether the first polynomial is negative at the first table point, which counts as a root at zero. */
  predicate StartsAtZero(p: seq<int>)
    requires |p| >= 1
  {
    Eval(p, CosAt(0)) < 0
  }

  function ScanAll(p: seq<int>, q: seq<int>, d: nat): Scan
    requires |p| >= 1 && |q| >= 1 && d >= 2
  {
    if StartsAtZero(p) then ScanFrom(p, q, d, 1, 0, Eval(q, CosAt(0)), [0], [1])
    else ScanFrom(p, q, d, 1, 0, Eval(p, CosAt(0)), [], [])
  }

  datatype ScanResult = Done | TableUsedUp | Panicking

  method StartRound(nlsf: array<int>, p: array<int>, q: array<int>) returns (useQ: bool, ylo: int, rootIx: nat)
    requires nlsf.Length >= 2 && p.Length >= 1 && q.Length >= 1 && nlsf != p && nlsf != q
    modifies nlsf
    ensures nlsf[1..] == old(nlsf[1..])
    ensures useQ == (rootIx == 1) == StartsAtZero(p[..]) && rootIx <= 1 && (rootIx == 1 ==> nlsf[0] == 0)
    ensures ylo == Eval(PolyOf(p[..], q[..], rootIx), CosAt(0))
  {
    useQ, rootIx := false, 0;
    ylo := EvalPoly(p, CosAt(0));
    if ylo < 0 {
      nlsf[0] := 0;
      useQ := true;
      ylo := EvalPoly(q, CosAt(0));
      rootIx := 1;
    }
  }

  method StoreRoot(nlsf: array<int>, rootIx: nat, v: int, d: nat)
    requires rootIx < d <= nlsf.Length
    modifies nlsf
    ensures nlsf[..rootIx + 1] == old(nlsf[..rootIx]) + [v] && nlsf[d..] == old(nlsf[d..])
  {
    nlsf[rootIx] := v;
  }

  /**
    One round of the search loop, from the first table point until d roots are found or the table is
    used up. Every pass either finds a root at the same index or moves one index on.
   */
  method ScanTable(nlsf: array<int>, p: array<int>, q: array<int>, d: nat) returns (result: ScanResult)
    requires 2 <= d <= nlsf.Length && p.Length >= 1 && q.Length >= 1 && nlsf != p && nlsf != q
    modifies nlsf
    ensures nlsf[d..] == old(nlsf[d..])
    ensures var s := ScanAll(p[..], q[..], d);
            && result.Done? == s.AllFound? && result.TableUsedUp? == s.Exhausted?
            && (result.Done? ==> nlsf[..d] == s.roots)
  {
    hide Eval, Refined, SignChange, ScanFrom, ScanAll, CosAt;
    ghost var ps, qs, tail := p[..], q[..], nlsf[d..];
    assert p.Length == |ps| && q.Length == |qs|;
    var useQ, ylo, rootIx := StartRound(nlsf, p, q);
    assert nlsf[d..] == tail by {
      assert nlsf[1..][d - 1..] == nlsf[d..];
    }
    var xlo: int := CosAt(0);
    var k, thr := 1, 0;
    ghost var roots: seq<int> := if rootIx == 1 then [0] else [];
    ghost var at: seq<nat> := if rootIx == 1 then [1] else [];
    assert nlsf[..rootIx] == roots;
    ScanStarts(ps, qs, d);
    while k <= TABLE_STEPS
      invariant 1 <= k <= TABLE_STEPS + 1 && xlo == CosAt(k - 1)
      invariant |roots| == rootIx < d && useQ == (rootIx % 2 != 0)
      invariant p[..] == ps && q[..] == qs && nlsf[d..] == tail && nlsf[..rootIx] == roots
      invariant ScanFrom(ps, qs, d, k, thr, ylo, roots, at) == ScanAll(ps, qs, d)
      decreases (TABLE_STEPS - k) + (d - rootIx)
    {
      var xhi: int := CosAt(k);
      var poly := if useQ then q else p;
      assert poly[..] == PolyOf(ps, qs, rootIx);
      var yhi := EvalPoly(poly, xhi);
      if SignChange(ylo, yhi, thr) {
        ScanFinds(ps, qs, d, k, thr, ylo, roots, at, yhi);
        thr := if yhi == 0 then 1 else 0;
        var r := RefineRoot(poly, xlo, ylo, xhi, yhi, k);
        if r.ZeroDivision? {
          return Panicking;
        }
        StoreRoot(nlsf, rootIx, r.value, d);
        roots, at := roots + [r.value], at + [k];
        rootIx := rootIx + 1;
        if rootIx >= d {
          return Done;
        }
        useQ := rootIx % 2 != 0;
        xlo := CosAt(k - 1);
        ylo := (1 - 2 * (rootIx / 2 % 2)) * 4096;
      } else {
        ScanMoves(ps, qs, d, k, thr, ylo, roots, at, yhi);
        k := k + 1;
        xlo := xhi;
        ylo := yhi;
        thr := 0;
      }
    }
    ScanEnds(ps, qs, d, k, thr, ylo, roots, at);
    return TableUsedUp;
  }

  lemma ScanStarts(p: seq<int>, q: seq<int>, d: nat)
    requires |p| >= 1 && |q| >= 1 && d >= 2
    ensures StartsAtZero(p) ==> ScanAll(p, q, d) == ScanFrom(p, q, d, 1, 0, Eval(q, CosAt(0)), [0], [1])
    ensures !StartsAtZero(p) ==> ScanAll(p, q, d) == ScanFrom(p, q, d, 1, 0, Eval(p, CosAt(0)), [], [])
  {
    hide Eval, ScanFrom, CosAt;
  }

  lemma ScanMoves(p: seq<int>, q: seq<int>, d: nat, k: nat, thr: int, ylo: int, roots: seq<int>, at: seq<nat>, yhi: int)
    requires |p| >= 1 && |q| >= 1 && 1 <= k <= TABLE_STEPS && |roots| < d
    requires yhi == Eval(PolyOf(p, q, |roots|), CosAt(k)) && !SignChange(ylo, yhi, thr)
    ensures ScanFrom(p, q, d, k, thr, ylo, roots, at) == ScanFrom(p, q, d, k + 1, 0, yhi, roots, at)
  {
    hide Eval, Refined, SignChange, PolyOf, CosAt;
  }

  lemma ScanFinds(p: seq<int>, q: seq<int>, d: nat, k: nat, thr: int, ylo: int, roots: seq<int>, at: seq<nat>, yhi: int)
    requires |p| >= 1 && |q| >= 1 && 1 <= k <= TABLE_STEPS && |roots| < d
    requires yhi == Eval(PolyOf(p, q, |roots|), CosAt(k)) && SignChange(ylo, yhi, thr)
    ensures var s := ScanFrom(p, q, d, k, thr, ylo, roots, at);
            match Refined(PolyOf(p, q, |roots|), ylo, k)
            case ZeroDivision => s == ScanPanicked(at, k, ylo)
            case Root(v) =>
              if |roots| + 1 >= d then s == AllFound(roots + [v], at + [k])
              else
                var thr := if yhi == 0 then 1 else 0;
                s == ScanFrom(p, q, d, k, thr, RestartValue(|roots| + 1), roots + [v], at + [k])
  {
    hide Eval, Refined, SignChange, PolyOf, CosAt;
  }

  lemma ScanEnds(p: seq<int>, q: seq<int>, d: nat, k: nat, thr: int, ylo: int, roots: seq<int>, at: seq<nat>)
    requires |p| >= 1 && |q| >= 1 && k == TABLE_STEPS + 1 && |roots| < d
    ensures ScanFrom(p, q, d, k, thr, ylo, roots, at) == Exhausted(at)
  {
  }

  // ----- the rounds -----

  /** The coefficients after i rounds of bandwidth expansion. */
  function Expanded(a: seq<int>, d: nat, i: nat): (r: seq<int>)
    requires 1 <= d <= |a|
    ensures |r| == |a|
  {
    if i == 0 then a else Expand(Expanded(a, d, i - 1), d, 65536 - Pow2(i))
  }

  function RoundSum(a: seq<int>, d: nat, i: nat): (p: seq<int>)
    requires 2 <= d <= |a| && d % 2 == 0
    ensures |p| == d / 2 + 1
  {
    SumPoly(Expanded(a, d, i), d / 2)
  }

  function RoundDiff(a: seq<int>, d: nat, i: nat): (q: seq<int>)
    requires 2 <= d <= |a| && d % 2 == 0
    ensures |q| == d / 2 + 1
  {
    DiffPoly(Expanded(a, d, i), d / 2)
  }

  function RoundScan(a: seq<int>, d: nat, i: nat): Scan
    requires 2 <= d <= |a| && d % 2 == 0
  {
    ScanAll(RoundSum(a, d, i), RoundDiff(a, d, i), d)
  }

  /** How the search ends: with roots, with a panic, or with frequencies at equal distances. */
  datatype Search =
    | Found(round: nat, roots: seq<int>, at: seq<nat>)
    | SearchPanicked(round: nat)
    | GaveUp

  function SearchFrom(a: seq<int>, d: nat, i: nat): Search
    requires 2 <= d <= |a| && d % 2 == 0 && i <= MAX_RESTARTS
    decreases MAX_RESTARTS - i
  {
    match RoundScan(a, d, i)
    case AllFound(roots, at) => Found(i, roots, at)
    case ScanPanicked(_, _, _) => SearchPanicked(i)
    case Exhausted(_) => if i == MAX_RESTARTS then GaveUp else SearchFrom(a, d, i + 1)
  }

  function Spread(d: nat): (s: seq<int>)
    ensures |s| == d
  {
    seq(d, i requires 0 <= i < d => (i + 1) * (32768 / (d + 1)))
  }

  /** What the search leaves when it gives up: frequencies at equal distances. */
  method SpreadEvenly(nlsf: array<int>, d: nat)
    requires 2 <= d <= nlsf.Length
    modifies nlsf
    ensures nlsf[..d] == Spread(d) && nlsf[d..] == old(nlsf[d..])
  {
    var gap := 32768 / (d + 1);
    nlsf[0] := gap;
    GapsFit(d, 0);
    for kk := 1 to d
      invariant nlsf[0] == gap && nlsf[d..] == old(nlsf[d..])
      invariant forall i :: 0 <= i < kk ==> nlsf[i] == (i + 1) * gap
    {
      GapsFit(d, kk);
      nlsf[kk] := Wrap32(nlsf[kk - 1] + nlsf[0]);
    }
  }

  lemma GapsFit(d: nat, i: nat)
    requires d >= 2 && i < d
    ensures 0 <= (i + 1) * (32768 / (d + 1)) <= INT16_MAX
    ensures (i + 1) * (32768 / (d + 1)) == i * (32768 / (d + 1)) + 32768 / (d + 1)
  {
    var gap := 32768 / (d + 1);
    assert (d + 1) * gap <= 32768;
    TimesSuccessor(i, gap);
    TimesSuccessor(d, gap);
    TimesMonotone(i + 1, d, gap);
    if gap == 0 {
      assert (i + 1) * gap == 0;
    }
  }

  /** Bandwidth expansion and new polynomials for the next round. */
  method Restart(aQ16: array<int>, p: array<int>, q: array<int>, d: nat, iter: nat, ghost a0: seq<int>)
    requires d >= 2 && d % 2 == 0 && d <= aQ16.Length == |a0| && p.Length == q.Length == d / 2 + 1
    requires p != q && p != aQ16 && q != aQ16
    requires iter >= 1 && aQ16[..] == Expanded(a0, d, iter - 1)
    modifies aQ16, p, q
    ensures aQ16[..] == Expanded(a0, d, iter)
    ensures p[..] == RoundSum(a0, d, iter) && q[..] == RoundDiff(a0, d, iter)
  {
    BwExpander(aQ16, d, 65536 - Pow2(iter));
    InitPolys(aQ16, p, q, d / 2);
  }

  /** The outputs of a search that does not panic. */
  function OutputOf(s: Search, d: nat): seq<int>
    requires !s.SearchPanicked?
  {
    if s.Found? then s.roots else Spread(d)
  }

  /** The rounds of the search, of which there are at most seventeen. */
  method SearchRounds(nlsf: array<int>, aQ16: array<int>, p: array<int>, q: array<int>, d: nat, ghost a0: seq<int>)
    returns (panicked: bool)
    requires d >= 2 && d % 2 == 0 && d <= nlsf.Length && d <= aQ16.Length == |a0| && p.Length == q.Length == d / 2 + 1
    requires nlsf != p && nlsf != q && nlsf != aQ16 && p != q && p != aQ16 && q != aQ16
    requires aQ16[..] == Expanded(a0, d, 0) && p[..] == RoundSum(a0, d, 0) && q[..] == RoundDiff(a0, d, 0)
    modifies nlsf, aQ16, p, q
    ensures nlsf[d..] == old(nlsf[d..])
    ensures panicked == SearchFrom(a0, d, 0).SearchPanicked?
    ensures !panicked ==> nlsf[..d] == OutputOf(SearchFrom(a0, d, 0), d)
    ensures aQ16[..] == Expanded(a0, d, RoundsUsed(SearchFrom(a0, d, 0)))
  {
    hide RoundSum, RoundDiff, Expanded, ScanAll, Spread, CosAt;
    var iter := 0;
    ghost var tail := nlsf[d..];
    while true
      invariant 0 <= iter <= MAX_RESTARTS && nlsf[d..] == tail
      invariant aQ16[..] == Expanded(a0, d, iter)
      invariant p[..] == RoundSum(a0, d, iter) && q[..] == RoundDiff(a0, d, iter)
      invariant SearchFrom(a0, d, iter) == SearchFrom(a0, d, 0)
      decreases MAX_RESTARTS - iter
    {
      ghost var ps, qs, bs := p[..], q[..], aQ16[..];
      assert |ps| == p.Length && |qs| == q.Length;
      var result := ScanTable(nlsf, p, q, d);
      assert p[..] == ps && q[..] == qs && aQ16[..] == bs;
      if result != TableUsedUp {
        return result == Panicking;
      }
      iter := iter + 1;
      if iter > MAX_RESTARTS {
        SpreadEvenly(nlsf, d);
        assert aQ16[..] == bs;
        return false;
      }
      Restart(aQ16, p, q, d, iter, a0);
    }
  }

  function RoundsUsed(s: Search): nat {
    match s
    case Found(round, _, _) => round
    case SearchPanicked(round) => round
    case GaveUp => MAX_RESTARTS
  }
}
