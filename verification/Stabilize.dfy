/**
  Stability of linear prediction filters. A filter of order n is built from n reflection coefficients
  one at a time; the stability test takes them off again. Floating-point values are taken as reals.
 */
module Stabilize {

  const ORDER := 16
  const MAX_RC := 0.9995
  const BWE_STEPS := 1000

  // ----- one step up, one step down -----

  function Den(r: real): real {
    1.0 - r * r
  }

  /** A reflection coefficient the test lets pass. */
  predicate Small(r: real) {
    r * r <= MAX_RC
  }

  /** The filter with one more reflection coefficient. */
  function Up(b: seq<real>, r: real): (s: seq<real>)
    ensures |s| == |b| + 1
  {
    seq(|b|, n requires 0 <= n < |b| => Raised(b[n], b[|b| - 1 - n], r)) + [r]
  }

  function Raised(x: real, y: real, r: real): real {
    x + y * r
  }

  /** The filter without its last reflection coefficient, which is its last entry. */
  function Down(s: seq<real>): (b: seq<real>)
    requires s != [] && Den(s[|s| - 1]) != 0.0
    ensures |b| == |s| - 1
  {
    var m := |s| - 1;
    seq(m, k requires 0 <= k < m => Lowered(s[k], s[m - 1 - k], s[m]))
  }

  function Lowered(x: real, y: real, r: real): real
    requires Den(r) != 0.0
  {
    (x - r * y) * (1.0 / Den(r))
  }

  lemma CancelFactor(x: real, d: real)
    requires d != 0.0
    ensures x * d * (1.0 / d) == x
  {
    assert d * (1.0 / d) == 1.0;
    assert x * d * (1.0 / d) == x * (d * (1.0 / d));
  }

  lemma LoweredRaised(b: real, c: real, r: real)
    requires Den(r) != 0.0
    ensures Lowered(Raised(b, c, r), Raised(c, b, r), r) == b
  {
    var d := Den(r);
    assert r * (c + b * r) == r * c + b * (r * r);
    assert (b + c * r) - r * (c + b * r) == b * d;
    CancelFactor(b, d);
  }

  lemma RaisedLowered(x: real, y: real, r: real)
    requires Den(r) != 0.0
    ensures Raised(Lowered(x, y, r), Lowered(y, x, r), r) == x
  {
    var d := Den(r);
    var inv := 1.0 / d;
    assert ((y - r * x) * inv) * r == ((y - r * x) * r) * inv;
    assert (x - r * y) * inv + ((y - r * x) * r) * inv == ((x - r * y) + (y - r * x) * r) * inv;
    assert (y - r * x) * r == r * y - x * (r * r);
    assert (x - r * y) + (y - r * x) * r == x * d;
    CancelFactor(x, d);
  }

  lemma DownOfUp(b: seq<real>, r: real)
    requires Den(r) != 0.0
    ensures Down(Up(b, r)) == b
  {
    hide Raised, Lowered, Den;
    var s, m := Up(b, r), |b|;
    assert s[m] == r;
    forall k | 0 <= k < m
      ensures Down(s)[k] == b[k]
    {
      assert s[k] == Raised(b[k], b[m - 1 - k], r) && s[m - 1 - k] == Raised(b[m - 1 - k], b[k], r);
      LoweredRaised(b[k], b[m - 1 - k], r);
    }
  }

  lemma UpOfDown(s: seq<real>)
    requires s != [] && Den(s[|s| - 1]) != 0.0
    ensures Up(Down(s), s[|s| - 1]) == s
  {
    hide Raised, Lowered, Den;
    var m := |s| - 1;
    var b := Down(s);
    forall k | 0 <= k < m
      ensures Up(b, s[m])[k] == s[k]
    {
      RaisedLowered(s[k], s[m - 1 - k], s[m]);
    }
  }

  // ----- the test and what it means -----

  /** What the test computes: every last entry on the way down stays within the bound. */
  predicate Stable(s: seq<real>)
    decreases |s|
  {
    s == [] || (Small(s[|s| - 1]) && (SmallIsNotOne(s[|s| - 1]); Stable(Down(s))))
  }

  /** The filter of a list of reflection coefficients. */
  function Filter(rc: seq<real>): (s: seq<real>)
    ensures |s| == |rc|
  {
    if rc == [] then [] else Up(Filter(rc[..|rc| - 1]), rc[|rc| - 1])
  }

  predicate Bounded(rc: seq<real>) {
    forall i :: 0 <= i < |rc| ==> Small(rc[i])
  }

  /** The test accepts the filter of a list of reflection coefficients exactly if all are within the bound. */
  lemma {:induction false} StableIffBounded(rc: seq<real>)
    ensures Stable(Filter(rc)) <==> Bounded(rc)
  {
    hide Small, Den, Up, Down;
    if rc != [] {
      var n := |rc| - 1;
      var init, r := rc[..n], rc[n];
      StableIffBounded(init);
      UpEnds(Filter(init), r);
      if Small(r) {
        SmallIsNotOne(r);
        DownOfUp(Filter(init), r);
      }
      assert Bounded(rc) <==> Bounded(init) && Small(r);
    }
  }

  lemma UpEnds(b: seq<real>, r: real)
    ensures Up(b, r)[|b|] == r
  {
  }

  lemma SmallIsNotOne(r: real)
    requires Small(r)
    ensures Den(r) != 0.0
  {
  }

  /** The reflection coefficients of an accepted filter. */
  function Reflections(s: seq<real>): (rc: seq<real>)
    requires Stable(s)
    ensures |rc| == |s|
    decreases |s|
  {
    if s == [] then []
    else
      SmallIsNotOne(s[|s| - 1]);
      Reflections(Down(s)) + [s[|s| - 1]]
  }

  /** Nothing else is accepted: every accepted filter is built from reflection coefficients within the bound. */
  lemma {:induction false} StableIsFilter(s: seq<real>)
    requires Stable(s)
    ensures Filter(Reflections(s)) == s && Bounded(Reflections(s))
    decreases |s|
  {
    if s != [] {
      SmallIsNotOne(s[|s| - 1]);
      var rc := Reflections(s);
      StableIsFilter(Down(s));
      assert rc[..|rc| - 1] == Reflections(Down(s));
      UpOfDown(s);
    }
  }

  // ----- the programs -----

  /** One half of the loop body: the lower-order filter goes to the other buffer. */
  method StepDown(src: array<real>, dst: array<real>, m: nat)
    requires src != dst && src.Length == dst.Length == ORDER && m < ORDER
    requires Den(src[m]) != 0.0
    modifies dst
    ensures src[..m + 1][m] == src[m] && dst[..m] == Down(src[..m + 1])
  {
    ghost var s := src[..m + 1];
    assert s[m] == src[m];
    hide Lowered, Den;
    for k := 0 to m
      invariant src[..m + 1] == s
      invariant forall j :: 0 <= j < k ==> dst[j] == Down(s)[j]
    {
      assert Down(s)[k] == Lowered(s[k], s[m - 1 - k], s[m]);
      dst[k] := Lowered(src[k], src[m - k - 1], src[m]);
    }
  }

  method LpcIsStable(a: array<real>) returns (stable: bool)
    requires a.Length == ORDER + 1
    ensures stable <==> Stable(a[1..])
  {
    ghost var s := a[1..];
    if a[ORDER] * a[ORDER] > MAX_RC {
      return false;
    }
    var a0, a1 := new real[ORDER], new real[ORDER];
    for i := 0 to ORDER
      invariant forall j :: 0 <= j < i ==> a0[j] == a[j + 1]
      invariant a[1..] == s
    {
      a0[i] := a[i + 1];
    }
    assert a0[..ORDER] == s && a0[ORDER - 1] == a[ORDER];
    hide Stable, Down;
    var m := ORDER - 1;
    while true
      invariant m % 2 == 1 && 1 <= m < ORDER
      invariant Small(a0[m]) && (Stable(a0[..m + 1]) <==> Stable(s))
      decreases m
    {
      var settled := Half(a0, a1, m, s);
      if settled != Undecided {
        return settled == Passed;
      }
      m := m - 1;
      settled := Half(a1, a0, m, s);
      if settled != Undecided {
        return settled == Passed;
      }
      m := m - 1;
    }
  }

  datatype Verdict = Passed | Failed | Undecided

  /** One half of the loop body, from the one buffer to the other. */
  method Half(src: array<real>, dst: array<real>, m: nat, ghost s: seq<real>) returns (verdict: Verdict)
    requires src != dst && src.Length == dst.Length == ORDER && 1 <= m < ORDER
    requires Small(src[m]) && (Stable(src[..m + 1]) <==> Stable(s))
    modifies dst
    ensures verdict == Passed ==> Stable(s)
    ensures verdict == Failed ==> !Stable(s)
    ensures verdict == Undecided ==> m > 1 && Small(dst[m - 1]) && (Stable(dst[..m]) <==> Stable(s))
  {
    hide Stable, Down;
    SmallIsNotOne(src[m]);
    var den := 1.0 - src[m] * src[m];
    if den == 0.0 {
      return Failed;
    }
    StepDown(src, dst, m);
    OneDown(src[..m + 1], dst[..m]);
    assert dst[..m][m - 1] == dst[m - 1];
    if dst[m - 1] * dst[m - 1] > MAX_RC {
      return Failed;
    }
    if m == 1 {
      LastIsEnough(dst[..1]);
      return Passed;
    }
    return Undecided;
  }

  lemma OneDown(s: seq<real>, b: seq<real>)
    requires |s| >= 2 && Small(s[|s| - 1])
    requires Den(s[|s| - 1]) != 0.0 && b == Down(s)
    ensures Stable(s) <==> Stable(b)
    ensures !Small(b[|b| - 1]) ==> !Stable(s)
  {
    hide Small, Den, Down;
  }

  lemma LastIsEnough(s: seq<real>)
    requires |s| == 1
    ensures Stable(s) <==> Small(s[0])
  {
    if Small(s[0]) {
      SmallIsNotOne(s[0]);
      assert Down(s) == [];
    }
  }

  /** In-place construction of the filter: coefficient pairs are updated from both ends at once. */
  method Rc2A(rc: seq<real>, a: array<real>)
    requires |rc| == ORDER && a.Length == ORDER + 1
    modifies a
    ensures a[0] == 1.0 && a[1..] == Filter(rc)
  {
    for i := 1 to ORDER + 1 {
      a[i] := 0.0;
    }
    a[0] := 1.0;
    for k := 0 to ORDER
      invariant a[0] == 1.0 && a[1..k + 1] == Filter(rc[..k])
    {
      assert rc[..k + 1][..k] == rc[..k];
      RaiseInPlace(a, k, rc[k]);
      a[k + 1] := rc[k];
      assert a[1..k + 2] == a[1..k + 1] + [rc[k]];
    }
    assert rc[..ORDER] == rc;
  }

  /** n pairs from both ends have been raised. */
  ghost predicate PairsRaised(f: seq<real>, b: seq<real>, r: real, n: nat) {
    && |f| == |b|
    && (forall j {:trigger f[j]} :: 0 <= j < |f| && (j < n || |f| - n <= j) ==> f[j] == Raised(b[j], b[|f| - 1 - j], r))
    && (forall j {:trigger f[j]} :: n <= j < |f| - n ==> f[j] == b[j])
  }

  lemma RaisePair(f: seq<real>, b: seq<real>, r: real, n: nat)
    requires PairsRaised(f, b, r, n) && n < (|b| + 1) / 2
    ensures var m := |b| - 1 - n;
            && f[n] == b[n] && f[m] == b[m]
            && PairsRaised(f[n := Raised(b[n], b[m], r)][m := Raised(b[m], b[n], r)], b, r, n + 1)
  {
    hide Raised;
  }

  lemma AllPairsRaised(f: seq<real>, b: seq<real>, r: real)
    requires PairsRaised(f, b, r, (|b| + 1) / 2)
    ensures f == Up(b, r)[..|b|]
  {
    hide Raised;
  }

  /** Two stores into the filter part of the buffer, the second winning where they meet. */
  method StorePair(a: array<real>, k: nat, i: nat, j: nat, x: real, y: real)
    requires i < k && j < k && k < a.Length
    modifies a
    ensures a[0] == old(a[0]) && a[1..k + 1] == old(a[1..k + 1])[i := x][j := y]
  {
    a[i + 1] := x;
    a[j + 1] := y;
  }

  /** The inner loop: coefficient pairs are updated from both ends at once. */
  method RaiseInPlace(a: array<real>, k: nat, r: real)
    requires k < ORDER && a.Length == ORDER + 1
    modifies a
    ensures a[0] == old(a[0]) && a[1..k + 1] == Up(old(a[1..k + 1]), r)[..k]
  {
    ghost var b := a[1..k + 1];
    assert PairsRaised(b, b, r, 0);
    hide PairsRaised, Raised, Up;
    for n := 0 to (k + 1) / 2
      invariant a[0] == old(a[0]) && PairsRaised(a[1..k + 1], b, r, n)
    {
      ghost var f := a[1..k + 1];
      RaisePair(f, b, r, n);
      var tmp1, tmp2 := a[n + 1], a[k - n];
      assert tmp1 == f[n] && tmp2 == f[k - 1 - n];
      StorePair(a, k, n, k - 1 - n, Raised(tmp1, tmp2, r), Raised(tmp2, tmp1, r));
    }
    AllPairsRaised(a[1..k + 1], b, r);
  }

  // ----- bandwidth expansion until stable -----

  function Power(g: real, k: nat): real {
    if k == 0 then 1.0 else Power(g, k - 1) * g
  }

  function Scaled(x: real, c: real): real {
    x * c
  }

  /** Coefficient i times the i-th power of g, counting from 1. */
  function Expanded(s: seq<real>, g: real): (t: seq<real>)
    ensures |t| == |s|
  {
    seq(|s|, i requires 0 <= i < |s| => Scaled(s[i], Power(g, i + 1)))
  }

  lemma FirstPower(g: real)
    ensures Power(g, 1) == g
  {
    assert Power(g, 0) == 1.0;
  }

  lemma NextPower(g: real, k: nat)
    ensures Power(g, k + 1) == Scaled(Power(g, k), g)
  {
  }

  method BweExpand(a: array<real>, bwe: real)
    requires a.Length == ORDER + 1
    modifies a
    ensures a[0] == old(a[0]) && a[1..] == Expanded(old(a[1..]), bwe)
  {
    hide Scaled, Power;
    ghost var s := a[1..];
    assert forall j :: 0 <= j < ORDER ==> s[j] == a[j + 1];
    var c := bwe;
    FirstPower(bwe);
    for i := 1 to ORDER + 1
      invariant c == Power(bwe, i) && a[0] == old(a[0])
      invariant forall j :: 0 <= j < ORDER ==> a[j + 1] == if j + 1 < i then Expanded(s, bwe)[j] else s[j]
    {
      NextPower(bwe, i);
      a[i] := Scaled(a[i], c);
      c := Scaled(c, bwe);
    }
  }

  /** The factor of round i. */
  function Factor(i: nat): real {
    1.0 - i as real * 0.001
  }

  /** The coefficients after i rounds. */
  function AfterRounds(s: seq<real>, i: nat): (t: seq<real>)
    ensures |t| == |s|
  {
    if i == 0 then s else Expanded(AfterRounds(s, i - 1), Factor(i))
  }

  lemma {:induction false} ZerosAreStable(s: seq<real>)
    requires forall i :: 0 <= i < |s| ==> s[i] == 0.0
    ensures Stable(s)
    decreases |s|
  {
    if s != [] {
      assert forall k :: 0 <= k < |s| - 1 ==> Down(s)[k] == 0.0;
      ZerosAreStable(Down(s));
    }
  }

  /** The thousandth factor is zero and leaves nothing but the leading one. */
  lemma LastRoundIsStable(s: seq<real>)
    ensures Stable(AfterRounds(s, BWE_STEPS))
  {
    var t := AfterRounds(s, BWE_STEPS);
    assert Factor(BWE_STEPS) == 0.0;
    forall i | 0 <= i < |t|
      ensures t[i] == 0.0
    {
      assert Power(0.0, i + 1) == Power(0.0, i) * 0.0;
    }
    ZerosAreStable(t);
  }

  /**
    The loop has no bound of its own, yet it ends after at most a thousand rounds, with the first
    expansion that is stable; a filter that is stable already stays as it is.
   */
  method LpcStabilize(a: array<real>) returns (ghost rounds: nat)
    requires a.Length == ORDER + 1
    modifies a
    ensures rounds <= BWE_STEPS && a[0] == old(a[0])
    ensures a[1..] == AfterRounds(old(a[1..]), rounds) && Stable(a[1..])
    ensures forall i :: 0 <= i < rounds ==> !Stable(AfterRounds(old(a[1..]), i))
  {
    ghost var s := a[1..];
    LastRoundIsStable(s);
    rounds := 0;
    var stable := LpcIsStable(a);
    if stable {
      return;
    }
    var iter := 0;
    while true
      invariant 0 <= iter < BWE_STEPS && rounds == iter
      invariant a[0] == old(a[0]) && a[1..] == AfterRounds(s, iter)
      invariant forall i :: 0 <= i <= iter ==> !Stable(AfterRounds(s, i))
      decreases BWE_STEPS - iter
    {
      iter := iter + 1;
      rounds := iter;
      BweExpand(a, 1.0 - iter as real * 0.001);
      stable := LpcIsStable(a);
      if stable {
        return;
      }
    }
  }
}
