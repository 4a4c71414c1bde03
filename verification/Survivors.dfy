/** How the codebook search divides its survivors over the pulses it places. */
module Survivors {
  import opened Arith
  import opened Fixed

  const FCB_SRV_MAX := 4

  /** More pulses than any buffer of a frame has room for; below it only the first difference can leave 32 bits. */
  const MANY_PULSES := 0x2000_0000

  function Repeat(x: int, n: nat): (s: seq<int>)
    ensures |s| == n && forall i :: 0 <= i < n ==> s[i] == x
  {
    seq(n, i => x)
  }

  /** Every pulse but the last gets `each`, the last `more` of those one extra, and the last pulse one survivor. */
  function Spread(maxPulses: nat, each: int, more: nat): (s: seq<int>)
    requires maxPulses >= 2 && more < maxPulses
    ensures |s| == maxPulses
  {
    Repeat(each, maxPulses - 1 - more) + Repeat(each + 1, more) + [1]
  }

  /** What the search needs: one to four survivors a pulse, as even as possible, the late pulses favoured. */
  ghost predicate Distributed(s: seq<int>, maxPulses: int, totSurv: int)
    requires |s| == maxPulses >= 2
  {
    && (forall i :: 0 <= i < |s| ==> 1 <= s[i] <= FCB_SRV_MAX)
    && SumOf(s) == Max(maxPulses, Min(totSurv, FCB_SRV_MAX * (maxPulses - 1) + 1))
    && (forall i, j :: 0 <= i <= j < maxPulses - 1 ==> s[i] <= s[j] <= s[i] + 1)
    && s[maxPulses - 1] == 1
  }

  // ----- sums -----

  lemma {:induction false} SumAppend(a: seq<int>, b: seq<int>)
    ensures SumOf(a + b) == SumOf(a) + SumOf(b)
  {
    if b == [] {
      assert a + b == a;
    } else {
      SumAppend(a, b[..|b| - 1]);
      assert (a + b)[..|a + b| - 1] == a + b[..|b| - 1];
    }
  }

  lemma {:induction false} SumRepeat(x: int, n: nat)
    ensures SumOf(Repeat(x, n)) == x * n
  {
    if n > 0 {
      SumRepeat(x, n - 1);
      assert Repeat(x, n)[..n - 1] == Repeat(x, n - 1);
    }
  }

  lemma SpreadSum(maxPulses: nat, each: int, more: nat)
    requires maxPulses >= 2 && more < maxPulses
    ensures SumOf(Spread(maxPulses, each, more)) == each * (maxPulses - 1) + more + 1
  {
    var a, b := Repeat(each, maxPulses - 1 - more), Repeat(each + 1, more);
    SumAppend(a + b, [1]);
    SumAppend(a, b);
    SumRepeat(each, maxPulses - 1 - more);
    SumRepeat(each + 1, more);
    assert SumOf([1]) == SumOf([]) + 1;
    TimesDistributes(maxPulses - 1 - more, more, each);
    TimesDistributes(each, 1, more);
  }

  // ----- the two amounts -----

  /** The survivors beyond one a pulse that every pulse but the last receives. */
  function Extra(maxPulses: int, totSurv: int): int
    requires maxPulses >= 2
  {
    Min(TruncDiv(Wrap32(totSurv - maxPulses), maxPulses - 1), FCB_SRV_MAX - 1)
  }

  /** What is then left over, to be handed out from the back. */
  function Left(maxPulses: int, totSurv: int): int
    requires maxPulses >= 2
  {
    totSurv - (maxPulses + Extra(maxPulses, totSurv) * (maxPulses - 1))
  }

  lemma QuotientBounds(y: int, d: int)
    requires y >= 0 && d >= 1
    ensures y / d >= 0 && y / d * d <= y < y / d * d + d
  {
    assert y == d * (y / d) + y % d;
  }

  lemma ProductsNear(p: int, d: int)
    ensures (p + 1) * d == p * d + d && -p * d == -(p * d) && (-p - 1) * d == -(p * d) - d
  {
  }

  lemma TruncDivBounds(x: int, d: int)
    requires d >= 1
    ensures var q := TruncDiv(x, d);
            if x >= 0 then q >= 0 && q * d <= x < (q + 1) * d else q <= 0 && (q - 1) * d < x <= q * d
  {
    var y := if x >= 0 then x else -x;
    QuotientBounds(y, d);
    ProductsNear(y / d, d);
  }

  lemma WrapsOnce(x: int)
    requires -TWO31 - MANY_PULSES <= x < TWO31
    ensures Wrap32(x) == if x < -TWO31 then x + TWO32 else x
  {
  }

  /** Comparing a quotient with a number by comparing their multiples. */
  lemma MultiplesBelow(q: int, n: int, d: int)
    requires d >= 1 && q * d < n * d
    ensures q < n
  {
    if n <= q {
      TimesMonotone(n, q, d);
    }
  }

  lemma AmountsWhenEnough(maxPulses: int, totSurv: int)
    requires 2 <= maxPulses <= MANY_PULSES && 2 <= totSurv < TWO31
    ensures 0 <= Extra(maxPulses, totSurv) <= FCB_SRV_MAX - 1
    ensures Extra(maxPulses, totSurv) < FCB_SRV_MAX - 1 ==> Left(maxPulses, totSurv) < maxPulses - 1
    ensures Left(maxPulses, totSurv) < 0 ==> totSurv < maxPulses && Extra(maxPulses, totSurv) == 0
  {
    hide TruncDiv, Wrap32;
    var x, d := totSurv - maxPulses, maxPulses - 1;
    WrapsOnce(x);
    TruncDivBounds(x, d);
    var q := TruncDiv(x, d);
    if x >= 0 {
      TimesMonotone(Min(q, FCB_SRV_MAX - 1), q, d);
      TimesSuccessor(q, d);
    } else {
      MultiplesBelow(-1, q, d);
    }
  }

  /** With fewer than two nothing is left over, whether the difference wraps or not. */
  lemma AmountsWhenFew(maxPulses: int, totSurv: int)
    requires 2 <= maxPulses <= MANY_PULSES && -TWO31 <= totSurv <= 1
    ensures Left(maxPulses, totSurv) <= 0
  {
    hide TruncDiv, Wrap32;
    var x, d := totSurv - maxPulses, maxPulses - 1;
    WrapsOnce(x);
    var w := Wrap32(x);
    TruncDivBounds(w, d);
    var q := TruncDiv(w, d);
    if x >= -TWO31 {
      MultiplesBelow(q - 1, -1, d);
    } else {
      MultiplesBelow(FCB_SRV_MAX - 1, q + 1, d);
    }
  }

  // ----- the loops -----

  method OneEach(numsurv: array<int>, maxPulses: nat)
    requires maxPulses <= numsurv.Length
    modifies numsurv
    ensures numsurv[..maxPulses] == Repeat(1, maxPulses)
    ensures numsurv[maxPulses..] == old(numsurv[maxPulses..])
  {
    for i := 0 to maxPulses
      invariant forall k :: 0 <= k < i ==> numsurv[k] == 1
      invariant numsurv[maxPulses..] == old(numsurv[maxPulses..])
    {
      numsurv[i] := 1;
    }
  }

  method AddExtra(numsurv: array<int>, maxPulses: nat, extra: int)
    requires 2 <= maxPulses <= numsurv.Length && numsurv[..maxPulses] == Repeat(1, maxPulses)
    modifies numsurv
    ensures numsurv[..maxPulses] == Spread(maxPulses, Wrap16(1 + extra), 0)
    ensures numsurv[maxPulses..] == old(numsurv[maxPulses..])
  {
    assert forall k :: 0 <= k < maxPulses ==> numsurv[k] == numsurv[..maxPulses][k];
    for i := 0 to maxPulses - 1
      invariant forall k :: 0 <= k < maxPulses ==> numsurv[k] == if k < i then Wrap16(1 + extra) else 1
      invariant numsurv[maxPulses..] == old(numsurv[maxPulses..])
    {
      numsurv[i] := Wrap16(numsurv[i] + Wrap16(extra));
    }
  }

  /** The last loop, from the back: one more for each pulse with room, until the total is reached. */
  method HandOut(numsurv: array<int>, maxPulses: nat, totSurv: int, sumSurv0: int, ghost each: int)
    requires 2 <= maxPulses <= numsurv.Length && numsurv[..maxPulses] == Spread(maxPulses, each, 0)
    requires totSurv > sumSurv0 ==> each <= FCB_SRV_MAX
    requires each < FCB_SRV_MAX ==> totSurv - sumSurv0 < maxPulses - 1
    modifies numsurv
    ensures var left := totSurv - sumSurv0;
            numsurv[..maxPulses] == Spread(maxPulses, each, if each >= FCB_SRV_MAX || left < 0 then 0 else left)
    ensures numsurv[maxPulses..] == old(numsurv[maxPulses..])
  {
    assert forall k :: 0 <= k < maxPulses ==> numsurv[k] == numsurv[..maxPulses][k];
    var sumSurv := sumSurv0;
    var ix := maxPulses - 2;
    while sumSurv < totSurv
      invariant 0 <= ix <= maxPulses - 2
      invariant each >= FCB_SRV_MAX ==> sumSurv == sumSurv0
      invariant each < FCB_SRV_MAX ==> sumSurv == sumSurv0 + (maxPulses - 2 - ix)
      invariant each < FCB_SRV_MAX && sumSurv > sumSurv0 ==> sumSurv <= totSurv
      invariant forall k :: 0 <= k < maxPulses - 1 ==>
          numsurv[k] == if k > ix && each < FCB_SRV_MAX then each + 1 else each
      invariant numsurv[maxPulses - 1] == 1
      invariant numsurv[maxPulses..] == old(numsurv[maxPulses..])
      decreases ix
    {
      if numsurv[ix] < FCB_SRV_MAX {
        numsurv[ix] := numsurv[ix] + 1;
        sumSurv := sumSurv + 1;
      }
      ix := ix - 1;
      if ix < 0 {
        break;
      }
    }
  }

  /**
    The distribution is right for two survivors or more. For fewer it is right only when the amount that
    is taken from every pulse is a multiple of 65536, which the 16-bit entries do not see.
   */
  method DistributeFcbSurv(numsurv: array<int>, maxPulses: int, totSurv: int)
    requires 1 <= numsurv.Length && maxPulses <= numsurv.Length && maxPulses <= MANY_PULSES && IsInt32(totSurv)
    modifies numsurv
    ensures maxPulses <= 1 ==> numsurv[..] == old(numsurv[..])[0 := 1]
    ensures maxPulses >= 2 ==> numsurv[maxPulses..] == old(numsurv[maxPulses..])
    ensures maxPulses >= 2 ==>
              (Distributed(numsurv[..maxPulses], maxPulses, totSurv) <==>
                totSurv >= 2 || Extra(maxPulses, totSurv) % 65536 == 0)
    ensures maxPulses >= 2 && totSurv < 2 ==>
              numsurv[..maxPulses] == Spread(maxPulses, Wrap16(1 + Extra(maxPulses, totSurv)), 0)
  {
    hide TruncDiv, Distributed, Spread, Wrap16, Wrap32;
    if maxPulses <= 1 {
      numsurv[0] := 1;
      return;
    }
    OneEach(numsurv, maxPulses);
    var extraSurv := Wrap32(totSurv - maxPulses);
    var extra := TruncDiv(extraSurv, maxPulses - 1);
    if extra > FCB_SRV_MAX - 1 {
      extra := FCB_SRV_MAX - 1;
    }
    if totSurv >= 2 {
      AmountsWhenEnough(maxPulses, totSurv);
    } else {
      AmountsWhenFew(maxPulses, totSurv);
    }
    AddExtra(numsurv, maxPulses, extra);
    var sumSurv := maxPulses + extra * (maxPulses - 1);
    HandOut(numsurv, maxPulses, totSurv, sumSurv, Wrap16(1 + extra));
    if totSurv >= 2 {
      EnoughIsDistributed(maxPulses, totSurv);
    } else {
      FewIsSeldom(maxPulses, extra, totSurv);
    }
  }

  lemma FewIsSeldom(maxPulses: int, extra: int, totSurv: int)
    requires maxPulses >= 2 && totSurv <= 1
    ensures Distributed(Spread(maxPulses, Wrap16(1 + extra), 0), maxPulses, totSurv) <==> extra % 65536 == 0
  {
    hide SumOf, Spread;
    var each := Wrap16(1 + extra);
    assert each == 1 <==> extra % 65536 == 0;
    SpreadSum(maxPulses, each, 0);
    if each == 1 {
      SpreadIsDistributed(maxPulses, 1, 0, totSurv);
    } else if each > 1 {
      TimesMonotone(2, each, maxPulses - 1);
    } else {
      TimesMonotone(each, 0, maxPulses - 1);
    }
  }

  lemma SpreadIsDistributed(maxPulses: nat, each: int, more: nat, totSurv: int)
    requires maxPulses >= 2 && more < maxPulses
    requires 1 <= each && each + Min(more, 1) <= FCB_SRV_MAX
    requires each * (maxPulses - 1) + more + 1 == Max(maxPulses, Min(totSurv, FCB_SRV_MAX * (maxPulses - 1) + 1))
    ensures Distributed(Spread(maxPulses, each, more), maxPulses, totSurv)
  {
    hide SumOf;
    SpreadSum(maxPulses, each, more);
  }

  lemma EnoughIsDistributed(maxPulses: int, totSurv: int)
    requires 2 <= maxPulses <= MANY_PULSES && 2 <= totSurv < TWO31
    ensures var e, left := Extra(maxPulses, totSurv), Left(maxPulses, totSurv);
            var more := if 1 + e == FCB_SRV_MAX || left < 0 then 0 else left;
            0 <= more < maxPulses && Distributed(Spread(maxPulses, 1 + e, more), maxPulses, totSurv)
  {
    hide TruncDiv, Distributed, Spread;
    AmountsWhenEnough(maxPulses, totSurv);
    var e, left, d := Extra(maxPulses, totSurv), Left(maxPulses, totSurv), maxPulses - 1;
    var more := if 1 + e == FCB_SRV_MAX || left < 0 then 0 else left;
    assert (1 + e) * d == d + e * d by {
      TimesDistributes(1, e, d);
    }
    if e == FCB_SRV_MAX - 1 {
      CapReached(maxPulses, totSurv);
    } else if left >= 0 {
      assert totSurv == maxPulses + e * d + left;
      TimesMonotone(e, FCB_SRV_MAX - 2, d);
      TimesMonotone(0, e, d);
    }
    SpreadIsDistributed(maxPulses, 1 + e, more, totSurv);
  }

  lemma CapReached(maxPulses: int, totSurv: int)
    requires 2 <= maxPulses <= MANY_PULSES && 2 <= totSurv < TWO31 && Extra(maxPulses, totSurv) == FCB_SRV_MAX - 1
    ensures totSurv >= FCB_SRV_MAX * (maxPulses - 1) + 1
  {
    hide TruncDiv, Wrap32;
    var x, d := totSurv - maxPulses, maxPulses - 1;
    WrapsOnce(x);
    TruncDivBounds(x, d);
    TimesMonotone(FCB_SRV_MAX - 1, TruncDiv(x, d), d);
  }
}
