/**
  Which polynomials the root search works on. With A(z) = 65536 z^d - a[0] z^(d-1) - ... - a[d-1] they are
  z A(z) plus or minus A(z) read backwards, with the root at z = -1 or z = 1 divided out, written in powers
  of z + 1/z. All statements are about coefficients, modulo 32-bit wrap-around.
 */
module RootPolys {
  import opened Arith
  import opened Fixed
  import opened A2Nlsf
  import opened TransPolyMeaning

  /** Coefficient j of A(z), from the highest power down. */
  function Whitening(a: seq<int>, d: nat, j: int): int
    requires d <= |a|
  {
    if j == 0 then 65536 else if 1 <= j <= d then -a[j - 1] else 0
  }

  function Sign(sum: bool): int {
    if sum then 1 else -1
  }

  /** Coefficient j, from z^(d + 1) down, of z A(z) plus or minus A(z) read backwards. */
  function Undivided(a: seq<int>, d: nat, sum: bool, j: int): int
    requires d <= |a|
  {
    Whitening(a, d, j) + Sign(sum) * Whitening(a, d, d + 1 - j)
  }

  /** The coefficient at z^e of a polynomial in z + 1/z. */
  function LaurentAt(q: seq<int>, e: int): int {
    Dot(q, PowersOf(CoefficientAt(e)))
  }

  /** The coefficient at z^e of g[0] + g[1] (z + 1/z) + g[2] (z^2 + 1/z^2) + ... */
  function HalfAt(g: seq<int>, e: int): int {
    if -|g| < e < |g| then g[if e < 0 then -e else e] else 0
  }

  lemma CongruentSum(a: int, b: int, c: int, d: int, s: int)
    requires Congruent(a, b) && Congruent(c, d) && (s == 1 || s == -1)
    ensures Congruent(a + s * c, b + s * d)
  {
  }

  lemma SeriesMember(m: nat, e: int)
    ensures Series(CoefficientAt(e))(m) == if e == m || e + m == 0 then 1 else 0
  {
    assert Laurent(0, e) == if e == 0 then 1 else 0;
    if m > 0 {
      assert Mixed(CoefficientAt(e), 0, m) == Laurent(0, e - m) + Laurent(0, e + m);
      assert Laurent(0, e - m) == if e == m then 1 else 0;
      assert Laurent(0, e + m) == if e + m == 0 then 1 else 0;
      assert Series(CoefficientAt(e))(m) == Mixed(CoefficientAt(e), 0, m);
    } else {
      assert Series(CoefficientAt(e))(m) == PowerOf(CoefficientAt(e), 0);
    }
  }

  lemma {:induction false} SeriesIsHalf(g: seq<int>, e: int)
    ensures Dot(g, Series(CoefficientAt(e))) == HalfAt(g, e)
  {
    if g != [] {
      var m := |g| - 1;
      SeriesIsHalf(g[..m], e);
      SeriesMember(m, e);
    }
  }

  lemma TransPolyIsHalf(g: seq<int>, e: int)
    requires |g| >= 2
    ensures Congruent(LaurentAt(TransFrom(g, 2), e), HalfAt(g, e))
  {
    TransPolyKeeps(g, CoefficientAt(e));
    SeriesIsHalf(g, e);
  }

  /** Each deflated coefficient answers for the one above it. */
  lemma {:induction false} DeflatedFrom(p: seq<int>, k: nat, sum: bool, i: nat)
    requires i < |p| && k < |p|
    ensures var g := Deflate(p, k, sum);
            if i >= k then g[i] == p[i] else g[i] == Wrap32(if sum then p[i] - g[i + 1] else p[i] + g[i + 1])
    decreases k
  {
    if k > 0 {
      var q := p[k - 1 := Wrap32(if sum then p[k - 1] - p[k] else p[k - 1] + p[k])];
      DeflatedFrom(q, k - 1, sum, i);
      if i == k - 1 {
        DeflatedFrom(q, k - 1, sum, k);
      }
    }
  }

  function Deflated(a: seq<int>, dd: nat, sum: bool): (g: seq<int>)
    requires 1 <= dd && 2 * dd <= |a|
    ensures |g| == dd + 1
  {
    Deflate(Folded(a, dd, sum), dd, sum)
  }

  lemma WrapIsCongruent(x: int)
    ensures Congruent(Wrap32(x), x)
  {
    var c := WrapCongruent(x);
    assert (Wrap32(x) - x) == c * TWO32;
  }

  /** The fold is the upper half of the undivided polynomial. */
  lemma FoldedIsUpperHalf(a: seq<int>, dd: nat, sum: bool, i: nat)
    requires 1 <= dd && 2 * dd <= |a| && i < dd
    ensures Folded(a, dd, sum)[i] == Wrap32(Undivided(a, 2 * dd, sum, dd - i))
  {
    hide Wrap32;
  }

  /** The upper half of the product of the deflated polynomial with its known factor. */
  lemma UpperProduct(a: seq<int>, dd: nat, sum: bool, i: nat)
    requires 1 <= dd && 2 * dd <= |a| && i < dd
    ensures var g := Deflated(a, dd, sum);
            Congruent(g[i] + Sign(sum) * g[i + 1], Undivided(a, 2 * dd, sum, dd - i))
  {
    hide Deflate, Undivided, Wrap32, Folded;
    var g, f := Deflated(a, dd, sum), Folded(a, dd, sum);
    DeflatedFrom(f, dd, sum, i);
    var whole := if sum then f[i] - g[i + 1] else f[i] + g[i + 1];
    WrapIsCongruent(whole);
    WrapIsCongruent(Undivided(a, 2 * dd, sum, dd - i));
    FoldedIsUpperHalf(a, dd, sum, i);
  }

  lemma UndividedMirrors(a: seq<int>, d: nat, sum: bool, j: int)
    requires d <= |a|
    ensures Undivided(a, d, sum, d + 1 - j) == Sign(sum) * Undivided(a, d, sum, j)
  {
  }

  lemma LeadingStays(a: seq<int>, dd: nat, sum: bool)
    requires 1 <= dd && 2 * dd <= |a|
    ensures Deflated(a, dd, sum)[dd] == 65536
  {
    DeflatedFrom(Folded(a, dd, sum), dd, sum, dd);
  }

  /** Deflating and then multiplying by z + 1 or z - 1 gives the polynomial back, at every coefficient. */
  lemma DeflatedTimesFactor(a: seq<int>, dd: nat, sum: bool, j: int)
    requires 1 <= dd && 2 * dd <= |a|
    ensures var g := Deflated(a, dd, sum);
            Congruent(HalfAt(g, dd - j) + Sign(sum) * HalfAt(g, dd - j + 1), Undivided(a, 2 * dd, sum, j))
  {
    hide Deflated, Congruent;
    var g := Deflated(a, dd, sum);
    LeadingStays(a, dd, sum);
    UndividedMirrors(a, 2 * dd, sum, j);
    if 1 <= j <= dd {
      UpperProduct(a, dd, sum, dd - j);
    } else if dd < j <= 2 * dd {
      UpperProduct(a, dd, sum, j - dd - 1);
      MirroredProduct(g[j - dd - 1], g[j - dd], Sign(sum), Undivided(a, 2 * dd, sum, 2 * dd + 1 - j));
    } else {
      CongruentItself(Undivided(a, 2 * dd, sum, j));
    }
  }

  lemma CongruentItself(x: int)
    ensures Congruent(x, x)
  {
  }

  lemma MirroredProduct(low: int, high: int, s: int, c: int)
    requires (s == 1 || s == -1) && Congruent(low + s * high, c)
    ensures Congruent(high + s * low, s * c)
  {
  }

  function PolyOf(a: seq<int>, dd: nat, sum: bool): (q: seq<int>)
    requires 1 <= dd && 2 * dd <= |a|
  {
    if sum then SumPoly(a, dd) else DiffPoly(a, dd)
  }

  /**
    z^dd times the sum polynomial at z + 1/z, times z + 1, is z A(z) plus A(z) read backwards; for the
    difference polynomial it is z - 1 and minus. Coefficient j of both sides, from the highest power down.
   */
  lemma PolyIsQuotient(a: seq<int>, dd: nat, sum: bool, j: int)
    requires 1 <= dd && 2 * dd <= |a|
    ensures var q := PolyOf(a, dd, sum);
            Congruent(LaurentAt(q, dd - j) + Sign(sum) * LaurentAt(q, dd - j + 1), Undivided(a, 2 * dd, sum, j))
  {
    hide TransFrom, LaurentAt, HalfAt, Congruent, Undivided;
    var g, q := Deflated(a, dd, sum), PolyOf(a, dd, sum);
    assert q == TransFrom(g, 2);
    TransPolyIsHalf(g, dd - j);
    TransPolyIsHalf(g, dd - j + 1);
    CongruentSum(LaurentAt(q, dd - j), HalfAt(g, dd - j), LaurentAt(q, dd - j + 1), HalfAt(g, dd - j + 1), Sign(sum));
    DeflatedTimesFactor(a, dd, sum, j);
    CongruentTransitive(LaurentAt(q, dd - j) + Sign(sum) * LaurentAt(q, dd - j + 1),
                        HalfAt(g, dd - j) + Sign(sum) * HalfAt(g, dd - j + 1), Undivided(a, 2 * dd, sum, j));
  }

  // ----- and no other polynomials -----

  lemma {:induction false} LaurentEnds(m: nat, e: int)
    ensures e > m ==> Laurent(m, e) == 0
    ensures Laurent(m, m) == 1
  {
    if m > 0 {
      LaurentEnds(m - 1, e - 1);
      LaurentEnds(m - 1, e + 1);
      LaurentEnds(m - 1, m + 1);
    }
  }

  /** Coefficients below e do not reach z^e, and coefficient e reaches it once. */
  lemma {:induction false} DifferenceAt(p: seq<int>, q: seq<int>, e: nat)
    requires |p| == |q| && forall m :: e < m < |p| ==> p[m] == q[m]
    ensures LaurentAt(p, e) - LaurentAt(q, e) == if e < |p| then p[e] - q[e] else 0
  {
    if p != [] {
      var m := |p| - 1;
      LaurentEnds(m, e);
      DifferenceAt(p[..m], q[..m], e);
    }
  }

  /** The product at hand, for any candidate. */
  ghost predicate HasProduct(q: seq<int>, a: seq<int>, dd: nat, sum: bool)
    requires 1 <= dd && 2 * dd <= |a|
  {
    forall j: int ::
      Congruent(LaurentAt(q, dd - j) + Sign(sum) * LaurentAt(q, dd - j + 1), Undivided(a, 2 * dd, sum, j))
  }

  lemma {:induction false} SameFrom(p: seq<int>, q: seq<int>, a: seq<int>, dd: nat, sum: bool, e: nat)
    requires 1 <= dd && 2 * dd <= |a| && |p| == |q| == dd + 1 && e <= dd + 1
    requires HasProduct(p, a, dd, sum) && HasProduct(q, a, dd, sum)
    requires Fits(p) && Fits(q)
    ensures Congruent(LaurentAt(p, e), LaurentAt(q, e))
    ensures forall m :: e <= m <= dd ==> p[m] == q[m]
    decreases dd + 1 - e
  {
    hide Undivided, LaurentAt;
    DifferenceAt(p, q, dd + 1);
    if e <= dd {
      SameFrom(p, q, a, dd, sum, e + 1);
      var j := dd - e;
      assert Congruent(LaurentAt(p, dd - j) + Sign(sum) * LaurentAt(p, dd - j + 1), Undivided(a, 2 * dd, sum, j));
      assert Congruent(LaurentAt(q, dd - j) + Sign(sum) * LaurentAt(q, dd - j + 1), Undivided(a, 2 * dd, sum, j));
      SubtractProduct(LaurentAt(p, e), LaurentAt(q, e), LaurentAt(p, e + 1), LaurentAt(q, e + 1), Sign(sum),
                      Undivided(a, 2 * dd, sum, j));
      DifferenceAt(p, q, e);
    }
  }

  lemma SubtractProduct(x: int, y: int, u: int, v: int, s: int, c: int)
    requires (s == 1 || s == -1) && Congruent(x + s * u, c) && Congruent(y + s * v, c) && Congruent(u, v)
    ensures Congruent(x, y)
  {
  }

  ghost predicate Fits(p: seq<int>) {
    forall m :: 0 <= m < |p| ==> IsInt32(p[m])
  }

  lemma {:induction false} TransPassFits(p: seq<int>, k: nat, n: nat)
    requires 2 <= k <= n < |p| && Fits(p)
    ensures Fits(TransPass(p, k, n))
    decreases n
  {
    if n > k {
      TransPassFits(p[n - 2 := Wrap32(p[n - 2] - p[n])], k, n - 1);
    }
  }

  lemma {:induction false} TransFromFits(p: seq<int>, k: nat)
    requires 2 <= k <= |p| && Fits(p)
    ensures Fits(TransFrom(p, k))
    decreases |p| - k
  {
    if k < |p| {
      TransPassFits(p, k, |p| - 1);
      TransFromFits(TransPass(p, k, |p| - 1), k + 1);
    }
  }

  lemma PolyFits(a: seq<int>, dd: nat, sum: bool)
    requires 1 <= dd && 2 * dd <= |a|
    ensures Fits(PolyOf(a, dd, sum))
  {
    hide Deflate, TransFrom;
    var g := Deflated(a, dd, sum);
    forall i | 0 <= i <= dd
      ensures IsInt32(g[i])
    {
      DeflatedFrom(Folded(a, dd, sum), dd, sum, i);
    }
    TransFromFits(g, 2);
  }

  /** The product determines the polynomial: nothing else of its length and in 32 bits has it. */
  lemma PolyIsDetermined(q: seq<int>, a: seq<int>, dd: nat, sum: bool)
    requires 1 <= dd && 2 * dd <= |a| && |q| == dd + 1 && Fits(q)
    ensures HasProduct(q, a, dd, sum) <==> q == PolyOf(a, dd, sum)
  {
    hide Undivided, LaurentAt, TransFrom, Congruent;
    var r := PolyOf(a, dd, sum);
    PolyFits(a, dd, sum);
    forall j: int
      ensures Congruent(LaurentAt(r, dd - j) + Sign(sum) * LaurentAt(r, dd - j + 1), Undivided(a, 2 * dd, sum, j))
    {
      PolyIsQuotient(a, dd, sum, j);
    }
    if HasProduct(q, a, dd, sum) {
      SameFrom(q, r, a, dd, sum, 0);
    }
  }
}
