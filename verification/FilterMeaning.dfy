/** What building, testing and expanding a prediction filter mean for its polynomial. */
module FilterMeaning {
  import opened Stabilize

  /** The polynomial with its leading one and a zero behind it. */
  function Whole(b: seq<real>): (w: seq<real>)
    ensures |w| == |b| + 2
  {
    [1.0] + b + [0.0]
  }

  /** The polynomial of the longer filter is that of the shorter one plus r times the same read backwards. */
  lemma UpIsLattice(b: seq<real>, r: real, i: nat)
    requires i <= |b| + 1
    ensures ([1.0] + Up(b, r))[i] == Whole(b)[i] + r * Whole(b)[|b| + 1 - i]
  {
    var n, w := |b|, Whole(b);
    if 0 < i <= n {
      assert w[i] == b[i - 1] && w[n + 1 - i] == b[n - i];
      assert b[n - i] * r == r * b[n - i];
    }
  }

  /** The squares of all reflection coefficients are at most 0.9995. */
  lemma StableMeans(rc: seq<real>)
    ensures Stable(Filter(rc)) <==> forall i :: 0 <= i < |rc| ==> rc[i] * rc[i] <= 0.9995
  {
    StableIffBounded(rc);
    assert forall i :: 0 <= i < |rc| ==> (Small(rc[i]) <==> rc[i] * rc[i] <= 0.9995);
  }

  /** The value at z of the polynomial with these coefficients, the leading one left out. */
  function ValueAt(s: seq<real>, z: real): real {
    if s == [] then 0.0 else ValueAt(s[..|s| - 1], z) + Scaled(s[|s| - 1], Power(z, |s|))
  }

  lemma {:induction false} PowerOfProduct(g: real, z: real, k: nat)
    ensures Power(Scaled(g, z), k) == Scaled(Power(g, k), Power(z, k))
  {
    if k > 0 {
      PowerOfProduct(g, z, k - 1);
      var p, q := Power(g, k - 1), Power(z, k - 1);
      assert p * q * (g * z) == (p * g) * (q * z);
    }
  }

  lemma ScaledTwice(x: real, c: real, d: real)
    ensures Scaled(Scaled(x, c), d) == Scaled(x, Scaled(c, d))
  {
  }

  /** Expanding the coefficients evaluates the filter nearer to the origin by the factor, at every point. */
  lemma {:induction false} ExpandedIsShrunk(s: seq<real>, g: real, z: real)
    ensures ValueAt(Expanded(s, g), z) == ValueAt(s, Scaled(g, z))
  {
    if s != [] {
      var n := |s| - 1;
      ExpandedIsShrunk(s[..n], g, z);
      assert Expanded(s, g)[..n] == Expanded(s[..n], g);
      PowerOfProduct(g, z, n + 1);
      ScaledTwice(s[n], Power(g, n + 1), Power(z, n + 1));
    }
  }

  function ProductOfFactors(i: nat): real {
    if i == 0 then 1.0 else Scaled(ProductOfFactors(i - 1), Factor(i))
  }

  /** After i rounds the filter is evaluated nearer to the origin by 0.999 * 0.998 * ... , i factors. */
  lemma {:induction false} RoundsShrink(s: seq<real>, i: nat, z: real)
    ensures ValueAt(AfterRounds(s, i), z) == ValueAt(s, Scaled(ProductOfFactors(i), z))
    ensures Factor(i) == (1000.0 - i as real) / 1000.0
  {
    if i > 0 {
      ExpandedIsShrunk(AfterRounds(s, i - 1), Factor(i), z);
      RoundsShrink(s, i - 1, Scaled(Factor(i), z));
      ScaledTwice(ProductOfFactors(i - 1), Factor(i), z);
    } else {
      assert Scaled(1.0, z) == z;
    }
  }
}
