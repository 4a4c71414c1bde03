/**
  The polynomials behind the conversion of whitening coefficients to line spectral frequencies. All
  arithmetic is 32-bit two's complement, so nothing is assumed of the coefficients.
 */
module A2Nlsf {
  import opened Arith
  import opened Fixed

  // ----- fixed-point helpers -----

  /** The rounding shift by one place, as the midpoint takes it. */
  function Halved(a: int): int {
    Shr(a, 2) + a % 2
  }

  /** The rounding shift by sixteen places. */
  function RshiftRound16(a: int): int {
    Shr(Shr(a, 32768) + 1, 2)
  }

  function Smlaww(a: int, b: int, c: int): int {
    Wrap32(a + (b * c) / 65536)
  }

  /** Horner's rule from coefficient n upwards. */
  function EvalFrom(p: seq<int>, x: int, n: nat): int
    requires n < |p|
    decreases |p| - n
  {
    if n == |p| - 1 then p[n] else Smlaww(p[n], EvalFrom(p, x, n + 1), Wrap32(x * 16))
  }

  function Eval(p: seq<int>, x: int): int
    requires |p| >= 1
  {
    EvalFrom(p, x, 0)
  }

  method EvalPoly(p: array<int>, x: int) returns (y: int)
    requires p.Length >= 1
    ensures y == Eval(p[..], x)
  {
    var dd := p.Length - 1;
    var xQ16 := Wrap32(x * 16);
    y := p[dd];
    var n := dd;
    while n > 0
      invariant 0 <= n <= dd
      invariant y == EvalFrom(p[..], x, n)
    {
      n := n - 1;
      y := Smlaww(p[n], y, xQ16);
    }
  }

  // ----- the polynomials -----

  function Chirped(chirp: int, a: int): int {
    Wrap32((chirp * a) / 65536)
  }

  /** Bandwidth expansion from coefficient i on, with the chirp factor reached there. */
  function ExpandFrom(a: seq<int>, d: nat, i: nat, chirp: int, step: int): (r: seq<int>)
    requires 1 <= d <= |a| && i < d
    ensures |r| == |a|
    decreases d - i
  {
    var scaled := a[i := Chirped(chirp, a[i])];
    if i == d - 1 then scaled
    else ExpandFrom(scaled, d, i + 1, Wrap32(chirp + RshiftRound16(Wrap32(chirp * step))), step)
  }

  function Expand(a: seq<int>, d: nat, chirp: int): (r: seq<int>)
    requires 1 <= d <= |a|
    ensures |r| == |a|
  {
    ExpandFrom(a, d, 0, chirp, Wrap32(chirp - 65536))
  }

  method BwExpander(ar: array<int>, d: nat, chirpQ16: int)
    requires 1 <= d <= ar.Length
    modifies ar
    ensures ar[..] == Expand(old(ar[..]), d, chirpQ16)
  {
    var chirp := chirpQ16;
    var chirpMinusOne := Wrap32(chirpQ16 - 65536);
    for i := 0 to d - 1
      invariant ExpandFrom(ar[..], d, i, chirp, chirpMinusOne) == Expand(old(ar[..]), d, chirpQ16)
    {
      ar[i] := Wrap32((chirp * ar[i]) / 65536);
      var mul := Wrap32(chirp * chirpMinusOne);
      chirp := Wrap32(chirp + RshiftRound16(mul));
    }
    ar[d - 1] := Wrap32((chirp * ar[d - 1]) / 65536);
  }

  /** Coefficient k of the sum polynomial or of the difference polynomial. */
  function Mirrored(a: seq<int>, dd: nat, k: nat, sum: bool): int
    requires k < dd && 2 * dd <= |a|
  {
    if sum then Wrap32(-a[dd - k - 1] - a[dd + k]) else Wrap32(-a[dd - k - 1] + a[dd + k])
  }

  function Folded(a: seq<int>, dd: nat, sum: bool): (r: seq<int>)
    requires 2 * dd <= |a|
    ensures |r| == dd + 1
  {
    seq(dd, k requires 0 <= k < dd => Mirrored(a, dd, k, sum)) + [65536]
  }

  /** Divides the known root at z = 1 or z = -1 out of the polynomial, from coefficient k down. */
  function Deflate(p: seq<int>, k: nat, sum: bool): (r: seq<int>)
    requires k < |p|
    ensures |r| == |p|
    decreases k
  {
    if k == 0 then p
    else Deflate(p[k - 1 := Wrap32(if sum then p[k - 1] - p[k] else p[k - 1] + p[k])], k - 1, sum)
  }

  /** One pass of the change of basis, from coefficient n down to k + 1, then coefficient k. */
  function TransPass(p: seq<int>, k: nat, n: nat): (r: seq<int>)
    requires 2 <= k <= n < |p|
    ensures |r| == |p|
    decreases n
  {
    if n == k then p[k - 2 := Wrap32(p[k - 2] - Wrap32(p[k] * 2))]
    else TransPass(p[n - 2 := Wrap32(p[n - 2] - p[n])], k, n - 1)
  }

  function TransFrom(p: seq<int>, k: nat): (r: seq<int>)
    requires 2 <= k <= |p|
    ensures |r| == |p|
    decreases |p| - k
  {
    if k == |p| then p else TransFrom(TransPass(p, k, |p| - 1), k + 1)
  }

  function SumPoly(a: seq<int>, dd: nat): (p: seq<int>)
    requires 1 <= dd && 2 * dd <= |a|
    ensures |p| == dd + 1
  {
    TransFrom(Deflate(Folded(a, dd, true), dd, true), 2)
  }

  function DiffPoly(a: seq<int>, dd: nat): (q: seq<int>)
    requires 1 <= dd && 2 * dd <= |a|
    ensures |q| == dd + 1
  {
    TransFrom(Deflate(Folded(a, dd, false), dd, false), 2)
  }

  method TransPoly(p: array<int>)
    requires p.Length >= 2
    modifies p
    ensures p[..] == TransFrom(old(p[..]), 2)
  {
    var dd := p.Length - 1;
    for k := 2 to dd + 1
      invariant TransFrom(p[..], k) == TransFrom(old(p[..]), 2)
    {
      TransPassInPlace(p, k);
    }
  }

  method TransPassInPlace(p: array<int>, k: nat)
    requires 2 <= k < p.Length
    modifies p
    ensures p[..] == TransPass(old(p[..]), k, p.Length - 1)
  {
    var n := p.Length - 1;
    while n >= k + 1
      invariant k <= n < p.Length
      invariant TransPass(p[..], k, n) == TransPass(old(p[..]), k, p.Length - 1)
    {
      p[n - 2] := Wrap32(p[n - 2] - p[n]);
      n := n - 1;
    }
    p[k - 2] := Wrap32(p[k - 2] - Wrap32(p[k] * 2));
  }

  method Fold(aQ16: array<int>, p: array<int>, dd: nat, sum: bool)
    requires 1 <= dd && 2 * dd <= aQ16.Length && p.Length == dd + 1 && p != aQ16
    modifies p
    ensures p[..] == Folded(aQ16[..], dd, sum)
  {
    p[dd] := 65536;
    for k := 0 to dd
      invariant p[dd] == 65536
      invariant forall i :: 0 <= i < k ==> p[i] == Mirrored(aQ16[..], dd, i, sum)
    {
      p[k] := if sum then Wrap32(-aQ16[dd - k - 1] - aQ16[dd + k]) else Wrap32(-aQ16[dd - k - 1] + aQ16[dd + k]);
    }
  }

  method DeflateInPlace(p: array<int>, sum: bool)
    requires p.Length >= 1
    modifies p
    ensures p[..] == Deflate(old(p[..]), p.Length - 1, sum)
  {
    var k := p.Length - 1;
    while k >= 1
      invariant 0 <= k < p.Length
      invariant Deflate(p[..], k, sum) == Deflate(old(p[..]), p.Length - 1, sum)
    {
      p[k - 1] := Wrap32(if sum then p[k - 1] - p[k] else p[k - 1] + p[k]);
      k := k - 1;
    }
  }

  method InitPolys(aQ16: array<int>, p: array<int>, q: array<int>, dd: nat)
    requires 1 <= dd && 2 * dd <= aQ16.Length && p.Length == q.Length == dd + 1
    requires p != aQ16 && q != aQ16 && p != q
    modifies p, q
    ensures p[..] == SumPoly(aQ16[..], dd) && q[..] == DiffPoly(aQ16[..], dd)
  {
    Fold(aQ16, p, dd, true);
    Fold(aQ16, q, dd, false);
    DeflateInPlace(p, true);
    DeflateInPlace(q, false);
    TransPoly(p);
    TransPoly(q);
  }
}
