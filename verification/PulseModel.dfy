/**
  The fixed-point model behind the pulse tables: how likely a pulse count splits into two given halves,
  and how likely a run between two pulses has a given length.
 */
module PulseModel {
  import opened Arith
  import opened Fixed
  import opened Wrappers
  import Cmf

  function Smulbb(a: int, b: int): int {
    Wrap16(a) * Wrap16(b)
  }

  function Smlawb(a: int, b: int, c: int): int {
    Wrap32(a + Shr(b * Wrap16(c), 65536))
  }

  /** The place of the leading one. */
  function FloorLog2(u: nat): nat
    requires u > 0
  {
    if u == 1 then 0 else 1 + FloorLog2(u / 2)
  }

  /** The logarithm in steps of 1/128: the leading place, then the seven bits below it bent towards the curve. */
  function Lin2log(x: int): int {
    var u := x % TWO32;
    if u == 0 then -128
    else
      var place := FloorLog2(u);
      var frac := (u * 128 / Pow2(place)) % 128;
      Wrap32(Smlawb(frac, frac * (128 - frac), 179) + place * 128)
  }

  /** `out` and 128ths of it, where the product is taken before or after the shift. */
  function Stretched(out: int, parts: int, before: bool): int {
    if before then Wrap32(out + Shr(Wrap32(out * parts), 128)) else Wrap32(out + Wrap32(Shr(out, 128) * parts))
  }

  /** The power of two, the other way. */
  function Log2lin(x: int): int {
    if x < 0 then 0
    else if x >= 3967 then 0x7fff_ffff
    else
      var out := Pow2(x / 128);
      var frac := x % 128;
      Stretched(out, Smlawb(frac, Smulbb(frac, 128 - frac), -174), x < 2048)
  }

  lemma Pow2Values()
    ensures Pow2(15) == 0x8000 && Pow2(16) == 0x1_0000 && Pow2(30) == 0x4000_0000
  {
    assert Pow2(8) == 256;
    assert Pow2(15) == 128 * Pow2(8) && Pow2(16) == 2 * Pow2(15);
    assert Pow2(23) == 128 * Pow2(16);
    assert Pow2(30) == 128 * Pow2(23);
  }

  lemma Bent(frac: int, b: int)
    requires 0 <= frac < 128 && 0 <= b <= 128 * frac
    ensures 0 <= Smlawb(frac, b, -174) <= frac
  {
  }

  lemma InnerFits(frac: int)
    requires 0 <= frac < 128
    ensures 0 <= Smlawb(frac, Smulbb(frac, 128 - frac), -174) < 128
  {
    hide Smlawb, Wrap16;
    TimesMonotone(0, frac, 128 - frac);
    TimesMonotone(128 - frac, 128, frac);
    Bent(frac, frac * (128 - frac));
  }

  lemma ProductBelow(out: int, inner: int, bound: int)
    requires 0 <= out <= bound && 0 <= inner < 128
    ensures 0 <= out * inner <= 127 * bound
  {
    TimesMonotone(0, inner, out);
    TimesMonotone(inner, 127, out);
  }

  /** Between a power of two and the next one. */
  lemma Log2linRange(x: int)
    requires 0 <= x < 3967
    ensures Pow2(x / 128) <= Log2lin(x) < 2 * Pow2(x / 128) <= TWO31
  {
    hide Smlawb, Smulbb, Pow2;
    var out, frac := Pow2(x / 128), x % 128;
    Pow2Values();
    Pow2Monotone(x / 128, 30);
    InnerFits(frac);
    var inner := Smlawb(frac, Smulbb(frac, 128 - frac), -174);
    if x < 2048 {
      Pow2Monotone(x / 128, 15);
      ProductBelow(out, inner, out);
    } else {
      Pow2Monotone(16, x / 128);
      ProductBelow(out / 128, inner, out / 128);
    }
  }

  // ----- how a count splits -----

  /** Stirling's approximation of the logarithm of a factorial, in units of 2^-15. */
  function Stirling(n: nat): int
    requires 12 * n < TWO31
  {
    if n == 0 then 0
    else
      var ret := Wrap32((2 * n + 1) * (Lin2log(n) * 128));
      Wrap32(Wrap32(Wrap32(ret - 47274 * n) + 43442) + TruncDiv(47274, 12 * n))
  }

  /** Nothing if the code would divide by zero. */
  function ProbSplitFast(k: nat, n: nat): (p: Option<int>)
    requires k <= n && 12 * n < TWO31
  {
    var tmp := Wrap32(Stirling(n) - Stirling(k) - Stirling(n - k) - n * 32768);
    if tmp == 0 then Some(0x4000_0000)
    else
      var ret := Log2lin(Shr(Wrap32(-tmp), 256));
      if ret == 0 then None else Some(TruncDiv(0x4000_0000, ret))
  }

  lemma ProbSplitRange(k: nat, n: nat)
    requires k <= n && 12 * n < TWO31
    ensures var p := ProbSplitFast(k, n); p.Some? ==> 0 <= p.value <= 0x4000_0000
  {
    hide Stirling, Log2lin;
    var tmp := Wrap32(Stirling(n) - Stirling(k) - Stirling(n - k) - n * 32768);
    var x := Shr(Wrap32(-tmp), 256);
    if 0 <= x < 3967 {
      Log2linRange(x);
    }
    Log2linEnds(x);
  }

  lemma Log2linEnds(x: int)
    ensures x < 0 ==> Log2lin(x) == 0
    ensures x >= 3967 ==> Log2lin(x) == 0x7fff_ffff
  {
  }

  // ----- how long a run lasts -----

  const ONE := 0x8000_0000

  /** The largest probability that a run ends here, as the code caps it. */
  const CAP := 2147376274

  const SLOPE: seq<int> := [237, 153, 73, 30, 12, 7]
  const POS: seq<int> := [16384, 23955, 28861, 31213, 32178, 32548]
  const NEG: seq<int> := [16384, 8812, 3906, 1554, 589, 219]

  function Sigmoid(x: int): int {
    if x < 0 then
      if -x >= 192 then 0 else NEG[-x / 32] - Smulbb(SLOPE[-x / 32], -x % 32)
    else if x >= 192 then 32767
    else POS[x / 32] + Smulbb(SLOPE[x / 32], x % 32)
  }

  function Shr31(x: int): int {
    x / ONE
  }

  /** `p` times `f` to the power r, in units of 2^-31, rounding down at every step. */
  function Damped(p: int, f: int, r: nat): int {
    if r == 0 then p else Shr31(Damped(p, f, r - 1) * f)
  }

  function Capped(p: int): int {
    if p > CAP then CAP else p
  }

  function Scale(ms: nat, nump: nat): int
    requires ms > 0 && nump > 0
  {
    var logOut :=
      if nump > ms then Wrap32(Lin2log(nump * 1024 / ms) - 1280) else Wrap32(-(Lin2log(ms * 1024 / nump) - 1280));
    36000 - Shr(10000 * Sigmoid(Shr(logOut, 4) + 146), 32768)
  }

  /** The probability that the run ends at sample `nums`, given that it reaches it. */
  function EndsAt(ms: nat, nump: nat, nums: nat): int
    requires 0 < nums <= ms && nump > 0
  {
    var stays := ONE - ONE / (ms - nums + 1);
    var first := Capped(ONE - Damped(stays, stays, nump - 1));
    var log := Wrap32(Scale(ms, nump) * (Lin2log(ONE - first) - 3968));
    Capped(ONE - Log2lin(Wrap32(Shr(log, 32768) + 3968)))
  }

  /** The probability that the run reaches sample `nums`. */
  function Reaches(ms: nat, nump: nat, nums: nat): int
    requires 0 < nums <= ms + 1 && nump > 0
  {
    if nums == 1 then ONE else Shr31(Reaches(ms, nump, nums - 1) * (ONE - EndsAt(ms, nump, nums - 1)))
  }

  /** The weights of the run lengths of a table of `ms` samples when `nump` pulses are left. */
  function RunPdf(ms: nat, nump: nat): (p: seq<int>)
    requires nump > 0
    ensures |p| == ms
  {
    seq(ms, i requires 0 <= i < ms => Shr31(Reaches(ms, nump, i + 1) * EndsAt(ms, nump, i + 1)))
  }

  lemma Log2linInRange(x: int)
    ensures 0 <= Log2lin(x) < TWO31
  {
    Log2linEnds(x);
    if 0 <= x < 3967 {
      Log2linRange(x);
    }
  }

  /** Whatever the logarithms say, a run ends at every sample with a probability above none and below certainty. */
  lemma EndsAtRange(ms: nat, nump: nat, nums: nat)
    requires 0 < nums <= ms && nump > 0
    ensures 1 <= EndsAt(ms, nump, nums) <= CAP
  {
    hide Log2lin, Scale, Lin2log, Damped;
    var stays := ONE - ONE / (ms - nums + 1);
    var first := Capped(ONE - Damped(stays, stays, nump - 1));
    var log := Wrap32(Scale(ms, nump) * (Lin2log(ONE - first) - 3968));
    Log2linInRange(Wrap32(Shr(log, 32768) + 3968));
  }

  lemma Shr31Range(a: int, b: int)
    requires 0 <= a <= ONE && 0 <= b <= ONE
    ensures 0 <= Shr31(a * b) <= ONE
    ensures a == ONE ==> Shr31(a * b) == b
  {
    TimesMonotone(0, a, b);
    TimesMonotone(a, ONE, b);
    if a == ONE {
      DivModUnique(a * b, ONE, b, 0);
    }
  }

  lemma {:induction false} ReachesRange(ms: nat, nump: nat, nums: nat)
    requires 0 < nums <= ms + 1 && nump > 0
    ensures 0 <= Reaches(ms, nump, nums) <= ONE
  {
    hide EndsAt, Shr31;
    if nums > 1 {
      ReachesRange(ms, nump, nums - 1);
      EndsAtRange(ms, nump, nums - 1);
      Shr31Range(Reaches(ms, nump, nums - 1), ONE - EndsAt(ms, nump, nums - 1));
    }
  }

  lemma {:induction false} SumAtLeastFirst(ws: seq<int>)
    requires ws != [] && forall i :: 0 <= i < |ws| ==> 0 <= ws[i]
    ensures SumOf(ws) >= ws[0]
  {
    if |ws| > 1 {
      SumAtLeastFirst(ws[..|ws| - 1]);
    } else {
      assert ws[..0] == [];
    }
  }

  /** The run lengths of every table have weights, so the tables can be built. */
  lemma RunPdfIsWeights(ms: nat, nump: nat)
    requires nump > 0 && ms <= Cmf.MAXVAL
    ensures Cmf.Weights(RunPdf(ms, nump))
  {
    hide EndsAt, Shr31;
    var p := RunPdf(ms, nump);
    forall i | 0 <= i < ms
      ensures 0 <= p[i] <= ONE && (i == 0 ==> p[0] >= 1)
    {
      ReachesRange(ms, nump, i + 1);
      EndsAtRange(ms, nump, i + 1);
      Shr31Range(Reaches(ms, nump, i + 1), EndsAt(ms, nump, i + 1));
    }
    if ms > 0 {
      SumAtLeastFirst(p);
    }
  }
}
