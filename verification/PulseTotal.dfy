/** The total pulse count and its split over the four subframes, as symbols. */
module PulseTotal {
  import opened Arith
  import opened Fixed
  import opened Symbols

  /** The count prior of the encoder and decoder, in the wrapping 32-bit arithmetic both use. */
  function Tri(l: nat, k: nat): (t: nat)
    ensures t < 65536
  {
    var a := (k + 2) * (l + 1) % TWO32;
    var b := ((k - 1) % TWO32 * (k + 131070) % TWO32) / 2;
    ((a - b) % TWO32) % 65536
  }

  /** The same count without wrap-around: each step adds one pulse position less than the step before. */
  function TriExact(l: nat, k: nat): int {
    if k == 0 then 2 * l + 1 else TriExact(l, k - 1) + l + 3 - k
  }

  function PairsBelow(m: nat): nat {
    if m == 0 then 0 else PairsBelow(m - 1) + m - 1
  }

  lemma {:induction false} PairsBelowDoubled(m: nat)
    ensures m * (m - 1) == 2 * PairsBelow(m)
  {
    if m > 0 {
      PairsBelowDoubled(m - 1);
      assert m * (m - 1) == (m - 1) * (m - 2) + 2 * (m - 1);
    }
  }

  lemma {:induction false} TriExactClosed(l: nat, k: nat)
    requires k > 0
    ensures TriExact(l, k) == (k + 2) * (l + 1) - PairsBelow(k - 1)
  {
    if k > 1 {
      TriExactClosed(l, k - 1);
      TimesSuccessor(k + 1, l + 1);
    } else {
      assert TriExact(l, 1) == TriExact(l, 0) + l + 2;
    }
  }

  lemma {:induction false} TriExactBounds(l: nat, k: nat)
    requires k <= l + 1 <= 161
    ensures 2 * l + 1 <= TriExact(l, k) <= 2 * l + 1 + 162 * k
  {
    if k > 0 {
      TriExactBounds(l, k - 1);
    }
  }

  lemma HalfProduct(k: nat)
    requires 0 < k <= 161
    ensures ((k - 1) % TWO32 * (k + 131070) % TWO32) / 2 == PairsBelow(k - 1) + 65536 * (k - 1)
  {
    var m := k - 1;
    PairsBelowDoubled(m);
    TimesDistributes(m - 1, 131072, m);
    TimesMonotone(m, 160, m + 131071);
    assert m % TWO32 == m;
    assert m * (m + 131071) == 2 * PairsBelow(m) + 131072 * m;
  }

  lemma LowBits(x: int)
    ensures (x % TWO32) % 65536 == x % 65536
  {
    var q, r := x / TWO32, x % TWO32;
    DivModUnique(x, 65536, 65536 * q + r / 65536, r % 65536);
  }

  lemma TriTail(a: int, half: nat, m: int)
    requires 0 <= a < TWO32 && 0 <= a - half < 65536
    ensures ((a % TWO32 - (half + 65536 * m)) % TWO32) % 65536 == a - half
  {
    LowBits(a - (half + 65536 * m));
    DivModUnique(a - (half + 65536 * m), 65536, -m, a - half);
  }

  lemma TriNoWrap(l: nat, k: nat)
    requires 0 < k <= l + 1 <= 161 && 0 <= (k + 2) * (l + 1) - PairsBelow(k - 1) < 65536
    ensures Tri(l, k) == (k + 2) * (l + 1) - PairsBelow(k - 1)
  {
    TimesMonotone(k + 2, 163, l + 1);
    HalfProduct(k);
    TriTail((k + 2) * (l + 1), PairsBelow(k - 1), k - 1);
  }

  /** Within the counts of one frame the 32-bit wrap-around and the truncation to 16 bits cancel out. */
  lemma TriIsExact(l: nat, k: nat)
    requires k <= l + 1 <= 161
    ensures Tri(l, k) == TriExact(l, k)
  {
    TriExactBounds(l, k);
    if k == 0 {
      TriAtZero(l);
    } else {
      TriExactClosed(l, k);
      TriNoWrap(l, k);
    }
  }

  lemma TriAtZero(l: nat)
    requires l <= 160
    ensures Tri(l, 0) == 2 * l + 1
  {
    assert (0 - 1) % TWO32 == TWO32 - 1;
    assert (TWO32 - 1) * 131070 % TWO32 == TWO32 - 131070;
    TriTail(2 * l + 2, 1, 32767);
  }

  lemma {:induction false} TriGrows(l: nat, i: nat, j: nat)
    requires i < j <= l + 1 <= 161
    ensures Tri(l, i) < Tri(l, j)
    decreases j
  {
    TriIsExact(l, j - 1);
    TriIsExact(l, j);
    if i < j - 1 {
      TriGrows(l, i, j - 1);
    }
  }

  function CountBound(l: nat): nat {
    if Tri(l, l) == 0 then 1 else Tri(l, l)
  }

  function TotalSymbols(l: nat, total: nat): seq<Symbol> {
    [Interval(if total > 0 then Tri(l, total - 1) else 0, Tri(l, total), CountBound(l))]
  }

  method WriteTotal(enc: SymbolWriter, l: nat, total: nat)
    modifies enc
    ensures enc.written == old(enc.written) + TotalSymbols(l, total)
  {
    var ft := Tri(l, l);
    if ft == 0 {
      ft := 1;
    }
    var fl := 0;
    if total > 0 {
      fl := Tri(l, total - 1);
    }
    var fh := Tri(l, total);
    enc.EncodeInterval(fl, fh, ft);
  }

  /** Whatever point of the interval the range decoder sees, the search stops at the count that was written. */
  method ReadTotal(dec: SymbolReader, l: nat, ghost total: nat) returns (k: nat)
    requires l <= 160 && total <= l
    requires At(dec.stream, dec.next, TotalSymbols(l, total))
    modifies dec
    ensures k == total && dec.next == old(dec.next) + 1
  {
    AtElement(dec.stream, dec.next, TotalSymbols(l, total), 0);
    TriIsExact(l, 0);
    TriExactBounds(l, 0);
    if total > 0 {
      TriGrows(l, total - 1, total);
    }
    var ft := Tri(l, l);
    if ft == 0 {
      ft := 1;
    }
    var val := dec.Decode(ft);
    var limit := l + 1;
    var prevCum := 0;
    k := 0;
    while k != limit
      invariant k <= total
      invariant prevCum == if k > 0 then Tri(l, k - 1) else 0
      invariant dec.next == old(dec.next)
      decreases limit - k
    {
      var cum := Tri(l, k);
      if k < total - 1 {
        TriGrows(l, k, total - 1);
      }
      if k > 0 && k == total {
        TriGrows(l, k - 1, k);
      }
      if prevCum <= val < cum {
        dec.Update(prevCum, cum, ft);
        break;
      }
      prevCum := cum;
      k := k + 1;
    }
  }

  // ----- the split -----

  const MAX_PULSES_PER_SF := 40

  /** The most and the fewest pulses the first half can take when neither half may exceed g. */
  function HalfMost(count: int, g: int): int {
    Min(count, g)
  }

  function HalfLeast(count: int, g: int): int {
    Max(count - g, 0)
  }

  function HalfSymbols(count: int, g: int, s0: int): seq<Symbol> {
    var lo, minSplit := HalfMost(count, g), HalfLeast(count, g);
    if lo <= minSplit then [] else [Coded(SplitWindow(count, minSplit, lo - minSplit + 2), s0 - minSplit)]
  }

  /** How many pulses the first two subframes hold; nothing when the bounds leave one choice. */
  function SumSymbols(counts: seq<int>, g: int): seq<Symbol>
    requires |counts| == 4
  {
    var total := Total(counts);
    var initSum, lo := Max(total - 2 * g, 0), Max(total - 80, 0);
    var hiBound := total - lo;
    if initSum < hiBound
    then [Coded(SplitWindow(total, initSum - lo, hiBound - initSum + 2), counts[0] + counts[1] - initSum)]
    else []
  }

  /** A pair of subframes without pulses takes no symbol. */
  function PairSymbols(first: int, second: int, g: int): seq<Symbol> {
    if first + second > 0 then HalfSymbols(first + second, g, first) else []
  }

  function SplitSymbols(counts: seq<int>, g: int): seq<Symbol>
    requires |counts| == 4
  {
    SumSymbols(counts, g) + (PairSymbols(counts[0], counts[1], g) + PairSymbols(counts[2], counts[3], g))
  }

  function Total(counts: seq<int>): int
    requires |counts| == 4
  {
    counts[0] + counts[1] + counts[2] + counts[3]
  }

  ghost predicate CountsWithin(counts: seq<int>, g: int) {
    |counts| == 4 && forall i :: 0 <= i < 4 ==> 0 <= counts[i] <= g
  }

  method WriteHalf(enc: SymbolWriter, count: int, granularity: int, s0: int)
    modifies enc
    ensures enc.written == old(enc.written) + HalfSymbols(count, granularity, s0)
  {
    var lo := count;
    if granularity < lo {
      lo := granularity;
    }
    var minSplit := count - granularity;
    if minSplit < 0 {
      minSplit := 0;
    }
    if lo < minSplit || minSplit == lo {
      return;
    }
    enc.EncodeCdf(s0 - minSplit, SplitWindow(count, minSplit, lo - minSplit + 2));
  }

  method WriteSplit(enc: SymbolWriter, counts: seq<int>, total: int, g: int)
    requires CountsWithin(counts, g) && g <= MAX_PULSES_PER_SF
    requires total == Total(counts)
    modifies enc
    ensures enc.written == old(enc.written) + SplitSymbols(counts, g)
  {
    var finalSum := counts[0] + counts[1];
    var initSum := total - g * 2;
    if initSum < 0 {
      initSum := 0;
    }
    var lo := total - 80;
    if lo < 0 {
      lo := 0;
    }
    if initSum < lo {
      return;
    }
    ghost var before := enc.written;
    var hiBound := total - lo;
    if initSum < hiBound {
      enc.EncodeCdf(finalSum - initSum, SplitWindow(total, initSum - lo, hiBound - initSum + 2));
    }
    if finalSum > 0 {
      WriteHalf(enc, finalSum, g, counts[0]);
    }
    if finalSum < total {
      WriteHalf(enc, total - finalSum, g, counts[2]);
    }
  }

  method ReadHalf(dec: SymbolReader, count: int, granularity: int, ghost s0: int) returns (s: int)
    requires HalfLeast(count, granularity) <= s0 <= HalfMost(count, granularity)
    requires At(dec.stream, dec.next, HalfSymbols(count, granularity, s0))
    modifies dec
    ensures s == s0 && dec.next == old(dec.next) + |HalfSymbols(count, granularity, s0)|
  {
    var lo := count;
    if granularity < lo {
      lo := granularity;
    }
    var minSplit := count - granularity;
    if minSplit < 0 {
      minSplit := 0;
    }
    if lo < minSplit {
      return -1;
    }
    if minSplit == lo {
      return minSplit;
    }
    var n := lo - minSplit + 2;
    AtElement(dec.stream, dec.next, HalfSymbols(count, granularity, s0), 0);
    s := dec.DecodeCdf(SplitWindow(count, minSplit, n));
    s := s + minSplit;
  }

  /** The first two symbols' worth of the split: how many pulses the first two subframes hold. */
  method ReadSum(dec: SymbolReader, total: int, g: int, ghost counts: seq<int>) returns (sum: int)
    requires 0 < total && CountsWithin(counts, g) && g <= MAX_PULSES_PER_SF
    requires total == Total(counts)
    requires At(dec.stream, dec.next, SumSymbols(counts, g))
    modifies dec
    ensures sum == counts[0] + counts[1] && dec.next == old(dec.next) + |SumSymbols(counts, g)|
  {
    sum := total - g * 2;
    if sum < 0 {
      sum := 0;
    }
    var lo := total - 80;
    if lo < 0 {
      lo := 0;
    }
    var hiBound := total - lo;
    if sum < hiBound {
      AtElement(dec.stream, dec.next, SumSymbols(counts, g), 0);
      var d := dec.DecodeCdf(SplitWindow(total, sum - lo, hiBound - sum + 2));
      sum := sum + d;
    }
  }

  /** One pair of subframes; a pair without pulses keeps its zeros. */
  method ReadPair(dec: SymbolReader, sum: int, g: int, ghost first: int, ghost second: int) returns (s0: int, s1: int)
    requires 0 <= first <= g && 0 <= second <= g && sum == first + second
    requires At(dec.stream, dec.next, PairSymbols(first, second, g))
    modifies dec
    ensures s0 == first && s1 == second && dec.next == old(dec.next) + |PairSymbols(first, second, g)|
  {
    s0, s1 := 0, 0;
    if sum > 0 {
      s0 := ReadHalf(dec, sum, g, first);
      s1 := sum - s0;
    }
  }

  /** The decoder recovers the four counts from the symbols of the split. */
  method ReadSplit(dec: SymbolReader, total: int, g: int, ghost counts: seq<int>) returns (split: seq<int>)
    requires 0 < total && CountsWithin(counts, g) && g <= MAX_PULSES_PER_SF && total == Total(counts)
    requires At(dec.stream, dec.next, SplitSymbols(counts, g))
    modifies dec
    ensures split == counts && dec.next == old(dec.next) + |SplitSymbols(counts, g)|
  {
    ghost var a, b := PairSymbols(counts[0], counts[1], g), PairSymbols(counts[2], counts[3], g);
    AtSplit(dec.stream, dec.next, SumSymbols(counts, g), a + b);
    var sum := ReadSum(dec, total, g, counts);
    AtSplit(dec.stream, dec.next, a, b);
    var s0, s1 := ReadPair(dec, sum, g, counts[0], counts[1]);
    var s2, s3 := ReadPair(dec, total - sum, g, counts[2], counts[3]);
    split := [s0, s1, s2, s3];
    if split[0] == -1 || split[2] == -1 {
      split := [0, 0, 0, 0];
    }
  }

  // ----- the windows of the split tables -----

  /** Entries of the split table for a count: one for each possible first half, and one to close the range. */
  function SplitTableLen(count: int): int
    requires 0 <= count <= 4 * MAX_PULSES_PER_SF - 1
  {
    var minSplit := Max(count - 2 * MAX_PULSES_PER_SF, 0);
    count - minSplit - minSplit + 2
  }

  /** A symbol the range coder accepts: its window lies in the table, and the symbol in the window. */
  ghost predicate SplitFits(s: Symbol) {
    && s.Coded? && s.cdf.SplitWindow?
    && 1 <= s.cdf.count <= 4 * MAX_PULSES_PER_SF - 1
    && 0 <= s.cdf.start && s.cdf.start + s.cdf.n <= SplitTableLen(s.cdf.count)
    && 0 <= s.value < s.cdf.n - 1
  }

  /** Every split symbol the encoder writes reads only entries its table has. */
  lemma SplitStaysInTables(counts: seq<int>, g: int)
    requires CountsWithin(counts, g) && g <= MAX_PULSES_PER_SF && Total(counts) > 0
    ensures forall s :: s in SplitSymbols(counts, g) ==> SplitFits(s)
  {
    var total := Total(counts);
    var a, b := PairSymbols(counts[0], counts[1], g), PairSymbols(counts[2], counts[3], g);
    forall s | s in SplitSymbols(counts, g)
      ensures SplitFits(s)
    {
      if s in SumSymbols(counts, g) {
        assert total != 4 * MAX_PULSES_PER_SF;
      } else {
        assert s in a || s in b;
      }
    }
  }
}
