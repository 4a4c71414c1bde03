/**
  Cumulative tables from weights. Every entry gets one unit, and the rest of 32767 is shared out in
  proportion to the weights, rounded down.
 */
module Cmf {
  import opened Arith
  import opened Bytes
  import opened Fixed

  const MAXVAL := 32767
  const WEIGHT_CAP := 65535

  predicate Weights(ws: seq<int>) {
    && |ws| <= MAXVAL
    && (forall i :: 0 <= i < |ws| ==> 0 <= ws[i])
    && (ws != [] ==> SumOf(ws) > 0)
  }

  /** The share of a weight out of `sum`, without the unit every entry gets. */
  function Share(w: int, sum: int, n: nat): int
    requires sum > 0
  {
    w * (MAXVAL - n) / sum
  }

  /** Entry i of the table. */
  function Entry(ws: seq<int>, i: nat): int
    requires Weights(ws) && i <= |ws|
  {
    if i == 0 then 0 else Entry(ws, i - 1) + Share(ws[i - 1], SumOf(ws), |ws|) + 1
  }

  function Table(ws: seq<int>): (t: seq<int>)
    requires Weights(ws)
    ensures |t| == |ws| + 1
  {
    seq(|ws| + 1, i requires 0 <= i <= |ws| => Entry(ws, i))
  }

  predicate StrictlyIncreasing(t: seq<int>) {
    forall i, j :: 0 <= i < j < |t| ==> t[i] < t[j]
  }

  // ----- exact bounds -----

  lemma ShareBounds(w: int, sum: int, n: nat)
    requires sum > 0 && 0 <= w && n <= MAXVAL
    ensures 0 <= Share(w, sum, n)
    ensures w * (MAXVAL - n) - (sum - 1) <= Share(w, sum, n) * sum <= w * (MAXVAL - n)
  {
    TimesMonotone(0, w, MAXVAL - n);
  }

  /** Rounding down loses less than one unit an entry. */
  lemma {:induction false} EntryBounds(ws: seq<int>, i: nat)
    requires Weights(ws) && i <= |ws| && ws != []
    ensures var s, n := SumOf(ws), |ws|;
            SumOf(ws[..i]) * (MAXVAL - n) - i * (s - 1) <= (Entry(ws, i) - i) * s <= SumOf(ws[..i]) * (MAXVAL - n)
  {
    var s, n := SumOf(ws), |ws|;
    if i > 0 {
      EntryBounds(ws, i - 1);
      assert ws[..i][..i - 1] == ws[..i - 1];
      var before, w := SumOf(ws[..i - 1]), ws[i - 1];
      var share := Share(w, s, n);
      ShareBounds(w, s, n);
      TimesDistributes(before, w, MAXVAL - n);
      TimesDistributes(Entry(ws, i - 1) - (i - 1), share, s);
      TimesSuccessor(i - 1, s - 1);
    }
  }

  lemma LastEntry(ws: seq<int>)
    requires Weights(ws) && ws != []
    ensures MAXVAL - |ws| < Entry(ws, |ws|) <= MAXVAL
  {
    var s, n := SumOf(ws), |ws|;
    var shares := Entry(ws, n) - n;
    EntryBounds(ws, n);
    assert ws[..n] == ws;
    if shares > MAXVAL - n {
      TimesMonotone(MAXVAL - n + 1, shares, s);
      TimesSuccessor(MAXVAL - n, s);
    }
    if shares <= MAXVAL - 2 * n {
      TimesMonotone(shares, MAXVAL - n - n, s);
      TimesDistributes(MAXVAL - n, -n, s);
      TimesDistributes(s, -1, n);
    }
  }

  lemma {:induction false} EntriesGrow(ws: seq<int>, i: nat, j: nat)
    requires Weights(ws) && i < j <= |ws|
    ensures Entry(ws, i) < Entry(ws, j)
    decreases j
  {
    ShareBounds(ws[j - 1], SumOf(ws), |ws|);
    if i < j - 1 {
      EntriesGrow(ws, i, j - 1);
    }
  }

  /** A table starts at 0, rises strictly, and ends within its length of 32767 without passing it. */
  lemma TableShape(ws: seq<int>)
    requires Weights(ws)
    ensures Table(ws)[0] == 0 && StrictlyIncreasing(Table(ws))
    ensures ws != [] ==> MAXVAL - |ws| < Table(ws)[|ws|] <= MAXVAL
  {
    var t := Table(ws);
    forall i, j | 0 <= i < j < |t|
      ensures t[i] < t[j]
    {
      EntriesGrow(ws, i, j);
    }
    if ws != [] {
      LastEntry(ws);
    }
  }

  lemma {:induction false} RisesByOne(t: seq<int>, i: nat)
    requires StrictlyIncreasing(t) && i < |t| && t[0] >= 0
    ensures t[i] >= i
  {
    if i > 0 {
      RisesByOne(t, i - 1);
    }
  }

  /** No longer list has such a table: strictly rising entries from 0 pass 32767 at the latest there. */
  lemma LengthBoundIsNeeded(t: seq<int>)
    requires StrictlyIncreasing(t) && t != [] && t[0] == 0 && t[|t| - 1] <= MAXVAL
    ensures |t| - 1 <= MAXVAL
  {
    RisesByOne(t, |t| - 1);
  }

  lemma EntryFits(ws: seq<int>, i: nat)
    requires Weights(ws) && i <= |ws|
    ensures 0 <= Entry(ws, i) <= MAXVAL
  {
    if 0 < i {
      EntriesGrow(ws, 0, i);
    }
    if ws != [] {
      LastEntry(ws);
      if i < |ws| {
        EntriesGrow(ws, i, |ws|);
      }
    }
  }

  // ----- the expansion of delta tables -----

  function Weight(d: Byte): (w: int)
    ensures 1 <= w <= WEIGHT_CAP
  {
    var tmp := d as int + 1;
    if tmp * tmp > WEIGHT_CAP then WEIGHT_CAP else tmp * tmp
  }

  /** The weights are the squares of 1 to 255, each growing by the next odd number; the 256th is capped one short. */
  lemma WeightsAreSquares(d: Byte)
    ensures Weight(0) == 1
    ensures d < 254 ==> Weight(d + 1) == Weight(d) + 2 * d as int + 3
    ensures Weight(255) == Weight(254) + 2 * 254 + 2
  {
    var n := d as int + 1;
    assert n <= 255 ==> n * n <= 255 * 255 by {
      if n <= 255 {
        TimesMonotone(n, 255, n);
        TimesMonotone(n, 255, 255);
      }
    }
    assert (n + 1) * (n + 1) == n * n + 2 * n + 1;
    if d < 254 {
      TimesMonotone(n + 1, 255, n + 1);
      TimesMonotone(n + 1, 255, 255);
    }
  }

  function WeightsOf(dcmf: seq<Byte>): (ws: seq<int>)
    ensures |ws| == |dcmf|
  {
    seq(|dcmf|, i requires 0 <= i < |dcmf| => Weight(dcmf[i]))
  }

  lemma {:induction false} SumBounds(ws: seq<int>)
    requires forall i :: 0 <= i < |ws| ==> 1 <= ws[i] <= WEIGHT_CAP
    ensures |ws| <= SumOf(ws) <= WEIGHT_CAP * |ws|
  {
    if ws != [] {
      SumBounds(ws[..|ws| - 1]);
    }
  }

  lemma WeightsAreWeights(dcmf: seq<Byte>)
    requires |dcmf| <= MAXVAL
    ensures Weights(WeightsOf(dcmf)) && |dcmf| <= SumOf(WeightsOf(dcmf)) < TWO31
  {
    SumBounds(WeightsOf(dcmf));
  }

  lemma SumStep(ws: seq<int>, i: nat)
    requires i < |ws|
    ensures SumOf(ws[..i + 1]) == SumOf(ws[..i]) + ws[i]
  {
    assert ws[..i + 1][..i] == ws[..i];
  }

  /** The arithmetic of the two expansions: 32 bits throughout, or 64 bits with an unsigned word for the entries. */
  datatype Width = Narrow | Wide(word: int)

  function Sum(width: Width, x: int): int {
    if width.Narrow? then Wrap32(x) else x
  }

  lemma WrapTwice(a: int, b: int)
    ensures Wrap32(Wrap32(a) + b) == Wrap32(a + b)
  {
    var q, r := (a + TWO31) / TWO32, (a + TWO31) % TWO32;
    var x := r + b;
    DivModUnique(a + b + TWO31, TWO32, q + x / TWO32, x % TWO32);
  }

  /** The first pass: the capped squares, one place to the right, and their sum. */
  method Squares(dcmf: seq<Byte>, cmf: array<int>, width: Width) returns (sum: int)
    requires |dcmf| < cmf.Length
    modifies cmf
    ensures sum == Sum(width, SumOf(WeightsOf(dcmf)))
    ensures cmf[1..|dcmf| + 1] == WeightsOf(dcmf)
    ensures cmf[|dcmf| + 1..] == old(cmf[|dcmf| + 1..])
  {
    assert Wrap32(0) == 0;
    hide Wrap32;
    sum := 0;
    ghost var ws := WeightsOf(dcmf);
    for n := 0 to |dcmf|
      invariant sum == Sum(width, SumOf(ws[..n]))
      invariant forall i :: 0 <= i < n ==> cmf[i + 1] == ws[i]
      invariant forall i :: |dcmf| + 1 <= i < cmf.Length ==> cmf[i] == old(cmf[i])
    {
      SumStep(ws, n);
      WrapTwice(SumOf(ws[..n]), ws[n]);
      var tmp := dcmf[n] as int + 1;
      tmp := tmp * tmp;
      if tmp > WEIGHT_CAP {
        tmp := WEIGHT_CAP;
      }
      cmf[n + 1] := tmp;
      sum := Sum(width, sum + tmp);
    }
    assert ws[..|dcmf|] == ws;
  }

  /** One entry as the in-place version computes it: a 32-bit product, 16-bit entries. */
  function Next32(prev: int, w: int, sum: int, n: nat): int
    requires sum != 0
  {
    (prev + TruncDiv(Wrap32(w * (MAXVAL - n)), sum) % 65536 + 1) % 65536
  }

  /** One entry with a 64-bit product, stored in an unsigned word of the given size. */
  function Next64(prev: int, w: int, sum: int, n: nat, word: int): int
    requires sum != 0 && word > 0
  {
    (prev + (TruncDiv(w * (MAXVAL - n), sum) + 1)) % word
  }

  function Next(width: Width, prev: int, w: int, sum: int, n: nat): int
    requires sum != 0 && (width.Wide? ==> width.word > 0)
  {
    if width.Narrow? then Next32(prev, w, sum, n) else Next64(prev, w, sum, n, width.word)
  }

  /** Entry i as the arithmetic leaves it, whatever wraps on the way. */
  function Wrapped(width: Width, ws: seq<int>, sum: int, i: nat): int
    requires i <= |ws| && sum != 0 && (width.Wide? ==> width.word > 0)
  {
    if i == 0 then 0 else Next(width, Wrapped(width, ws, sum, i - 1), ws[i - 1], sum, |ws|)
  }

  function WrappedTable(width: Width, ws: seq<int>, sum: int): (t: seq<int>)
    requires sum != 0 && (width.Wide? ==> width.word > 0)
    ensures |t| == |ws| + 1
  {
    seq(|ws| + 1, i requires 0 <= i <= |ws| => Wrapped(width, ws, sum, i))
  }

  predicate Suits(width: Width, ws: seq<int>) {
    if width.Narrow? then (forall i :: 0 <= i < |ws| ==> ws[i] <= WEIGHT_CAP) && IsInt32(SumOf(ws))
    else width.word >= 65536
  }

  lemma ProductFits(w: int, n: nat)
    requires 0 <= w <= WEIGHT_CAP && 0 < n <= MAXVAL
    ensures 0 <= w * (MAXVAL - n) && IsInt32(w * (MAXVAL - n))
  {
    TimesMonotone(w, WEIGHT_CAP, MAXVAL - n);
    TimesMonotone(0, w, MAXVAL - n);
  }

  /** No product of the 32-bit version leaves 32 bits, and no entry leaves 16. */
  lemma Next32Exact(ws: seq<int>, i: nat)
    requires Weights(ws) && 0 < i <= |ws| && ws[i - 1] <= WEIGHT_CAP
    ensures Next32(Entry(ws, i - 1), ws[i - 1], SumOf(ws), |ws|) == Entry(ws, i)
  {
    ProductFits(ws[i - 1], |ws|);
    EntryFits(ws, i);
    EntryFits(ws, i - 1);
    ShareBounds(ws[i - 1], SumOf(ws), |ws|);
  }

  lemma Next64Exact(ws: seq<int>, i: nat, word: int)
    requires Weights(ws) && 0 < i <= |ws| && word >= 65536
    ensures Next64(Entry(ws, i - 1), ws[i - 1], SumOf(ws), |ws|, word) == Entry(ws, i)
  {
    EntryFits(ws, i);
    TimesMonotone(0, ws[i - 1], MAXVAL - |ws|);
    assert TruncDiv(ws[i - 1] * (MAXVAL - |ws|), SumOf(ws)) == Share(ws[i - 1], SumOf(ws), |ws|);
    DivModUnique(Entry(ws, i), word, 0, Entry(ws, i));
  }

  lemma {:induction false} WrappedEntry(width: Width, ws: seq<int>, i: nat)
    requires Weights(ws) && Suits(width, ws) && i <= |ws| && ws != []
    ensures Wrapped(width, ws, Sum(width, SumOf(ws)), i) == Entry(ws, i)
  {
    if i > 0 {
      WrappedEntry(width, ws, i - 1);
      if width.Narrow? {
        Next32Exact(ws, i);
      } else {
        Next64Exact(ws, i, width.word);
      }
    }
  }

  /** Nothing wraps for weights: the table is the exact one. */
  lemma WrappedIsExact(width: Width, ws: seq<int>)
    requires Weights(ws) && Suits(width, ws) && ws != []
    ensures WrappedTable(width, ws, Sum(width, SumOf(ws))) == Table(ws)
  {
    var t := WrappedTable(width, ws, Sum(width, SumOf(ws)));
    forall i | 0 <= i < |t|
      ensures t[i] == Table(ws)[i]
    {
      WrappedEntry(width, ws, i);
    }
  }

  /** A proper table: from 0, strictly rising, within 32767. */
  predicate Proper(t: seq<int>) {
    t != [] && t[0] == 0 && StrictlyIncreasing(t) && t[|t| - 1] <= MAXVAL
  }

  /** What an expansion of bytes comes to: the division by a sum that wrapped to zero, or the table. */
  datatype Expansion = DividedByZero | Expanded(table: seq<int>)

  function ExpansionOf(width: Width, ws: seq<int>): Expansion
    requires width.Wide? ==> width.word > 0
  {
    var sum := Sum(width, SumOf(ws));
    if ws == [] then Expanded([0])
    else if sum == 0 then DividedByZero
    else Expanded(WrappedTable(width, ws, sum))
  }

  /** Exactly the lists of up to 32767 bytes expand to a proper table, and theirs is the exact one. */
  lemma ProperExactlyWhenShort(width: Width, dcmf: seq<Byte>)
    requires width.Wide? ==> width.word >= 65536
    ensures var e := ExpansionOf(width, WeightsOf(dcmf));
            && (e.Expanded? && Proper(e.table) <==> |dcmf| <= MAXVAL)
            && (|dcmf| <= MAXVAL ==> Weights(WeightsOf(dcmf)) && e == Expanded(Table(WeightsOf(dcmf))))
  {
    hide Wrapped, Entry;
    var ws := WeightsOf(dcmf);
    var e := ExpansionOf(width, ws);
    if |dcmf| <= MAXVAL {
      WeightsAreWeights(dcmf);
      TableShape(ws);
      if ws != [] {
        WrappedIsExact(width, ws);
      } else {
        assert Table(ws) == [Table(ws)[0]];
      }
    } else if e.Expanded? && Proper(e.table) {
      LengthBoundIsNeeded(e.table);
    }
  }

  /** Both passes in place: each weight is replaced by its entry. */
  method CelpDcmfToCmf(dcmf: seq<Byte>, dcmfLen: nat, cmf: array<int>) returns (panicked: bool)
    requires dcmfLen <= |dcmf| && dcmfLen < cmf.Length
    modifies cmf
    ensures var e := ExpansionOf(Narrow, WeightsOf(dcmf[..dcmfLen]));
            (panicked <==> e.DividedByZero?) && (!panicked ==> cmf[..dcmfLen + 1] == e.table)
    ensures dcmfLen <= MAXVAL ==> !panicked && Weights(WeightsOf(dcmf[..dcmfLen]))
                                  && cmf[..dcmfLen + 1] == Table(WeightsOf(dcmf[..dcmfLen]))
    ensures cmf[dcmfLen + 1..] == old(cmf[dcmfLen + 1..])
  {
    ProperExactlyWhenShort(Narrow, dcmf[..dcmfLen]);
    var sum := Squares(dcmf[..dcmfLen], cmf, Narrow);
    panicked := Accumulate(WeightsOf(dcmf[..dcmfLen]), sum, dcmfLen, cmf, Narrow);
  }

  /** The second pass, over the weights the first one left at positions 1 and up. */
  method Accumulate(ghost ws: seq<int>, sum: int, n: nat, cmf: array<int>, width: Width) returns (panicked: bool)
    requires |ws| == n < cmf.Length && cmf[1..n + 1] == ws && sum == Sum(width, SumOf(ws))
    requires width.Wide? ==> width.word > 0
    modifies cmf
    ensures panicked <==> ExpansionOf(width, ws).DividedByZero?
    ensures !panicked ==> cmf[..n + 1] == ExpansionOf(width, ws).table
    ensures cmf[n + 1..] == old(cmf[n + 1..])
  {
    hide SumOf, Next, Sum;
    ghost var squares := cmf[..];
    assert forall i :: 0 < i <= n ==> squares[i] == cmf[1..n + 1][i - 1];
    cmf[0] := 0;
    panicked := n > 0 && sum == 0;
    if !panicked {
      for i := 1 to n + 1
        invariant forall k :: 0 < k < i ==> cmf[k] == Wrapped(width, ws, sum, k)
        invariant cmf[0] == 0
        invariant forall k :: i <= k < cmf.Length ==> cmf[k] == squares[k]
      {
        cmf[i] := Next(width, cmf[i - 1], cmf[i], sum, n);
      }
    }
    assert squares[n + 1..] == old(cmf[n + 1..]);
    assert forall i :: n + 1 <= i < cmf.Length ==> cmf[i] == squares[n + 1..][i - n - 1];
  }

  /** The versions for the line-spectrum and pitch tables compute in 64 bits and allocate their result. */
  method LsfDcmfToCmf(dcmf: seq<Byte>) returns (cmf: array<int>)
    ensures fresh(cmf) && Expanded(cmf[..]) == ExpansionOf(Wide(65536), WeightsOf(dcmf))
    ensures |dcmf| <= MAXVAL ==> Weights(WeightsOf(dcmf)) && cmf[..] == Table(WeightsOf(dcmf))
  {
    cmf := Expand(dcmf, 65536);
  }

  method PitchDcmfToCmf(dcmf: seq<Byte>) returns (cmf: array<int>)
    ensures fresh(cmf) && Expanded(cmf[..]) == ExpansionOf(Wide(TWO32), WeightsOf(dcmf))
    ensures |dcmf| <= MAXVAL ==> Weights(WeightsOf(dcmf)) && cmf[..] == Table(WeightsOf(dcmf))
  {
    cmf := Expand(dcmf, TWO32);
  }

  /** What the two have in common: 64-bit sums of squares are never zero. */
  method Expand(dcmf: seq<Byte>, word: int) returns (cmf: array<int>)
    requires word >= 65536
    ensures fresh(cmf) && Expanded(cmf[..]) == ExpansionOf(Wide(word), WeightsOf(dcmf))
    ensures |dcmf| <= MAXVAL ==> Weights(WeightsOf(dcmf)) && cmf[..] == Table(WeightsOf(dcmf))
  {
    SumBounds(WeightsOf(dcmf));
    ProperExactlyWhenShort(Wide(word), dcmf);
    cmf := new int[|dcmf| + 1];
    var sum := Squares(dcmf, cmf, Wide(word));
    var panicked := Accumulate(WeightsOf(dcmf), sum, |dcmf|, cmf, Wide(word));
    assert cmf[..|dcmf| + 1] == cmf[..];
  }

  method SumUp(ws: seq<int>) returns (sum: int)
    ensures sum == SumOf(ws)
  {
    sum := 0;
    for i := 0 to |ws|
      invariant sum == SumOf(ws[..i])
    {
      SumStep(ws, i);
      sum := sum + ws[i];
    }
    assert ws[..|ws|] == ws;
  }

  lemma ProperExpansion(pdf: seq<int>)
    requires Weights(pdf)
    ensures pdf != [] ==> SumOf(pdf) != 0
    ensures ExpansionOf(Wide(65536), pdf) == Expanded(Table(pdf))
  {
    if pdf != [] {
      WrappedIsExact(Wide(65536), pdf);
    } else {
      TableShape(pdf);
      assert Table(pdf) == [0] == WrappedTable(Wide(65536), pdf, 1);
    }
  }

  /** From probabilities rather than bytes, of any sign. */
  method PdfToCmf(pdf: seq<int>) returns (cmf: array<int>, panicked: bool)
    ensures fresh(cmf)
    ensures panicked <==> pdf != [] && SumOf(pdf) == 0
    ensures !panicked ==> Expanded(cmf[..]) == ExpansionOf(Wide(65536), pdf)
    ensures Weights(pdf) ==> !panicked && cmf[..] == Table(pdf)
  {
    hide SumOf, Next, Weights, Table;
    var n := |pdf|;
    var sump := SumUp(pdf);
    cmf := new int[n + 1](i => 0);
    panicked := n > 0 && sump == 0;
    if !panicked {
      ghost var table := if pdf == [] then [0] else WrappedTable(Wide(65536), pdf, sump);
      for i := 0 to n
        invariant cmf[..i + 1] == table[..i + 1]
      {
        assert table[i] == cmf[i] && table[i + 1] == Wrapped(Wide(65536), pdf, sump, i + 1);
        cmf[i + 1] := Next(Wide(65536), cmf[i], pdf[i], sump, n);
      }
      assert cmf[..] == table;
    }
    if Weights(pdf) {
      ProperExpansion(pdf);
    }
  }
}
