/**
  The entropy-coded symbol channel. A symbol written under a table comes back when it is read under
  the same table; the reader's preconditions make choosing that table an obligation of the decoder.
 */
module Symbols {

  /** A cumulative table, named by how the codec selects it. */
  datatype Cdf =
    | LsfSel(row: int)
    | LsfGrid(matched: bool, nonZero: bool)
    | LsfStage2(stage1: int, config: int, grid: int, k: int)
    | LsfExtra
    | NrgresGain4
    | NrgresShape4
    | FcbgOffset(bucket: int, minOffset: int)
    | AcbgainRow(lowRate: bool, prev: int)
    | FcbgainV
    | FcbgainVDelta(prev: int)
    | SplitWindow(count: int, start: int, n: int)
    | RunWindow(oct: int, c: int, start: int, n: int)
    | LagBlock(mode: int)

  datatype Symbol =
    | Coded(cdf: Cdf, value: int)
    | Raw(sym: nat, nbits: nat)
    | Interval(fl: int, fh: int, ft: int)

  /** The symbols xs stand in the stream from position i on. */
  ghost predicate At(stream: seq<Symbol>, i: nat, xs: seq<Symbol>) {
    i + |xs| <= |stream| && stream[i..i + |xs|] == xs
  }

  lemma AtSplit(stream: seq<Symbol>, i: nat, xs: seq<Symbol>, ys: seq<Symbol>)
    requires At(stream, i, xs + ys)
    ensures At(stream, i, xs) && At(stream, i + |xs|, ys)
  {
    var all := xs + ys;
    assert stream[i..i + |all|][..|xs|] == all[..|xs|] == xs;
    assert stream[i..i + |all|][|xs|..] == all[|xs|..] == ys;
  }

  lemma AtElement(stream: seq<Symbol>, i: nat, xs: seq<Symbol>, k: nat)
    requires At(stream, i, xs) && k < |xs|
    ensures i + k < |stream| && stream[i + k] == xs[k]
  {
    assert stream[i..i + |xs|][k] == xs[k];
  }

  class SymbolWriter {
    var written: seq<Symbol>

    constructor ()
      ensures written == []
    {
      written := [];
    }

    method EncodeCdf(value: int, cdf: Cdf)
      modifies this
      ensures written == old(written) + [Coded(cdf, value)]
    {
      written := written + [Coded(cdf, value)];
    }

    method EncodeRaw(sym: nat, nbits: nat)
      modifies this
      ensures written == old(written) + [Raw(sym, nbits)]
    {
      written := written + [Raw(sym, nbits)];
    }

    method EncodeInterval(fl: int, fh: int, ft: int)
      modifies this
      ensures written == old(written) + [Interval(fl, fh, ft)]
    {
      written := written + [Interval(fl, fh, ft)];
    }
  }

  class SymbolReader {
    const stream: seq<Symbol>
    var next: nat

    constructor (stream: seq<Symbol>)
      ensures this.stream == stream && next == 0
    {
      this.stream := stream;
      next := 0;
    }

    /** The decoder must name the table the symbol was written under. */
    method DecodeCdf(cdf: Cdf) returns (value: int)
      requires next < |stream| && stream[next].Coded? && stream[next].cdf == cdf
      modifies this
      ensures next == old(next) + 1 && value == stream[old(next)].value
    {
      value := stream[next].value;
      next := next + 1;
    }

    method DecodeRaw(nbits: nat) returns (sym: nat)
      requires next < |stream| && stream[next].Raw? && stream[next].nbits == nbits
      modifies this
      ensures next == old(next) + 1 && sym == stream[old(next)].sym
    {
      sym := stream[next].sym;
      next := next + 1;
    }

    /** Any point of the written interval; which one depends on the symbols that follow. */
    method Decode(ft: int) returns (val: int)
      requires next < |stream| && stream[next].Interval? && stream[next].ft == ft
      requires stream[next].fl < stream[next].fh
      ensures stream[next].fl <= val < stream[next].fh
    {
      val :| stream[next].fl <= val < stream[next].fh;
    }

    /** Consumes the interval, which must be the one that was written. */
    method Update(fl: int, fh: int, ft: int)
      requires next < |stream| && stream[next] == Interval(fl, fh, ft)
      modifies this
      ensures next == old(next) + 1
    {
      next := next + 1;
    }
  }
}
