/** Linear interpolation from one sample rate to another, fed in chunks. Samples and positions are reals. */
module Resampler {

  /** Where output k lies in the stream of all samples. */
  function Place(k: nat, step: real): real {
    k as real * step
  }

  /** Output k needs the sample after its place. */
  predicate Due(k: nat, n: nat, step: real) {
    Place(k, step) + 1.0 < n as real
  }

  lemma TimesPositive(a: real, b: real)
    requires b > 0.0
    ensures a * b > 0.0 <==> a > 0.0
  {
    if a > 0.0 {
      assert a * b > 0.0;
    } else {
      assert a * b <= 0.0;
    }
  }

  lemma QuotientPositive(a: real, b: real)
    requires a > 0.0 && b > 0.0
    ensures a / b > 0.0
  {
    assert a / b * b == a;
    TimesPositive(a / b, b);
  }

  lemma PlaceStep(k: nat, step: real)
    requires step > 0.0
    ensures Place(0, step) == 0.0 && Place(k + 1, step) == Place(k, step) + step && Place(k, step) >= 0.0
  {
  }

  /** How many outputs n samples allow: exactly those that are due. */
  function Count(n: nat, step: real): (c: nat)
    requires step > 0.0
    ensures forall k: nat :: Due(k, n, step) <==> k < c
  {
    CountLimit(n, step);
    if n <= 1 then 0 else -(-((n - 1) as real / step)).Floor
  }

  lemma CountLimit(n: nat, step: real)
    requires step > 0.0
    ensures n > 1 ==> -(-((n - 1) as real / step)).Floor >= 0
    ensures forall k: nat :: Due(k, n, step) <==> k < if n <= 1 then 0 else -(-((n - 1) as real / step)).Floor
  {
    if n > 1 {
      QuotientPositive((n - 1) as real, step);
    }
    forall k: nat
      ensures Due(k, n, step) <==> k < if n <= 1 then 0 else -(-((n - 1) as real / step)).Floor
    {
      if n <= 1 {
        PlaceStep(k, step);
      } else {
        DueBelow(k, n, step);
      }
    }
  }

  lemma DueBelow(k: nat, n: nat, step: real)
    requires step > 0.0 && n > 1
    ensures Due(k, n, step) <==> k < -(-((n - 1) as real / step)).Floor
  {
    var limit := (n - 1) as real / step;
    assert limit * step == (n - 1) as real;
    TimesPositive(limit - k as real, step);
    assert (limit - k as real) * step == limit * step - Place(k, step);
  }

  lemma CountGrows(n: nat, m: nat, step: real)
    requires step > 0.0 && n <= m
    ensures Count(n, step) <= Count(m, step)
  {
    if Count(n, step) > 0 {
      var k := Count(n, step) - 1;
      assert Due(k, n, step);
      assert Due(k, m, step);
    }
  }

  function Between(a: real, b: real, fraction: real): real {
    a + Along(b - a, fraction)
  }

  function Along(slope: real, x: real): real {
    slope * x
  }

  /** Output k, interpolated between the two neighbours of its place in the whole stream. */
  function Sample(stream: seq<real>, step: real, k: nat): real
    requires step > 0.0 && k < Count(|stream|, step)
  {
    var x := Place(k, step);
    PlaceInRange(stream, step, k);
    var i := x.Floor;
    Between(stream[i], stream[i + 1], x - i as real)
  }

  lemma PlaceInRange(stream: seq<real>, step: real, k: nat)
    requires step > 0.0 && k < Count(|stream|, step)
    ensures 0 <= Place(k, step).Floor < |stream| - 1
  {
    PlaceStep(k, step);
    assert Due(k, |stream|, step);
  }

  /** Straight lines are resampled exactly, at every rate: the output at a place is the line there. */
  lemma LinesAreExact(stream: seq<real>, step: real, k: nat, start: real, slope: real)
    requires step > 0.0 && k < Count(|stream|, step)
    requires forall i :: 0 <= i < |stream| ==> stream[i] == start + Along(slope, i as real)
    ensures Sample(stream, step, k) == start + Along(slope, Place(k, step))
  {
    PlaceInRange(stream, step, k);
    var x := Place(k, step);
    var i := x.Floor;
    LineBetween(start, slope, i as real, x);
    assert (i + 1) as real == i as real + 1.0;
  }

  lemma LineBetween(start: real, slope: real, i: real, x: real)
    ensures Between(start + Along(slope, i), start + Along(slope, i + 1.0), x - i) == start + Along(slope, x)
  {
    assert Along(slope, i + 1.0) - Along(slope, i) == slope;
  }

  /** Only the two samples around its place decide an output, and it lies between them. */
  lemma SampleIsLocal(stream: seq<real>, other: seq<real>, step: real, k: nat)
    requires step > 0.0 && k < Count(|stream|, step) && k < Count(|other|, step)
    requires 0 <= Place(k, step).Floor < |stream| - 1 && Place(k, step).Floor < |other| - 1
    requires var i := Place(k, step).Floor; stream[i] == other[i] && stream[i + 1] == other[i + 1]
    ensures Sample(stream, step, k) == Sample(other, step, k)
    ensures var i := Place(k, step).Floor;
            var (a, b, y) := (stream[i], stream[i + 1], Sample(stream, step, k));
            a <= y <= b || b <= y <= a
  {
    var x := Place(k, step);
    BetweenEnds(stream[x.Floor], stream[x.Floor + 1], x - x.Floor as real);
  }

  lemma BetweenEnds(a: real, b: real, f: real)
    requires 0.0 <= f <= 1.0
    ensures a <= Between(a, b, f) <= b || b <= Between(a, b, f) <= a
  {
    hide Along;
    PartOf(b - a, f);
  }

  lemma PartOf(d: real, f: real)
    requires 0.0 <= f <= 1.0
    ensures 0.0 <= Along(d, f) <= d || d <= Along(d, f) <= 0.0
  {
    var rest := 1.0 - f;
    if d >= 0.0 {
      assert d * f >= 0.0 && d * rest >= 0.0;
    } else {
      assert d * f <= 0.0 && d * rest <= 0.0;
    }
    assert d * f + d * rest == d;
  }

  function Outputs(stream: seq<real>, step: real): (out: seq<real>)
    requires step > 0.0
    ensures |out| == Count(|stream|, step)
  {
    seq(Count(|stream|, step), k requires 0 <= k < Count(|stream|, step) => Sample(stream, step, k))
  }

  /** Where the next output lies, counted from the last sample seen. */
  function PosOf(stream: seq<real>, step: real): real
    requires step > 0.0
  {
    if stream == [] then 0.0 else Place(Count(|stream|, step), step) - (|stream| - 1) as real
  }

  /** More input never changes outputs already made. */
  lemma OutputsExtend(stream: seq<real>, more: seq<real>, step: real)
    requires step > 0.0
    ensures Outputs(stream, step) <= Outputs(stream + more, step)
  {
    CountGrows(|stream|, |stream + more|, step);
    var a, b := Outputs(stream, step), Outputs(stream + more, step);
    forall k: nat | k < |a|
      ensures a[k] == b[k]
    {
      PlaceInRange(stream, step, k);
    }
  }

  /** What one call adds for a chunk that follows the stream so far. */
  function Added(stream: seq<real>, chunk: seq<real>, step: real): seq<real>
    requires step > 0.0
  {
    OutputsExtend(stream, chunk, step);
    Outputs(stream + chunk, step)[|Outputs(stream, step)|..]
  }

  /** Chunk invariance: two chunks give what their concatenation gives. */
  lemma ChunksJoin(stream: seq<real>, a: seq<real>, b: seq<real>, step: real)
    requires step > 0.0
    ensures Added(stream, a, step) + Added(stream + a, b, step) == Added(stream, a + b, step)
    ensures PosOf(stream + a + b, step) == PosOf(stream + (a + b), step)
  {
    assert stream + a + b == stream + (a + b);
    OutputsExtend(stream, a, step);
    OutputsExtend(stream + a, b, step);
    var x, y, z := Outputs(stream, step), Outputs(stream + a, step), Outputs(stream + a + b, step);
    assert y == z[..|y|];
    assert z[|x|..] == y[|x|..] + z[|y|..];
  }

  class LinearResampler {
    const inRate: real
    const outRate: real
    var pos: real
    var last: real
    var hasLast: bool
    ghost var stream: seq<real>

    ghost predicate Valid()
      reads this
    {
      && inRate > 0.0 && outRate > 0.0 && inRate / outRate > 0.0
      && hasLast == (stream != [])
      && (stream != [] ==> last == stream[|stream| - 1])
      && pos == PosOf(stream, inRate / outRate)
    }

    constructor (inRate: nat, outRate: nat)
      requires inRate > 0 && outRate > 0
      ensures Valid() && stream == [] && this.inRate == inRate as real && this.outRate == outRate as real
    {
      this.inRate, this.outRate := inRate as real, outRate as real;
      pos, hasLast := 0.0, false;
      stream := [];
      new;
      QuotientPositive(inRate as real, outRate as real);
    }

    /** Output and new state depend only on the stream so far and the chunk, not on earlier chunk borders. */
    method Process(input: seq<real>) returns (output: seq<real>)
      requires Valid()
      modifies this
      ensures Valid() && stream == old(stream) + input
      ensures output == Added(old(stream), input, inRate / outRate)
    {
      hide Count, Outputs, Sample, Place;
      ghost var all := stream + input;
      if |input| == 0 {
        assert all == stream;
        return [];
      }
      var data := input;
      if hasLast {
        data := [last] + input;
      }
      assert data == all[|all| - |data|..];
      var step := inRate / outRate;
      if |data| < 2 {
        OneSample(all, step);
        last := data[0];
        hasLast := true;
        stream := all;
        return [];
      }
      output, pos := Interpolate(data, step, pos, stream, all);
      pos := pos - (|data| - 1) as real;
      last := data[|data| - 1];
      hasLast := true;
      stream := all;
    }
  }

  lemma OneSample(all: seq<real>, step: real)
    requires step > 0.0 && |all| == 1
    ensures Outputs(all, step) == Outputs([], step) == [] && PosOf(all, step) == 0.0
  {
    PlaceStep(0, step);
  }

  /** The loop: `data` is the whole stream from some index on, and positions count from there. */
  method Interpolate(data: seq<real>, step: real, pos0: real, ghost stream: seq<real>, ghost all: seq<real>)
    returns (output: seq<real>, pos: real)
    requires step > 0.0 && |data| >= 2 && |data| <= |all| && data == all[|all| - |data|..]
    requires stream <= all && |all| - |data| == (if stream == [] then 0 else |stream| - 1)
    requires pos0 == PosOf(stream, step)
    ensures Outputs(stream, step) <= Outputs(all, step) && output == Outputs(all, step)[|Outputs(stream, step)|..]
    ensures pos == Place(Count(|all|, step), step) - (|all| - |data|) as real
  {
    ghost var base := |all| - |data|;
    ghost var k := Count(|stream|, step);
    ghost var k0 := k;
    OutputsExtend(stream, all[|stream|..], step);
    assert stream + all[|stream|..] == all;
    StartsInside(stream, step);
    output, pos := [], pos0;
    while pos + 1.0 < |data| as real
      invariant k0 <= k <= Count(|all|, step)
      invariant pos == Place(k, step) - base as real && pos >= 0.0
      invariant output == Outputs(all, step)[k0..k]
      decreases Count(|all|, step) - k
    {
      assert Due(k, |all|, step);
      PlaceStep(k, step);
      ghost var before := output;
      output := output + InterpolateOne(data, pos, step, k, all);
      pos := pos + step;
      k := k + 1;
    }
    assert !Due(k, |all|, step);
  }

  lemma StartsInside(stream: seq<real>, step: real)
    requires step > 0.0
    ensures PosOf(stream, step) >= 0.0
    ensures stream == [] ==> Place(Count(0, step), step) == 0.0
  {
    PlaceStep(0, step);
    if stream == [] {
      assert !Due(0, 0, step);
    } else {
      assert !Due(Count(|stream|, step), |stream|, step);
    }
  }

  /** One turn of the loop body. */
  function InterpolateOne(data: seq<real>, pos: real, step: real, ghost k: nat, ghost all: seq<real>): (out: seq<real>)
    requires step > 0.0 && |data| <= |all| && data == all[|all| - |data|..]
    requires k < Count(|all|, step) && pos >= 0.0 && pos + 1.0 < |data| as real
    requires pos == Place(k, step) - (|all| - |data|) as real
    ensures out == [Outputs(all, step)[k]]
  {
    var index := pos.Floor;
    FloorShift(Place(k, step), |all| - |data|);
    PlaceInRange(all, step, k);
    var fraction := pos - index as real;
    assert Outputs(all, step)[k] == Sample(all, step, k);
    assert data[index] == all[Place(k, step).Floor] && data[index + 1] == all[Place(k, step).Floor + 1];
    assert fraction == Place(k, step) - Place(k, step).Floor as real;
    [Between(data[index], data[index + 1], fraction)]
  }

  lemma FloorShift(x: real, n: nat)
    ensures (x - n as real).Floor == x.Floor - n
  {
  }
}
