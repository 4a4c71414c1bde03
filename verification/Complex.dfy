/** Complex numbers as pairs of reals, and finite sums of them. */
module Complex {

  datatype Cpx = Cpx(re: real, im: real)

  const ZERO := Cpx(0.0, 0.0)
  const ONE := Cpx(1.0, 0.0)

  function Add(a: Cpx, b: Cpx): Cpx {
    Cpx(a.re + b.re, a.im + b.im)
  }

  function Mul(a: Cpx, b: Cpx): Cpx {
    Cpx(a.re * b.re - a.im * b.im, a.re * b.im + a.im * b.re)
  }

  function Conj(a: Cpx): Cpx {
    Cpx(a.re, -a.im)
  }

  /** `f(0) + f(1) + ... + f(n - 1)`, added from the left as the loops of the codec do. */
  function Sum(n: nat, f: int -> Cpx): Cpx {
    if n == 0 then ZERO else Add(Sum(n - 1, f), f(n - 1))
  }

  lemma MulAssociative(a: Cpx, b: Cpx, c: Cpx)
    ensures Mul(Mul(a, b), c) == Mul(a, Mul(b, c))
  {
  }

  lemma MulDistributes(a: Cpx, b: Cpx, c: Cpx)
    ensures Mul(Add(a, b), c) == Add(Mul(a, c), Mul(b, c))
  {
  }

  lemma MulCommutes(a: Cpx, b: Cpx)
    ensures Mul(a, b) == Mul(b, a)
  {
  }

  lemma MulZero(a: Cpx)
    ensures Mul(ZERO, a) == ZERO
  {
  }

  lemma AddShuffle(a: Cpx, b: Cpx, c: Cpx, d: Cpx)
    ensures Add(Add(a, b), Add(c, d)) == Add(Add(a, c), Add(b, d))
  {
  }

  lemma ConjMul(a: Cpx, b: Cpx)
    ensures Conj(Mul(a, b)) == Mul(Conj(a), Conj(b))
  {
  }

  lemma SquarePositive(x: real)
    ensures x * x >= 0.0 && (x != 0.0 ==> x * x > 0.0)
  {
  }

  /** There are no zero divisors: a product with a nonzero factor vanishes only with the other factor. */
  lemma NoZeroDivisors(a: Cpx, b: Cpx)
    requires Mul(a, b) == ZERO && a != ZERO
    ensures b == ZERO
  {
    var x, y := a.re, a.im;
    SquarePositive(x);
    SquarePositive(y);
    var norm := x * x + y * y;
    assert a == Cpx(x, y);
    assert x != 0.0 || y != 0.0;
    var c := Mul(a, b);
    assert norm * b.re == x * c.re + y * c.im == 0.0;
    assert norm * b.im == x * c.im - y * c.re == 0.0;
  }

  lemma {:induction false} SumExtensional(n: nat, f: int -> Cpx, g: int -> Cpx)
    requires forall i :: 0 <= i < n ==> f(i) == g(i)
    ensures Sum(n, f) == Sum(n, g)
  {
    if n > 0 {
      SumExtensional(n - 1, f, g);
    }
  }

  lemma {:induction false} SumOfSums(n: nat, f: int -> Cpx, g: int -> Cpx, h: int -> Cpx)
    requires forall i :: 0 <= i < n ==> h(i) == Add(f(i), g(i))
    ensures Sum(n, h) == Add(Sum(n, f), Sum(n, g))
  {
    if n > 0 {
      SumOfSums(n - 1, f, g, h);
      AddShuffle(Sum(n - 1, f), Sum(n - 1, g), f(n - 1), g(n - 1));
    }
  }

  lemma {:induction false} SumScaled(n: nat, f: int -> Cpx, c: Cpx, h: int -> Cpx)
    requires forall i :: 0 <= i < n ==> h(i) == Mul(f(i), c)
    ensures Sum(n, h) == Mul(Sum(n, f), c)
  {
    if n > 0 {
      SumScaled(n - 1, f, c, h);
      MulDistributes(Sum(n - 1, f), f(n - 1), c);
    }
  }

  lemma {:induction false} SumZero(n: nat, f: int -> Cpx)
    requires forall i :: 0 <= i < n ==> f(i) == ZERO
    ensures Sum(n, f) == ZERO
  {
    if n > 0 {
      SumZero(n - 1, f);
    }
  }

  /** A sum whose terms all vanish but one is that term. */
  lemma {:induction false} SumSingle(n: nat, f: int -> Cpx, t: nat)
    requires t < n && forall i :: 0 <= i < n && i != t ==> f(i) == ZERO
    ensures Sum(n, f) == f(t)
  {
    if t == n - 1 {
      SumZero(n - 1, f);
    } else {
      SumSingle(n - 1, f, t);
    }
  }

  lemma {:induction false} SumConj(n: nat, f: int -> Cpx, g: int -> Cpx)
    requires forall i :: 0 <= i < n ==> g(i) == Conj(f(i))
    ensures Sum(n, g) == Conj(Sum(n, f))
  {
    if n > 0 {
      SumConj(n - 1, f, g);
    }
  }

  /** The terms of `f` at `q, q + p, q + 2p, ...`. */
  function Column(f: int -> Cpx, p: nat, q: int): int -> Cpx {
    (r: int) => f(q + p * r)
  }

  function ColumnSums(f: int -> Cpx, p: nat, m: nat): int -> Cpx {
    (q: int) => Sum(m, Column(f, p, q))
  }

  function Shifted(f: int -> Cpx, start: int): int -> Cpx {
    (q: int) => f(start + q)
  }

  lemma {:induction false} SumSplit(a: nat, b: nat, f: int -> Cpx)
    ensures Sum(a + b, f) == Add(Sum(a, f), Sum(b, Shifted(f, a)))
  {
    if b > 0 {
      SumSplit(a, b - 1, f);
    }
  }

  /** Going round: a sum that starts one place later is the same if the end meets the beginning. */
  lemma SumTurned(n: nat, f: int -> Cpx)
    requires f(0) == f(n)
    ensures Sum(n, Shifted(f, 1)) == Sum(n, f)
  {
    var turned := Sum(n, Shifted(f, 1));
    SumSplit(1, n, f);
    assert Sum(1, f) == Add(Sum(0, f), f(0)) == f(0);
    assert Add(f(0), turned) == Add(Sum(n, f), f(n));
  }

  /** Decimation: a sum of `p * m` terms is the sum of its `p` interleaved columns. */
  lemma {:induction false} SumByColumns(p: nat, m: nat, f: int -> Cpx)
    ensures Sum(p * m, f) == Sum(p, ColumnSums(f, p, m))
  {
    hide Add;
    if m == 0 {
      SumZero(p, ColumnSums(f, p, m));
    } else {
      var head := p * (m - 1);
      assert p * m == head + p;
      SumByColumns(p, m - 1, f);
      SumSplit(head, p, f);
      forall q | 0 <= q < p
        ensures ColumnSums(f, p, m)(q) == Add(ColumnSums(f, p, m - 1)(q), Shifted(f, head)(q))
      {
        assert q + head == head + q;
      }
      SumOfSums(p, ColumnSums(f, p, m - 1), Shifted(f, head), ColumnSums(f, p, m));
    }
  }

  function Grid(f: (int, int) -> Cpx, j: int): int -> Cpx {
    (k: int) => f(j, k)
  }

  function Transposed(f: (int, int) -> Cpx, k: int): int -> Cpx {
    (j: int) => f(j, k)
  }

  function RowSums(f: (int, int) -> Cpx, b: nat): int -> Cpx {
    (j: int) => Sum(b, Grid(f, j))
  }

  function TransposedSums(f: (int, int) -> Cpx, a: nat): int -> Cpx {
    (k: int) => Sum(a, Transposed(f, k))
  }

  /** The order of a double sum does not matter. */
  lemma {:induction false} SumExchange(a: nat, b: nat, f: (int, int) -> Cpx)
    ensures Sum(a, RowSums(f, b)) == Sum(b, TransposedSums(f, a))
  {
    if a == 0 {
      SumZero(b, TransposedSums(f, a));
    } else {
      SumExchange(a - 1, b, f);
      SumOfSums(b, TransposedSums(f, a - 1), Grid(f, a - 1), TransposedSums(f, a));
    }
  }
}
