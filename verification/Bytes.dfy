/** Bytes and big-endian words. */
module Bytes {
  import opened Arith

  type Byte = x: int | 0 <= x < 256

  type Word16 = x: int | 0 <= x < 0x1_0000

  type Word32 = x: int | 0 <= x < 0x1_0000_0000

  function Zeros(n: nat): (b: seq<Byte>)
    ensures |b| == n
  {
    seq(n, i => 0)
  }

  function Be16(x: int): (b: seq<Byte>)
    ensures |b| == 2
  {
    [x / 256 % 256, x % 256]
  }

  function Be32(x: int): (b: seq<Byte>)
    ensures |b| == 4
  {
    Be16(x / 65536) + Be16(x % 65536)
  }

  function U16(b: seq<Byte>, i: nat): Word16
    requires i + 2 <= |b|
  {
    b[i] as int * 256 + b[i + 1] as int
  }

  function U32(b: seq<Byte>, i: nat): Word32
    requires i + 4 <= |b|
  {
    U16(b, i) as int * 65536 + U16(b, i + 2) as int
  }

  lemma Read16(b: seq<Byte>, i: nat, x: Word16)
    requires i + 2 <= |b| && b[i..i + 2] == Be16(x)
    ensures U16(b, i) == x
  {
    assert b[i] == b[i..i + 2][0] && b[i + 1] == b[i..i + 2][1];
  }

  lemma Read32(b: seq<Byte>, i: nat, x: Word32)
    requires i + 4 <= |b| && b[i..i + 4] == Be32(x)
    ensures U32(b, i) == x
  {
    var w := Be32(x);
    assert b[i..i + 2] == w[..2] == Be16(x / 65536) by {
      assert b[i..i + 4][..2] == b[i..i + 2];
    }
    assert b[i + 2..i + 4] == w[2..] == Be16(x % 65536) by {
      assert b[i..i + 4][2..] == b[i + 2..i + 4];
    }
    Read16(b, i, x / 65536);
    Read16(b, i + 2, x % 65536);
  }

  lemma SliceOfSlice(b: seq<Byte>, lo: nat, hi: nat, i: nat, j: nat)
    requires lo <= hi <= |b| && i <= j <= hi - lo
    ensures b[lo..hi][i..j] == b[lo + i..lo + j]
  {
    var x, y := b[lo..hi][i..j], b[lo + i..lo + j];
    forall k | 0 <= k < j - i
      ensures x[k] == y[k]
    {
      assert x[k] == b[lo..hi][i + k] == b[lo + (i + k)];
    }
  }

  lemma Rejoined(a: seq<Byte>, b: seq<Byte>)
    ensures (a + b)[0..|a|] == a && (a + b)[|a|..|a| + |b|] == b
  {
  }

  /** Two stores side by side are one store of both. */
  lemma TwoWrites(was: seq<Byte>, at: nat, x: seq<Byte>, y: seq<Byte>)
    requires at + |x| + |y| <= |was|
    ensures var b := was[..at] + x + was[at + |x|..];
            b[..at + |x|] + y + b[at + |x| + |y|..] == was[..at] + (x + y) + was[at + |x| + |y|..]
  {
    var b := was[..at] + x + was[at + |x|..];
    assert b[..at + |x|] == was[..at] + x;
    assert b[at + |x| + |y|..] == was[at + |x| + |y|..];
  }

  method PutUint16(buf: array<Byte>, i: nat, x: int)
    requires i + 2 <= buf.Length
    modifies buf
    ensures buf[..] == old(buf[..i]) + Be16(x) + old(buf[i + 2..])
  {
    buf[i] := x / 256 % 256;
    buf[i + 1] := x % 256;
  }

  method PutUint32(buf: array<Byte>, i: nat, x: Word32)
    requires i + 4 <= buf.Length
    modifies buf
    ensures buf[..] == old(buf[..i]) + Be32(x) + old(buf[i + 4..])
  {
    PutUint16(buf, i, x / 65536);
    PutUint16(buf, i + 2, x % 65536);
  }

  /** Overwrites part of a buffer. */
  method Copy(buf: array<Byte>, i: nat, src: seq<Byte>)
    requires i + |src| <= buf.Length
    modifies buf
    ensures buf[..] == old(buf[..i]) + src + old(buf[i + |src|..])
  {
    for k := 0 to |src|
      invariant buf[..i] == old(buf[..i]) && buf[i + |src|..] == old(buf[i + |src|..])
      invariant forall j :: 0 <= j < k ==> buf[i + j] == src[j]
    {
      buf[i + k] := src[k];
    }
    assert buf[..] == buf[..i] + buf[i..i + |src|] + buf[i + |src|..];
  }

  // ----- exclusive or -----

  /** Exclusive or of the low n bits. */
  function Xor(a: nat, b: nat, n: nat): (r: nat)
    ensures r < Pow2(n)
  {
    if n == 0 then 0 else 2 * Xor(a / 2, b / 2, n - 1) + (a % 2 + b % 2) % 2
  }

  lemma XorStep(a: nat, b: nat, n: nat)
    requires n > 0
    ensures Xor(a, b, n) == 2 * Xor(a / 2, b / 2, n - 1) + (a % 2 + b % 2) % 2
    ensures Xor(a, b, n) / 2 == Xor(a / 2, b / 2, n - 1) && Xor(a, b, n) % 2 == (a % 2 + b % 2) % 2
  {
    DivModUnique(Xor(a, b, n), 2, Xor(a / 2, b / 2, n - 1), (a % 2 + b % 2) % 2);
  }

  lemma {:induction false} XorTwice(a: nat, b: nat, n: nat)
    requires a < Pow2(n)
    ensures Xor(Xor(a, b, n), b, n) == a
  {
    hide Xor;
    if n == 0 {
      XorNothing(Xor(a, b, n), b);
    } else {
      HalfBelow(a, n);
      XorTwice(a / 2, b / 2, n - 1);
      XorStep(a, b, n);
      XorStep(Xor(a, b, n), b, n);
    }
  }

  lemma XorNothing(a: nat, b: nat)
    ensures Xor(a, b, 0) == 0
  {
  }

  lemma HalfBelow(a: nat, n: nat)
    requires n > 0 && a < Pow2(n)
    ensures a / 2 < Pow2(n - 1)
  {
  }

  lemma {:induction false} XorSymmetric(a: nat, b: nat, n: nat)
    ensures Xor(a, b, n) == Xor(b, a, n)
  {
    if n > 0 {
      XorSymmetric(a / 2, b / 2, n - 1);
    }
  }

  lemma Pow2Eight()
    ensures Pow2(8) == 256
  {
    assert Pow2(4) == 16;
  }

  function Xor8(a: Byte, b: Byte): Byte {
    Pow2Eight();
    Xor(a, b, 8)
  }

  lemma Pow2ThirtyTwo()
    ensures Pow2(32) == 0x1_0000_0000
  {
    Pow2Eight();
    assert Pow2(12) == 4096;
    assert Pow2(16) == 65536;
    assert Pow2(20) == 0x10_0000;
    assert Pow2(24) == 0x100_0000;
    assert Pow2(28) == 0x1000_0000;
  }

  function Xor32(a: Word32, b: Word32): Word32 {
    Pow2ThirtyTwo();
    Xor(a, b, 32)
  }
}
