/** Signed 32-bit arithmetic as the codec's integer code uses it. */
module Fixed {

  const TWO31 := 0x8000_0000
  const TWO32 := 0x1_0000_0000

  predicate IsInt32(x: int) {
    -TWO31 <= x < TWO31
  }

  /** Two's complement wrap-around. */
  function Wrap32(x: int): (r: int)
    ensures IsInt32(r)
    ensures IsInt32(x) ==> r == x
  {
    (x + TWO31) % TWO32 - TWO31
  }

  function Wrap16(x: int): (r: int)
    ensures -32768 <= r < 32768
    ensures -32768 <= x < 32768 ==> r == x
  {
    (x + 32768) % 65536 - 32768
  }

  /** Division that truncates toward zero. */
  function TruncDiv(a: int, b: int): int
    requires b != 0
  {
    if a >= 0 then (if b > 0 then a / b else -(a / -b))
    else (if b > 0 then -(-a / b) else -a / -b)
  }

  /** Arithmetic shift to the right, which rounds down. */
  function Shr(x: int, powerOfTwo: int): int
    requires powerOfTwo >= 1
  {
    x / powerOfTwo
  }
}
