/** Java's fixed-width integers as subset types of `int`, with the two's
    complement wrap-around that `long` addition and counting perform. */
module JavaNumbers {

  const LONG_MIN: int := -0x8000_0000_0000_0000
  const LONG_MAX: int := 0x7FFF_FFFF_FFFF_FFFF
  const LONG_MODULUS: int := 0x1_0000_0000_0000_0000

  type Long = x: int | LONG_MIN <= x <= LONG_MAX
  type Int = x: int | -0x8000_0000 <= x <= 0x7FFF_FFFF
  type Byte = x: int | -128 <= x <= 127

  /** The `long` that `x` becomes when truncated to 64 bits. */
  function WrapLong(x: int): (r: Long)
    ensures (r - x) % LONG_MODULUS == 0
    ensures LONG_MIN <= x <= LONG_MAX ==> r == x
  {
    (x - LONG_MIN) % LONG_MODULUS + LONG_MIN
  }

  /** Wrapping once more after adding `y` gives the same `long` as wrapping the exact sum. */
  lemma WrapAddLeft(x: int, y: int)
    ensures WrapLong(WrapLong(x) + y) == WrapLong(x + y)
  {
    var k := (WrapLong(x) - x) / LONG_MODULUS;
    assert WrapLong(x) + y - LONG_MIN == (x + y - LONG_MIN) + k * LONG_MODULUS;
    ModuloShift(x + y - LONG_MIN, k);
  }

  lemma ModuloShift(a: int, k: int)
    ensures (a + k * LONG_MODULUS) % LONG_MODULUS == a % LONG_MODULUS
  {
    var q := a / LONG_MODULUS;
    var m := a % LONG_MODULUS;
    assert a + k * LONG_MODULUS == (q + k) * LONG_MODULUS + m;
  }

  /** `Long.sum`: 64-bit addition that wraps on overflow. */
  function LongAdd(a: Long, b: Long): Long {
    WrapLong(a + b)
  }

  /** `Math.min` on `long`. */
  function LongMin(a: Long, b: Long): (r: Long)
    ensures r <= a && r <= b && (r == a || r == b)
  {
    if a <= b then a else b
  }

  /** `Math.max` on `long`. */
  function LongMax(a: Long, b: Long): (r: Long)
    ensures r >= a && r >= b && (r == a || r == b)
  {
    if a >= b then a else b
  }

  /** `Long.compare` (and `Integer.compare`, `Byte.compare`): the sign of `x - y`. */
  function Compare(x: int, y: int): (r: int)
    ensures r < 0 <==> x < y
    ensures r == 0 <==> x == y
    ensures r > 0 <==> x > y
    ensures -1 <= r <= 1
  {
    if x < y then -1 else if x == y then 0 else 1
  }
}
