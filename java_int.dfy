/** Java's 32-bit `int` arithmetic, written out over unbounded integers. */
module JavaInt {
  /** 2^31 and 2^32, the bounds of Java's `int`. */
  const Two31: int := 0x8000_0000
  const Two32: int := 0x1_0000_0000

  /** Java `int` addition or multiplication: the exact result brought back into -2^31..2^31-1. */
  function Wrap32(v: int): (r: int)
    ensures -Two31 <= r < Two31
    ensures -Two31 <= v < Two31 ==> r == v
  {
    (v + Two31) % Two32 - Two31
  }

  /**
   * Java `int` addition of two `int` values: the exact sum, moved back by 2^32
   * when it leaves the range (it can leave it by less than 2^32 either way).
   */
  function AddInt(a: int, b: int): (r: int)
    requires -Two31 <= a < Two31 && -Two31 <= b < Two31
    ensures -Two31 <= r < Two31
  {
    var v := a + b;
    if v < -Two31 then v + Two32 else if v >= Two31 then v - Two32 else v
  }

  /** The addition above is the general wrap-around of the exact sum. */
  lemma AddIntWraps(a: int, b: int)
    requires -Two31 <= a < Two31 && -Two31 <= b < Two31
    ensures AddInt(a, b) == Wrap32(a + b)
  {
    var v := a + b;
    if v < -Two31 {
      assert (v + Two31) % Two32 == v + Two31 + Two32;
    } else if v >= Two31 {
      assert (v + Two31) % Two32 == v + Two31 - Two32;
    }
  }

  /** Java's `a / b` for a positive divisor: the quotient truncated toward zero. */
  function Quot(a: int, b: int): int
    requires b > 0
  {
    if a >= 0 then a / b else -((-a) / b)
  }

  /**
   * The quotient is truncated toward zero: the remainder a - b * q has the
   * sign of a and is smaller than b in size.
   */
  lemma QuotTruncates(a: int, b: int)
    requires b > 0
    ensures a >= 0 ==> 0 <= a - b * Quot(a, b) < b
    ensures a < 0 ==> -b < a - b * Quot(a, b) <= 0
  {
  }
}
