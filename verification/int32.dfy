/**
  Java `int`: 32-bit two's complement. The integer primitives bound their
  inputs so that no operation wraps around; `InRange` is that bound.
 */
module Int32 {

  /** `Integer.MIN_VALUE` */
  const MIN_VALUE: int := -0x8000_0000
  /** `Integer.MAX_VALUE` */
  const MAX_VALUE: int := 0x7fff_ffff

  type int32 = x: int | -0x8000_0000 <= x <= 0x7fff_ffff

  predicate InRange(x: int) { MIN_VALUE <= x <= MAX_VALUE }

  /** `Math.max(int, int)` */
  function Max(a: int32, b: int32): (r: int32)
    ensures r >= a && r >= b && (r == a || r == b)
  {
    if a >= b then a else b
  }

  /** `Math.min(int, int)` */
  function Min(a: int32, b: int32): (r: int32)
    ensures r <= a && r <= b && (r == a || r == b)
  {
    if a <= b then a else b
  }
}
