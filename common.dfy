// Shared vocabulary: optional values and the fixed-width C integer types
// the firmware uses.  Dafny integers are unbounded, so every width that
// matters is a subset type and every wrap-around is written out.

module Common {

  datatype Option<T> = None | Some(value: T)

  const TWO8: int := 0x100
  const TWO31: int := 0x8000_0000
  const TWO32: int := 0x1_0000_0000
  const TWO63: int := 0x8000_0000_0000_0000
  const TWO64: int := 0x1_0000_0000_0000_0000

  /** uint8_t: a byte of a buffer or of a JSON text. */
  type Byte = x: int | 0 <= x < TWO8
  /** uint32_t */
  type U32 = x: int | 0 <= x < TWO32
  /** int32_t, and C `int` on the targets the firmware builds for. */
  type I32 = x: int | -TWO31 <= x < TWO31
  /** uint64_t */
  type U64 = x: int | 0 <= x < TWO64
  /** int64_t */
  type I64 = x: int | -TWO63 <= x < TWO63

  /** Conversion of an unsigned 64-bit pattern to int64_t (two's complement). */
  function ToI64(x: U64): (r: I64)
  {
    if x < TWO63 then x else x - TWO64
  }

  /** Conversion of any integer to int32_t by keeping its low 32 bits. */
  function ToI32(x: int): (r: I32)
    ensures (r - x) % TWO32 == 0
    ensures -TWO31 <= x < TWO31 ==> r == x
  {
    var m := x % TWO32;
    if m < TWO31 then m else m - TWO32
  }

  /** The int64_t reading of a bit pattern agrees with it modulo 2^64. */
  lemma ToI64Congruent(x: U64)
    ensures ToI64(x) % TWO64 == x
  {
  }

  /**
   * C division of integers: the quotient is truncated toward zero, so the
   * remainder is smaller than the divisor in magnitude and takes the sign
   * of the dividend (section 6.5.5 of ISO C11).
   */
  function CDiv(a: int, b: int): (q: int)
    requires b > 0
    ensures var r := a - q * b; -b < r < b && (a >= 0 ==> r >= 0) && (a < 0 ==> r <= 0)
  {
    if a >= 0 then a / b else -((-a) / b)
  }
}
