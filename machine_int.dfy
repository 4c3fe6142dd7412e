/**
 * The fixed-width integers of the source. Only the conversions the source
 * performs are modelled: `unsigned int` values and the `(int)` cast of one.
 */
module MachineInt {
  const TWO_31: int := 0x8000_0000
  const TWO_32: int := 0x1_0000_0000

  /** `unsigned int` / `uint32_t`. */
  type u32 = x: int | 0 <= x < 0x1_0000_0000

  /** Truncation of a non-negative value to 32 bits, as in the initialisation
      of a `uint32_t` member from a `size_t`. */
  function TruncateU32(x: nat): (r: u32)
    ensures x < TWO_32 ==> r == x
    ensures (x - r) % TWO_32 == 0
  {
    x % TWO_32
  }

  /** Two's-complement reading of a 32-bit pattern: the value an `int` receives
      from any integer expression, reduced modulo 2^32. */
  function Int32Of(x: int): (r: int)
    ensures -TWO_31 <= r < TWO_31
    ensures (r - x) % TWO_32 == 0
    ensures -TWO_31 <= x < TWO_31 ==> r == x
  {
    (x + TWO_31) % TWO_32 - TWO_31
  }
}
