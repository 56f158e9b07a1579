/**
 * The fixed-width unsigned integers the button works with, and the two
 * pieces of clock arithmetic it performs: storing a 32-bit `millis()`
 * reading into a 16-bit field (which truncates it), and subtracting such a
 * stored field from a fresh 32-bit reading (which is a 32-bit unsigned
 * subtraction, because the 16-bit operand is widened first).
 */
module FixedWidth {

  const U8: int := 0x100
  const U16: int := 0x1_0000
  const U32: int := 0x1_0000_0000

  type u8 = x: int | 0 <= x < 0x100
  type u16 = x: int | 0 <= x < 0x1_0000
  type u32 = x: int | 0 <= x < 0x1_0000_0000

  /** Assigning a `millis()` value to a `uint16_t` field keeps its low 16 bits. */
  function Stamp(now: u32): (r: u16)
    ensures r <= now
    ensures now < U16 ==> r == now
    ensures (now - r) % U16 == 0
  {
    now % U16
  }

  /**
   * `millis() - stamp` with `stamp` a `uint16_t`: unsigned 32-bit
   * subtraction, which is the true difference when the stamp is not ahead
   * of the clock and wraps around otherwise.
   */
  function Elapsed(now: u32, stamp: u16): (r: u32)
    ensures stamp <= now ==> r == now - stamp
    ensures stamp > now ==> r == now - stamp + U32
  {
    (now - stamp) % U32
  }

  /** `uint8_t` increment, wrapping from 255 to 0. */
  function Inc8(x: u8): (r: u8)
    ensures x < U8 - 1 ==> r == x + 1
    ensures x == U8 - 1 ==> r == 0
  {
    (x + 1) % U8
  }

  /** Counting modulo 256 one step at a time agrees with counting first and reducing once. */
  lemma Inc8Counts(n: nat)
    ensures Inc8(n % U8) == (n + 1) % U8
  {
  }
}
