/** Fixed-width integers of the source, written out over the unbounded ones. */
module Words {

  const TWO_16: int := 0x1_0000
  const TWO_31: int := 0x8000_0000
  const TWO_32: int := 0x1_0000_0000
  const TWO_64: int := 0x1_0000_0000_0000_0000

  type u32 = x: int | 0 <= x < TWO_32
  type s32 = x: int | -TWO_31 <= x < TWO_31
  type rate32 = x: int | 1 <= x < TWO_32 witness 1
  type byte = x: int | 0 <= x < 256

  /** Truncation to an unsigned 32-bit word. */
  function U32(x: int): u32 {
    x % TWO_32
  }

  /** Truncation to an unsigned 64-bit word. */
  function U64(x: int): nat {
    x % TWO_64
  }

  /** Truncation to a signed 32-bit word. */
  function S32(x: int): s32 {
    if x % TWO_32 < TWO_31 then x % TWO_32 else x % TWO_32 - TWO_32
  }

  function Min(a: int, b: int): int {
    if a <= b then a else b
  }

  function Max(a: int, b: int): int {
    if a <= b then b else a
  }

  /** `x & ~mask`, bit by bit. */
  function AndNot(x: nat, mask: nat): nat
    decreases mask
  {
    if mask == 0 then x
    else 2 * AndNot(x / 2, mask / 2) + (if mask % 2 == 1 then 0 else x % 2)
  }
}
