/** Java's int and C's int32_t. */
module Int32 {

  const TWO_TO_THE_32 := 0x1_0000_0000

  type int32 = x: int | -0x8000_0000 <= x < 0x8000_0000

  /** Arithmetic wraps around in two's complement. */
  function Wrap32(x: int): int32 { (x + 0x8000_0000) % TWO_TO_THE_32 - 0x8000_0000 }
}
