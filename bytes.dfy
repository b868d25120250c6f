/** Fixed-width machine integers used by the driver, and the big-endian
    reassembly that `u16::from_be_bytes` and `u32::from_be_bytes` perform. */
module Bytes {

  /** A `u8`. Bytes are bit-vectors so that the CRC can shift and XOR them. */
  type Byte = bv8

  type uint16 = n: int | 0 <= n < 0x1_0000
  type uint32 = n: int | 0 <= n < 0x1_0000_0000

  /** `u16::from_be_bytes([hi, lo])`: the high byte and the low byte can be
      read back from the result, so distinct byte pairs give distinct values. */
  function U16FromBeBytes(hi: Byte, lo: Byte): (n: uint16)
    ensures n / 0x100 == hi as int && n % 0x100 == lo as int
  {
    hi as int * 0x100 + lo as int
  }

  /** `u32::from_be_bytes([b0, b1, b2, b3])`: each byte can be read back
      from the result by shifting it right a whole number of bytes, most
      significant first. */
  function U32FromBeBytes(b0: Byte, b1: Byte, b2: Byte, b3: Byte): (n: uint32)
    ensures n / 0x100 / 0x100 / 0x100 == b0 as int
    ensures n / 0x100 / 0x100 % 0x100 == b1 as int
    ensures n / 0x100 % 0x100 == b2 as int
    ensures n % 0x100 == b3 as int
  {
    var a, b, c, d := b0 as int, b1 as int, b2 as int, b3 as int;
    var n := a * 0x100_0000 + b * 0x1_0000 + c * 0x100 + d;
    DivMod256(n, a * 0x1_0000 + b * 0x100 + c, d);
    DivMod256(n / 0x100, a * 0x100 + b, c);
    DivMod256(n / 0x100 / 0x100, a, b);
    n
  }

  /** Quotient and remainder by 256 are determined by any decomposition
      `n == q * 256 + r` with `r` a byte value. */
  lemma DivMod256(n: int, q: int, r: int)
    requires 0 <= r < 0x100 && n == q * 0x100 + r
    ensures n / 0x100 == q && n % 0x100 == r
  {
  }
}
