/** Bytes and the little-endian 16-bit integers of the token header, over
    the integers they denote. */
module Bytes {
  import Bits

  /** Rust's `u8`. */
  type byte = x: int | 0 <= x < 0x100

  /** Rust's `u16`. */
  type u16 = x: int | 0 <= x < 0x1_0000

  /** `u16::try_from(n)` succeeds exactly when `n` fits in 16 bits. */
  predicate FitsU16(n: int)
  {
    0 <= n < 0x1_0000
  }

  /** `u16::to_le_bytes`: low byte first. */
  function ToLeBytes(x: u16): (r: seq<byte>)
    ensures |r| == 2
    ensures r[0] as int + 0x100 * r[1] as int == x
  {
    [x % 0x100, x / 0x100]
  }

  /** `u16::from_le_bytes([lo, hi])`. */
  function FromLeBytes(lo: byte, hi: byte): (r: u16)
    ensures r % 0x100 == lo && r / 0x100 == hi
  {
    lo + 0x100 * hi
  }

  /** Reading back the two bytes written by `ToLeBytes` gives the same value,
      and two bytes are read back as the value whose encoding they are. */
  lemma LeBytesRoundTrip(x: u16, lo: byte, hi: byte)
    ensures FromLeBytes(ToLeBytes(x)[0], ToLeBytes(x)[1]) == x
    ensures ToLeBytes(FromLeBytes(lo, hi)) == [lo, hi]
  {
  }

  /** `a + b` on `u16` in a build without overflow checks: the sum modulo 2^16. */
  function WrappingAdd(a: u16, b: u16): (r: u16)
    ensures a + b < 0x1_0000 ==> r == a + b
    ensures a + b >= 0x1_0000 ==> r == a + b - 0x1_0000 && r < a && r < b
  {
    (a + b) % 0x1_0000
  }

  /** `a ^ b` on bytes. */
  function XorByte(a: byte, b: byte): (r: byte)
  {
    Bits.Pow2Widths();
    Bits.Fits(a, b, 8);
    Bits.Xor(a, b)
  }
}
