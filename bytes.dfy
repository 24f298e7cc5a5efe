/** Machine integers and little-endian field access, as the decoder reads
    them through `uint8_t *`, `uint16_t *` and `uint32_t *` casts on an
    ARM (little-endian) host. */
module Bytes {

  type byte = x: int | 0 <= x < 0x100
  type u16 = x: int | 0 <= x < 0x1_0000
  type u32 = x: int | 0 <= x < 0x1_0000_0000

  /** Unsigned 32-bit arithmetic wraps modulo this value. */
  const U32Modulus: int := 0x1_0000_0000

  /** The `uint16_t` stored little-endian at byte offset `i` of `s`. */
  function U16At(s: seq<byte>, i: nat): u16
    requires i + 2 <= |s|
  {
    s[i] as int + 0x100 * (s[i + 1] as int)
  }

  /** The `uint32_t` stored little-endian at byte offset `i` of `s`. */
  function U32At(s: seq<byte>, i: nat): u32
    requires i + 4 <= |s|
  {
    s[i] as int + 0x100 * (s[i + 1] as int) + 0x1_0000 * (s[i + 2] as int) + 0x100_0000 * (s[i + 3] as int)
  }

  /** The two bytes that hold `x` little-endian. */
  function U16Bytes(x: u16): (r: seq<byte>)
    ensures |r| == 2 && U16At(r, 0) == x
  {
    [x % 0x100, x / 0x100]
  }

  /** The four bytes that hold `x` little-endian (what `fwrite(&x, 4, 1, f)`
      writes). */
  function U32Bytes(x: u32): (r: seq<byte>)
    ensures |r| == 4 && U32At(r, 0) == x
  {
    var b0, x1 := x % 0x100, x / 0x100;
    var b1, x2 := x1 % 0x100, x1 / 0x100;
    var b2, b3 := x2 % 0x100, x2 / 0x100;
    assert x2 == b2 + 0x100 * b3;
    assert x1 == b1 + 0x100 * x2;
    [b0, b1, b2, b3]
  }

  /** Reading a word and writing it back gives the same four bytes. */
  lemma U32BytesOfU32At(s: seq<byte>, i: nat)
    requires i + 4 <= |s|
    ensures U32Bytes(U32At(s, i)) == s[i..i + 4]
  {
    var b0, b1, b2, b3 := s[i] as int, s[i + 1] as int, s[i + 2] as int, s[i + 3] as int;
    var x2 := b2 + 0x100 * b3;
    var x1 := b1 + 0x100 * x2;
    assert U32At(s, i) == b0 + 0x100 * x1;
    DivMod256(b0, x1);
    DivMod256(b1, x2);
    DivMod256(b2, b3);
  }

  lemma DivMod256(lo: int, hi: int)
    requires 0 <= lo < 0x100 && 0 <= hi
    ensures (lo + 0x100 * hi) % 0x100 == lo && (lo + 0x100 * hi) / 0x100 == hi
  {
  }

  // Division by a literal, pinned down by the quotient and remainder. Stated
  // with literal divisors so that every use stays linear.

  lemma DivMod2(x: int, q: int, r: int)
    requires 0 <= r < 2 && x == 2 * q + r
    ensures x / 2 == q && x % 2 == r
  {
  }

  lemma DivMod4(x: int, q: int, r: int)
    requires 0 <= r < 4 && x == 4 * q + r
    ensures x / 4 == q && x % 4 == r
  {
  }

  lemma DivMod8(x: int, q: int, r: int)
    requires 0 <= r < 8 && x == 8 * q + r
    ensures x / 8 == q && x % 8 == r
  {
  }

  lemma DivMod16(x: int, q: int, r: int)
    requires 0 <= r < 16 && x == 16 * q + r
    ensures x / 16 == q && x % 16 == r
  {
  }

  lemma DivMod64(x: int, q: int, r: int)
    requires 0 <= r < 64 && x == 64 * q + r
    ensures x / 64 == q && x % 64 == r
  {
  }

  lemma DivModU32(x: int, q: int, r: int)
    requires 0 <= r < U32Modulus && x == U32Modulus * q + r
    ensures x / U32Modulus == q && x % U32Modulus == r
  {
  }

  /** A sum of two unsigned 32-bit values wraps at most once. */
  lemma WrapOnce(x: u32, y: u32)
    ensures (x + y) % U32Modulus == if x + y < U32Modulus then x + y else x + y - U32Modulus
  {
    if x + y < U32Modulus {
      DivModU32(x + y, 0, x + y);
    } else {
      DivModU32(x + y, 1, x + y - U32Modulus);
    }
  }

  /** The low four bits of a little-endian word are those of its first
      byte. */
  lemma U32AtLowNibble(s: seq<byte>, i: nat)
    requires i + 4 <= |s|
    ensures U32At(s, i) % 16 == s[i] % 16
  {
    var rest := s[i + 1] as int + 0x100 * (s[i + 2] as int) + 0x1_0000 * (s[i + 3] as int);
    assert U32At(s, i) == 16 * (16 * rest + s[i] / 16) + s[i] % 16;
    DivMod16(U32At(s, i), 16 * rest + s[i] / 16, s[i] % 16);
  }
}
