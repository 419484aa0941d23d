/**
 * Java's fixed-width integer operations, written out on Dafny's unbounded
 * integers. A Java value is represented by its mathematical value; the
 * narrowing casts wrap modulo 2^width in two's complement, and the masks
 * the record detector uses (`x & 0xFF`, `x & 0x7FFF`, ...) are the
 * Euclidean remainders modulo the next power of two, which is what `&`
 * with a low-bit mask computes on a two's-complement value.
 */
module JavaInts {

  /** An octet as it sits in a buffer: the unsigned value of one byte. */
  type Octet = o: int | 0 <= o < 0x100

  /** The value range of Java's `byte`. */
  type JByte = b: int | -0x80 <= b < 0x80

  /** The value range of Java's `short`. */
  type JShort = s: int | -0x8000 <= s < 0x8000

  /** The value range of Java's `int`. */
  type JInt = i: int | -0x8000_0000 <= i < 0x8000_0000

  /** The narrowing cast `(byte) x`. */
  function ToByte(x: int): (b: JByte)
    ensures b % 0x100 == x % 0x100
  {
    var u := x % 0x100;
    if u < 0x80 then u else u - 0x100
  }

  /** The narrowing cast `(short) x`. */
  function ToShort(x: int): (s: JShort)
    ensures s % 0x1_0000 == x % 0x1_0000
  {
    var u := x % 0x1_0000;
    if u < 0x8000 then u else u - 0x1_0000
  }

  /** The narrowing cast `(int) x` (also the wrap-around of int arithmetic). */
  function ToInt(x: int): (i: JInt)
    ensures i % 0x1_0000_0000 == x % 0x1_0000_0000
  {
    var u := x % 0x1_0000_0000;
    if u < 0x8000_0000 then u else u - 0x1_0000_0000
  }

  /** The short made of two octets, most significant first: how a buffer
      assembles `getShort` from the bytes it reads. */
  function ShortOf(hi: Octet, lo: Octet): JShort
  {
    ToShort(hi * 0x100 + lo)
  }

  /** `Short.reverseBytes(s)` (also `ByteBufUtil.swapShort`). */
  function ReverseBytesShort(s: JShort): JShort
  {
    var u := s % 0x1_0000;
    ToShort((u % 0x100) * 0x100 + u / 0x100)
  }

  /** `Integer.reverseBytes(i)`. */
  function ReverseBytesInt(i: JInt): JInt
  {
    var u := i % 0x1_0000_0000;
    ToInt((u % 0x100) * 0x100_0000 + (u / 0x100 % 0x100) * 0x1_0000
          + (u / 0x1_0000 % 0x100) * 0x100 + u / 0x100_0000)
  }

  /** `i >>> 16`: unsigned shift right by `Short.SIZE` bits. */
  function UnsignedShiftRight16(i: JInt): (r: int)
    ensures 0 <= r < 0x1_0000
  {
    (i % 0x1_0000_0000) / 0x1_0000
  }

  /** A short read in the wrong byte order is repaired by `Short.reverseBytes`. */
  lemma ReverseShortOf(hi: Octet, lo: Octet)
    ensures ReverseBytesShort(ShortOf(lo, hi)) == ShortOf(hi, lo)
  {
    var u := lo * 0x100 + hi;
    DivMod(u, 0, u, 0x1_0000);
    assert ShortOf(lo, hi) % 0x1_0000 == u;
    DivMod(u, lo, hi, 0x100);
  }

  /** An unsigned short read in the wrong byte order is repaired by
      `Integer.reverseBytes(value) >>> 16`. */
  lemma ReverseUnsignedShort(hi: Octet, lo: Octet)
    ensures UnsignedShiftRight16(ReverseBytesInt(lo * 0x100 + hi)) == hi * 0x100 + lo
  {
    var u := lo * 0x100 + hi;
    assert u % 0x1_0000_0000 == u;
    assert u / 0x100 % 0x100 == lo && u % 0x100 == hi;
    assert u / 0x1_0000 % 0x100 == 0 && u / 0x100_0000 == 0;
    var v := hi * 0x100_0000 + lo * 0x1_0000;
    assert ReverseBytesInt(u) == ToInt(v);
    assert ToInt(v) % 0x1_0000_0000 == v;
    assert v / 0x1_0000 == hi * 0x100 + lo;
  }

  /** A value written as quotient and remainder by a power of two has that
      quotient and that remainder. */
  lemma DivMod(x: int, q: int, r: int, m: int)
    requires m == 0x100 || m == 0x4000 || m == 0x8000 || m == 0x1_0000
    requires x == q * m + r && 0 <= r < m
    ensures x / m == q && x % m == r
  {
    if m == 0x100 {
      assert x - r == q * 0x100;
    } else if m == 0x4000 {
      assert x - r == q * 0x4000;
    } else if m == 0x8000 {
      assert x - r == q * 0x8000;
    } else {
      assert x - r == q * 0x1_0000;
    }
  }
}
