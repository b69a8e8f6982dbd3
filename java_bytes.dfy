/** Java's signed 8-bit `byte`, its narrowing cast and the helpers the wire
    code relies on (sign extension, little-endian shorts, Integer.compare). */
module JavaBytes {

  /** A Java `byte`: a signed two's-complement 8-bit integer. Widening it to
      `int` (sign extension) is the identity on this type. */
  type JByte = x: int | -128 <= x < 128

  /** Java's narrowing cast `(byte) x`: keep the low 8 bits and read them as
      a two's-complement value. */
  function ToByte(x: int): (b: JByte)
    ensures (b - x) % 256 == 0
  {
    var u := x % 256;
    if u < 128 then u else u - 256
  }

  /** The cast is the only byte congruent to `x` modulo 256, so it leaves
      in-range values alone. */
  lemma ToByteOfByte(x: int)
    requires -128 <= x < 128
    ensures ToByte(x) == x
  {
  }

  /** The 0..255 reading of a byte, as `b & 0xFF` gives it. */
  function Unsigned(b: JByte): (u: int)
    ensures 0 <= u < 256
    ensures (u - b) % 256 == 0
  {
    if b < 0 then b + 256 else b
  }

  /** `ByteBuffer.getShort()` in little-endian order: low byte first, the
      16-bit result read as a signed `short`. */
  function ShortLE(lo: JByte, hi: JByte): (s: int)
    ensures -32768 <= s < 32768
    ensures (s - (Unsigned(lo) + 256 * Unsigned(hi))) % 65536 == 0
  {
    var u := Unsigned(lo) + 256 * Unsigned(hi);
    if u < 32768 then u else u - 65536
  }

  /** `Integer.compare(x, y)`. */
  function IntegerCompare(x: int, y: int): (c: int)
    ensures c < 0 <==> x < y
    ensures c == 0 <==> x == y
    ensures c > 0 <==> x > y
  {
    if x < y then -1 else if x == y then 0 else 1
  }
}
