/** Java's fixed-width two's-complement integer types, as the header codec uses them.
    Dafny's integers are unbounded, so the widths and Java's narrowing casts are written
    out here explicitly. */
module JavaInts {

  /** Bits in a Java `short` (`Short.SIZE`). */
  const SHORT_SIZE: nat := 16

  /** Bits in a Java `byte` (`Byte.SIZE`). */
  const BYTE_SIZE: nat := 8

  /** A Java `byte`: a signed 8-bit two's-complement value. */
  type Byte = b: int | -128 <= b < 128

  /** A Java `short`: a signed 16-bit two's-complement value. */
  type Short = s: int | -32768 <= s < 32768

  /** The bit pattern of a byte read as an unsigned number, Java's `b & 0xff`. */
  function Unsigned8(b: Byte): (u: nat)
    ensures u < 256 && (u - b) % 256 == 0
  {
    if b < 0 then b + 256 else b
  }

  /** The bit pattern of a short read as an unsigned number, Java's `s & 0xffff`. */
  function Unsigned16(s: Short): (u: nat)
    ensures u < 65536 && (u - s) % 65536 == 0
  {
    if s < 0 then s + 65536 else s
  }

  /** Java's narrowing cast `(byte) x`: keeps the low 8 bits of `x` and reads them signed. */
  function NarrowToByte(x: int): (b: Byte)
    ensures (x - b) % 256 == 0
  {
    var low := x % 256;
    if low < 128 then low else low - 256
  }

  /** Java's narrowing cast `(short) x`: keeps the low 16 bits of `x` and reads them signed. */
  function NarrowToShort(x: int): (s: Short)
    ensures (x - s) % 65536 == 0
  {
    var low := x % 65536;
    if low < 32768 then low else low - 65536
  }

  /** Two bytes with the same bit pattern are the same byte. */
  lemma Unsigned8Injective(a: Byte, b: Byte)
    requires Unsigned8(a) == Unsigned8(b)
    ensures a == b
  {
  }

  /** Two shorts with the same bit pattern are the same short. */
  lemma Unsigned16Injective(a: Short, b: Short)
    requires Unsigned16(a) == Unsigned16(b)
    ensures a == b
  {
  }
}
