/** The big-endian 16-bit codec that `java.nio.ByteBuffer` applies by default in
    `putShort` and `getShort`: high byte first, two's complement. */
module BigEndian {
  import opened JavaInts

  /** Bytes occupied by one short. */
  const SHORT_BYTES: nat := SHORT_SIZE / BYTE_SIZE

  /** 256 to the power `n`: the weight of a byte followed by `n` more. */
  function Pow256(n: nat): (p: nat)
    ensures p >= 1
  {
    if n == 0 then 1 else 256 * Pow256(n - 1)
  }

  /** The unsigned number whose big-endian bytes are `bs`: most significant byte first,
      each byte contributing its bit pattern. */
  function BigEndianValue(bs: seq<Byte>): (n: nat)
    ensures n < Pow256(|bs|)
  {
    if bs == [] then 0 else BigEndianValue(bs[..|bs| - 1]) * 256 + Unsigned8(bs[|bs| - 1])
  }

  /** Big-endian bytes concatenate as digits do: the bytes of `a` are worth
      256 to the power `|b|` times more than the bytes of `b` that follow them. */
  lemma {:induction false} BigEndianConcat(a: seq<Byte>, b: seq<Byte>)
    ensures BigEndianValue(a + b) == BigEndianValue(a) * Pow256(|b|) + BigEndianValue(b)
  {
    if b == [] {
      assert a + b == a;
    } else {
      var b', x := b[..|b| - 1], b[|b| - 1];
      assert (a + b)[..|a + b| - 1] == a + b';
      assert (a + b)[|a + b| - 1] == x;
      BigEndianConcat(a, b');
      var va, vb', p := BigEndianValue(a), BigEndianValue(b'), Pow256(|b'|);
      assert BigEndianValue(a + b) == (va * p + vb') * 256 + Unsigned8(x);
      assert Pow256(|b|) == 256 * p;
      assert BigEndianValue(b) == vb' * 256 + Unsigned8(x);
      MulAssoc256(va, p);
    }
  }

  /** Multiplying by 256 after or before another factor gives the same product. */
  lemma MulAssoc256(x: nat, y: nat)
    ensures (x * y) * 256 == x * (256 * y)
  {
  }

  /** The value of two bytes, high byte first. */
  lemma ValueOfPair(hi: Byte, lo: Byte)
    ensures BigEndianValue([hi, lo]) == 256 * Unsigned8(hi) + Unsigned8(lo)
  {
  }

  /** The two bytes `putShort(v)` writes: `(byte) (v >> 8)` then `(byte) v`.
      Java's `>>` is an arithmetic shift, which rounds toward negative infinity;
      so does Dafny's `/` by a positive divisor. */
  function ShortToBytes(v: Short): (bs: seq<Byte>)
    ensures |bs| == SHORT_BYTES
    ensures BigEndianValue(bs) == Unsigned16(v)
  {
    var bs := [NarrowToByte(v / 256), NarrowToByte(v)];
    ValueOfPair(bs[0], bs[1]);
    bs
  }

  /** The short `getShort` reads from a high byte and a low byte:
      `(short) ((hi << 8) | (lo & 0xff))`. The low 8 bits of `hi << 8` are zero,
      so the bitwise or is an addition. */
  function BytesToShort(hi: Byte, lo: Byte): (v: Short)
    ensures Unsigned16(v) == BigEndianValue([hi, lo])
  {
    ValueOfPair(hi, lo);
    NarrowToShort(hi * 256 + Unsigned8(lo))
  }

  /** Reading back the bytes written for a short gives that short, negatives included. */
  lemma ReadWritten(v: Short)
    ensures BytesToShort(ShortToBytes(v)[0], ShortToBytes(v)[1]) == v
  {
  }

  /** Every pair of bytes is the encoding of the short read from it. */
  lemma WriteRead(hi: Byte, lo: Byte)
    ensures ShortToBytes(BytesToShort(hi, lo)) == [hi, lo]
  {
    var bs := ShortToBytes(BytesToShort(hi, lo));
    assert bs == [bs[0], bs[1]];
    ValueOfPair(hi, lo);
    ValueOfPair(bs[0], bs[1]);
    Unsigned8Injective(bs[0], hi);
    Unsigned8Injective(bs[1], lo);
  }

  /** Negative shorts go on the wire as their two's-complement bit patterns. */
  lemma ShortToBytesExamples()
    ensures ShortToBytes(-1) == [-1, -1]
    ensures ShortToBytes(-32768) == [-128, 0]
    ensures ShortToBytes(255) == [0, -1]
    ensures ShortToBytes(0x7fff) == [0x7f, -1]
  {
  }
}
