/** The fixed-size message header of the chump protocol: three shorts (version,
    message type, tag) laid out big-endian in six bytes, a serialiser and three
    independent field parsers. */
module Chump {
  import opened JavaInts
  import opened BigEndian

  /** Bytes of the version field. */
  const VERSION_BYTES: nat := SHORT_SIZE / 8
  /** Bytes of the message type field. */
  const MESSAGE_TYPE_BYTES: nat := SHORT_SIZE / 8
  /** Bytes of the tag field. */
  const TAG_BYTES: nat := SHORT_SIZE / 8
  /** Bytes of a whole header. */
  const HEADER_BYTES: nat := VERSION_BYTES + MESSAGE_TYPE_BYTES + TAG_BYTES

  /** Each field is two bytes wide and the header is their sum, six bytes. */
  lemma FieldWidths()
    ensures VERSION_BYTES == MESSAGE_TYPE_BYTES == TAG_BYTES == SHORT_BYTES == 2
    ensures HEADER_BYTES == 6
  {
  }

  /** Why a parser rejected its buffer; both cases are an `IllegalArgumentException`. */
  datatype Error =
    | NullBytes             // the buffer is null
    | TooShort(length: nat) // the buffer holds fewer than HEADER_BYTES bytes

  datatype Result<T> = Ok(value: T) | Err(error: Error)

  /** A header. Its fields are fixed when it is built and never change. */
  datatype Header = Header(version: Short, messageType: Short, tag: Short) {

    /** The bytes `toBytes` produces: the three fields, big-endian, in order. */
    function Encode(): (bs: seq<Byte>)
      ensures |bs| == HEADER_BYTES
      ensures BytesToShort(bs[0], bs[1]) == version
      ensures BytesToShort(bs[2], bs[3]) == messageType
      ensures BytesToShort(bs[4], bs[5]) == tag
    {
      ReadWritten(version);
      ReadWritten(messageType);
      ReadWritten(tag);
      ShortToBytes(version) + ShortToBytes(messageType) + ShortToBytes(tag)
    }

    /** Length of the array `ToBytes` returns. */
    function CalcBytes(): (n: nat)
      ensures n == |Encode()|
      ensures n == 6
    {
      HEADER_BYTES
    }

    /** Allocates a fresh array and writes the three fields into it through a
        cursor, as the chained `putShort` calls on a wrapping buffer do. */
    method ToBytes() returns (bytes: array<Byte>)
      ensures fresh(bytes)
      ensures bytes.Length == CalcBytes()
      ensures bytes[..] == Encode()
    {
      bytes := new Byte[CalcBytes()];
      var position := 0;
      position := PutShort(bytes, position, version);
      position := PutShort(bytes, position, messageType);
      position := PutShort(bytes, position, tag);
      assert bytes[..] == Encode();
    }
  }

  /** `putShort` on a buffer wrapping `bytes` whose cursor is at `position`: writes the
      big-endian bytes of `v` there and returns the advanced cursor. */
  method PutShort(bytes: array<Byte>, position: nat, v: Short) returns (next: nat)
    requires position + SHORT_BYTES <= bytes.Length
    modifies bytes
    ensures next == position + SHORT_BYTES
    ensures bytes[..] == old(bytes[..position]) + ShortToBytes(v) + old(bytes[next..])
  {
    var bs := ShortToBytes(v);
    bytes[position] := bs[0];
    bytes[position + 1] := bs[1];
    next := position + SHORT_BYTES;
  }

  /** The guard all three parsers share, followed by `getShort(offset)`. */
  function ParseShortAt(bytes: array?<Byte>, offset: nat): (r: Result<Short>)
    requires offset + SHORT_BYTES <= HEADER_BYTES
    reads bytes
    ensures r.Err? <==> bytes == null || bytes.Length < HEADER_BYTES
    ensures r == Err(NullBytes) <==> bytes == null
    ensures r.Err? && bytes != null ==> r.error == TooShort(bytes.Length)
    ensures r.Ok? ==> ShortToBytes(r.value) == bytes[offset..offset + SHORT_BYTES]
  {
    if bytes == null then Err(NullBytes)
    else if bytes.Length < HEADER_BYTES then Err(TooShort(bytes.Length))
    else
      WriteRead(bytes[offset], bytes[offset + 1]);
      Ok(BytesToShort(bytes[offset], bytes[offset + 1]))
  }

  /** The version of the header at the start of `bytes`. */
  function ParseVersion(bytes: array?<Byte>): (r: Result<Short>)
    reads bytes
    ensures r.Err? <==> bytes == null || bytes.Length < HEADER_BYTES
    ensures r == Err(NullBytes) <==> bytes == null
    ensures r.Err? && bytes != null ==> r.error == TooShort(bytes.Length)
    ensures r.Ok? ==> ShortToBytes(r.value) == bytes[0..2]
  {
    ParseShortAt(bytes, 0)
  }

  /** The message type of the header at the start of `bytes`. */
  function ParseMessageType(bytes: array?<Byte>): (r: Result<Short>)
    reads bytes
    ensures r.Err? <==> bytes == null || bytes.Length < HEADER_BYTES
    ensures r == Err(NullBytes) <==> bytes == null
    ensures r.Err? && bytes != null ==> r.error == TooShort(bytes.Length)
    ensures r.Ok? ==> ShortToBytes(r.value) == bytes[2..4]
  {
    ParseShortAt(bytes, VERSION_BYTES)
  }

  /** The tag of the header at the start of `bytes`. */
  function ParseTag(bytes: array?<Byte>): (r: Result<Short>)
    reads bytes
    ensures r.Err? <==> bytes == null || bytes.Length < HEADER_BYTES
    ensures r == Err(NullBytes) <==> bytes == null
    ensures r.Err? && bytes != null ==> r.error == TooShort(bytes.Length)
    ensures r.Ok? ==> ShortToBytes(r.value) == bytes[4..6]
  {
    ParseShortAt(bytes, VERSION_BYTES + MESSAGE_TYPE_BYTES)
  }

  /** A buffer that starts with the encoding of `h`, whatever follows it, parses back
      to the fields of `h`. With `ToBytes` this is the round trip of every field. */
  lemma ParseEncoded(h: Header, bytes: array<Byte>)
    requires HEADER_BYTES <= bytes.Length && bytes[..HEADER_BYTES] == h.Encode()
    ensures ParseVersion(bytes) == Ok(h.version)
    ensures ParseMessageType(bytes) == Ok(h.messageType)
    ensures ParseTag(bytes) == Ok(h.tag)
  {
  }

  /** Every buffer of at least six bytes starts with the encoding of the header
      its three parsers read. */
  lemma EncodeParsed(bytes: array<Byte>)
    requires HEADER_BYTES <= bytes.Length
    ensures ParseVersion(bytes).Ok? && ParseMessageType(bytes).Ok? && ParseTag(bytes).Ok?
    ensures Header(ParseVersion(bytes).value, ParseMessageType(bytes).value, ParseTag(bytes).value).Encode()
            == bytes[..HEADER_BYTES]
  {
  }

  /** Each parser reads only its own two bytes: other fields and trailing bytes do not matter. */
  lemma ParseReadsOwnField(a: array<Byte>, b: array<Byte>)
    requires HEADER_BYTES <= a.Length && HEADER_BYTES <= b.Length
    ensures a[0..2] == b[0..2] ==> ParseVersion(a) == ParseVersion(b)
    ensures a[2..4] == b[2..4] ==> ParseMessageType(a) == ParseMessageType(b)
    ensures a[4..6] == b[4..6] ==> ParseTag(a) == ParseTag(b)
  {
  }

  /** Distinct headers have distinct encodings. */
  lemma EncodeInjective(h: Header, k: Header)
    requires h.Encode() == k.Encode()
    ensures h == k
  {
  }

  /** The whole header read as one big-endian 48-bit number: the version is the most
      significant 16 bits, the message type the middle 16 and the tag the least. */
  lemma EncodeValue(h: Header)
    ensures BigEndianValue(h.Encode())
            == Unsigned16(h.version) * 0x1_0000_0000 + Unsigned16(h.messageType) * 0x1_0000 + Unsigned16(h.tag)
  {
    assert Pow256(2) == 0x1_0000 by {
      assert Pow256(1) == 256;
    }
    var v, m, t := ShortToBytes(h.version), ShortToBytes(h.messageType), ShortToBytes(h.tag);
    assert h.Encode() == (v + m) + t;
    BigEndianConcat(v + m, t);
    BigEndianConcat(v, m);
    assert BigEndianValue(v + m) == BigEndianValue(v) * 0x1_0000 + BigEndianValue(m);
    assert BigEndianValue(h.Encode()) == BigEndianValue(v + m) * 0x1_0000 + BigEndianValue(t);
  }

  /** The wire layout on a concrete header: high byte first, fields in order. */
  lemma EncodeExample()
    ensures Header(0x0102, 0x0304, 0x0506).Encode() == [0x01, 0x02, 0x03, 0x04, 0x05, 0x06]
  {
  }
}
