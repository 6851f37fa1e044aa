# chump message header, in Dafny

A model of `com.creeaaakk.chump.Header`, the fixed-size header that prefixes every
chump message: three Java `short` fields (version, message type, tag), the
serialiser `toBytes` that writes them big-endian into a fresh six-byte array, the
size query `calcBytes`, and the three independent static parsers `parseVersion`,
`parseMessageType` and `parseTag`, each of which rejects a null or too-short
buffer and otherwise reads one 16-bit field at a fixed offset.

Files:

- `java_ints.dfy` (module `JavaInts`): Java's `byte` and `short` as bounded
  integer subset types, their unsigned bit patterns (`b & 0xff`) and the narrowing
  casts `(byte)` and `(short)`, written out because Dafny integers are unbounded.
- `big_endian.dfy` (module `BigEndian`): what `ByteBuffer.putShort` and
  `ByteBuffer.getShort` do in the buffer's default big-endian order, as explicit
  byte splitting and combining, plus an independent reference definition of
  big-endian (`BigEndianValue`, the unsigned number a byte sequence spells, most
  significant byte first) against which both are specified.
- `header.dfy` (module `Chump`): the constants, the `Header` value, `toBytes`
  (a method that allocates and fills an array, with its pure counterpart
  `Encode`), `calcBytes`, the parsers and the properties relating them.

`Header` is a datatype: its constructor stores the three arguments unchanged and
a datatype value cannot be changed afterwards, which is what the Java class's
`final` fields give. A Java `null` buffer is modelled by `array?<Byte>`; the
`IllegalArgumentException` the parsers throw is the `Err` case of a `Result`,
whose `Error` says which of the two guards failed (`NullBytes`, or
`TooShort(length)`).

## Model

| member | source | states |
|---|---|---|
| `Chump.FieldWidths` | src/com/creeaaakk/chump/Header.java:34-37 | each field is `Short.SIZE / 8` = 2 bytes and `HEADER_BYTES` is their sum, 6 |
| `Chump.Header.Encode` | src/com/creeaaakk/chump/Header.java:56 | the encoding is `HEADER_BYTES` long and bytes 0-1, 2-3 and 4-5 read back (big-endian) as version, message type and tag |
| `Chump.Header.CalcBytes` | src/com/creeaaakk/chump/Header.java:63-66 | the reported size is the length of the encoding, always 6 |
| `Chump.Header.ToBytes` | src/com/creeaaakk/chump/Header.java:53-58 | returns a freshly allocated array of `CalcBytes()` bytes holding exactly the encoding |
| `Chump.PutShort` | src/com/creeaaakk/chump/Header.java:56 | one `putShort` at the cursor writes the two big-endian bytes of the value there, leaves every other byte alone and advances the cursor by two |
| `Chump.ParseShortAt` | src/com/creeaaakk/chump/Header.java:75-84 | the shared guard: fails with `NullBytes` exactly for a null buffer, with `TooShort(length)` exactly for a shorter-than-6 one, and otherwise returns the short whose big-endian bytes are those at the offset |
| `Chump.ParseVersion` | src/com/creeaaakk/chump/Header.java:73-85 | fails exactly when the buffer is null or shorter than 6 (so succeeds at length 6 and beyond); on success the result is the short whose bytes are `bytes[0..2]` |
| `Chump.ParseMessageType` | src/com/creeaaakk/chump/Header.java:92-104 | same failure condition; on success the result is the short whose bytes are `bytes[2..4]`, offset `VERSION_BYTES` |
| `Chump.ParseTag` | src/com/creeaaakk/chump/Header.java:111-123 | same failure condition; on success the result is the short whose bytes are `bytes[4..6]`, offset `VERSION_BYTES + MESSAGE_TYPE_BYTES` |
| `Chump.ParseEncoded` | src/com/creeaaakk/chump/Header.java:53-123 | round trip: a buffer that starts with the encoding of a header, whatever follows, parses back to each of its three fields, negatives included |
| `Chump.EncodeParsed` | src/com/creeaaakk/chump/Header.java:73-123 | converse round trip: every buffer of at least 6 bytes parses successfully and begins with the encoding of the header built from the three parsed fields |
| `Chump.ParseReadsOwnField` | src/com/creeaaakk/chump/Header.java:84-122 | each parser depends only on its own two bytes: buffers that agree there parse to the same result, whatever the other fields and trailing bytes hold |
| `Chump.EncodeInjective` | src/com/creeaaakk/chump/Header.java:53-58 | two headers with the same encoding are the same header |
| `Chump.EncodeValue` | src/com/creeaaakk/chump/Header.java:56 | the six bytes, read as one big-endian number, are version·2^32 + messageType·2^16 + tag (each as its 16-bit pattern): fields in order, high byte first, no padding |
| `Chump.EncodeExample` | src/com/creeaaakk/chump/Header.java:56 | the header (0x0102, 0x0304, 0x0506) encodes as the bytes 01 02 03 04 05 06 |
| `BigEndian.ShortToBytes` | src/com/creeaaakk/chump/Header.java:56 | `putShort` writes two bytes whose big-endian value is the short's 16-bit pattern |
| `BigEndian.BytesToShort` | src/com/creeaaakk/chump/Header.java:84 | `getShort` returns the short whose 16-bit pattern is the big-endian value of the two bytes |
| `BigEndian.ReadWritten` | src/com/creeaaakk/chump/Header.java:56 | reading back the two bytes written for any short gives that short |
| `BigEndian.WriteRead` | src/com/creeaaakk/chump/Header.java:84 | any two bytes are exactly what is written for the short read from them |
| `BigEndian.BigEndianConcat` | src/com/creeaaakk/chump/Header.java:56 | big-endian values of concatenated byte runs combine positionally, which is what makes successive `putShort` writes one big-endian number |
| `BigEndian.ShortToBytesExamples` | src/com/creeaaakk/chump/Header.java:56 | -1, -32768, 255 and 32767 go on the wire as their two's-complement bit patterns |

## Left out

- The text of the exception messages; only which guard failed is modelled.
- `ByteBuffer` itself: `wrap` sharing the array and the chained `putShort`
  calls advancing its position are modelled by writing the array directly at a
  cursor that `PutShort` returns; the buffer's other state (limit, mark, byte
  order switching) is not used by the header and is not modelled.
- Message bodies, framing and transport: they are not part of this code.
