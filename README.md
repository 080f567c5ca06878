# bytegeist protobuf varint32 codec, in Dafny

This project models `bytegeist.protobuf.Util`, the unsigned 32-bit varint
codec of bytegeist. It uses the "Base 128 Varints" wire format of Protocol
Buffers and has three static operations:

- `readUnsignedVarint32` reads a varint from a netty `ByteBuf` and advances
  its reader cursor.
- `writeUnsignedVarint32` appends the encoding of a value to the buffer.
- `sizeUnsignedVarint32` predicts the length of that encoding.

Java `int` values are modelled as their 32-bit patterns (`bv32`), and bytes
as `bv8`. Arithmetic is therefore bit-exact: `<<` and `|` drop whatever
passes bit 31, and `>>` on a `bv32` is Java's logical shift `>>>`.

Files:

- `wrappers.dfy` (module `Wrappers`): `Option` and `Result`.
- `buffers.dfy` (module `Buffers`): class `ByteBuf`. It holds the written
  bytes as a `seq<bv8>` plus a reader index. It keeps only the two
  operations the codec uses:
  - `ReadByte` returns the byte at the reader index and advances the cursor.
    With nothing left it fails and the cursor stays where it was.
  - `WriteByte` appends one byte.
- `varint.dfy` (module `Varint`): the wire format as values and functions.
  - `Decode` gives the outcome and the number of bytes the reader consumes.
  - `Combine` is the value of a run of bytes: the little-endian sum of their
    7-bit groups, modulo 2^32.
  - `Encoding` gives the bytes of a value.
  - The lemmas state what these promise and how they fit together.
- `util.dfy` (module `Util`): the three Java methods, plus their proofs
  against the `Varint` functions.
  - `ReadUnsignedVarint32` keeps the source's two `for` loops over `offset`,
    as `while` loops.
  - `WriteUnsignedVarint32` keeps the `while (true)` loop and its `>>>= 7`.
  - `SizeUnsignedVarint32` is the chain of mask tests.
  - `SignExtend` and `ToByte` make Java's `byte`/`int` conversions explicit.
    `buf.readByte()` assigned to an `int` copies bit 0x80 into bits 8-31.
    `(byte) x` keeps the low 8 bits.

The failures of `readUnsignedVarint32` become the two cases of
`DecodeError`:

- `Truncated`: the buffer ran out of readable bytes (netty throws
  `IndexOutOfBoundsException`). The bytes read before the failure stay
  consumed.
- `TooLong`: ten bytes in a row carried the continuation bit (the Java code
  throws `RuntimeException("Varint32 too long")`). Exactly those ten bytes
  are consumed.

## Model

| member | source | states |
|---|---|---|
| Util.ReadUnsignedVarint32 | src/bytegeist/protobuf/Util.java:7-29 | The result and the cursor movement are those of `Decode` on the readable bytes: a value, truncated or too long, and the number of bytes consumed. |
| Varint.DecodeSpec | src/bytegeist/protobuf/Util.java:7-29 | Decode returns a value exactly when the input starts with a complete varint, meaning a byte without 0x80 within the first ten bytes. It consumes just that varint and the value is its group sum. It fails with too long exactly when the first ten bytes all carry 0x80, consuming ten. It fails with truncated exactly when the input ends before that, consuming all of it. |
| Varint.DecodeFromOutcome | src/bytegeist/protobuf/Util.java:14-27 | From any point where every byte read so far carries 0x80, the decoder stops at the first byte without it, never consumes more than ten bytes, and fails only after continuation bytes. |
| Varint.FastPath | src/bytegeist/protobuf/Util.java:8-11 | A first byte with 0x80 clear is the value (0..127), and exactly one byte is consumed. |
| Varint.CombineAppend | src/bytegeist/protobuf/Util.java:14-16 | Reading byte n ORs its group, shifted left by 7n, into the result. From n = 5 on nothing is added. |
| Varint.CombineIsSum | src/bytegeist/protobuf/Util.java:16 | The decoded value is the little-endian base-128 sum of the groups in 32-bit arithmetic: low group + 128 * rest, modulo 2^32. |
| Varint.FifthByteHighBitsDropped | src/bytegeist/protobuf/Util.java:16 | Bits 4-6 of the fifth byte do not affect the value. |
| Varint.OverlongBytesIgnored | src/bytegeist/protobuf/Util.java:21-27 | Bytes after the fifth contribute nothing to the value. |
| Util.ReadGroupStep | src/bytegeist/protobuf/Util.java:15-19 | One pass of the first loop adds byte n's group at offset 7n. If the byte's 0x80 bit is clear, that sum is Decode's value and n + 1 bytes are consumed. |
| Util.IgnoreGroupStep | src/bytegeist/protobuf/Util.java:23-26 | In the second loop, a byte with 0x80 clear ends the varint with the five-byte sum unchanged. |
| Util.DecodeTooLongAt | src/bytegeist/protobuf/Util.java:22-28 | Ten continuation bytes decode to too long, with ten bytes consumed. |
| Util.DecodeTruncatedAt | src/bytegeist/protobuf/Util.java:15 | Running out of input after continuation bytes decodes to truncated, with everything consumed. |
| Util.OffsetStep | src/bytegeist/protobuf/Util.java:14 | The tests `offset < 32` and `offset < 64` hold for fewer than 5 and 10 bytes read, respectively. |
| Util.ShiftedGroup | src/bytegeist/protobuf/Util.java:16 | `(b & 0x7f) << offset` at offset 7n is the byte's group at position n. |
| Util.SignExtend | src/bytegeist/protobuf/Util.java:8 | Widening a byte keeps its group and its 0x80 bit. A byte without 0x80 widens to its own value. |
| Util.ReadByteAsInt | src/bytegeist/protobuf/Util.java:15 | `buf.readByte()` as an `int`: it returns the next byte sign-extended to 32 bits (`SignExtend`) and advances the cursor by one, or fails with the cursor unmoved. |
| Buffers.ByteBuf.ReadByte | src/bytegeist/protobuf/Util.java:8 | It returns the byte at the reader index and advances by one, or fails without moving when no byte is readable. |
| Buffers.ByteBuf.WriteByte | src/bytegeist/protobuf/Util.java:35 | It appends exactly the given byte. |
| Util.WriteUnsignedVarint32 | src/bytegeist/protobuf/Util.java:32-42 | The buffer afterwards is the old bytes followed by `Encoding(value)`, so exactly `SizeUnsignedVarint32(value)` bytes are appended. |
| Util.LastByteCast | src/bytegeist/protobuf/Util.java:34-36 | When `value & ~0x7F == 0`, `(byte) value` is the whole encoding. |
| Util.MoreByteCast | src/bytegeist/protobuf/Util.java:37-39 | Otherwise the encoding is the low group of value with 0x80 set, followed by the encoding of `value >>> 7`. |
| Util.ToByte | src/bytegeist/protobuf/Util.java:38 | `(byte) x` keeps the low 7 bits of x and its 0x80 bit. |
| Varint.EncodedByte | src/bytegeist/protobuf/Util.java:34-38 | An encoded byte carries the value's low group, with 0x80 set exactly when it is not the last byte. |
| Varint.GroupCount | src/bytegeist/protobuf/Util.java:33-41 | The number of groups lies in 1..5. Nothing is left after shifting them out, and something is left after one group fewer. |
| Varint.GroupCountShift | src/bytegeist/protobuf/Util.java:39 | `value >>>= 7` on a value with bits above its low group removes exactly one group. |
| Varint.Encoding | src/bytegeist/protobuf/Util.java:32-42 | The encoding has one byte per group of the value. |
| Varint.EncodingGroups | src/bytegeist/protobuf/Util.java:33-41 | Byte i of the encoding carries bits 7i..7i+6 of the value in its low 7 bits. |
| Varint.EncodingTerminated | src/bytegeist/protobuf/Util.java:33-41 | Every byte of the encoding but the last has 0x80 set, and the last has it clear. The length bound of 1..5 comes from `Encoding` and `GroupCount`. |
| Varint.CombineEncoding | src/bytegeist/protobuf/Util.java:32-42 | The group sum of the encoding of v is v. |
| Varint.RoundTrip | src/bytegeist/protobuf/Util.java:7-42 | Decoding the encoding of v, followed by any bytes, gives v and consumes exactly the encoding. |
| Util.WriteThenRead | src/bytegeist/protobuf/Util.java:7-42 | Writing v at the end of a fully read buffer and reading from that same position gives v back, and leaves no byte unread. |
| Varint.EncodingExamples | src/bytegeist/protobuf/Util.java:32-42 | It gives sample encodings: 0, 127, 128, 300, 2^14-1, 2^14, 0x80000000 and 0xFFFFFFFF (FF FF FF FF 0F). |
| Varint.DecodeExample | src/bytegeist/protobuf/Util.java:7-20 | AC 02 decodes to 300, and the byte after it is not consumed. |
| Varint.DecodeFifthByteExample | src/bytegeist/protobuf/Util.java:16 | FF FF FF FF 7F decodes to 0xFFFFFFFF. |
| Varint.DecodeOverlongExample | src/bytegeist/protobuf/Util.java:21-27 | A ten-byte encoding of 0 decodes to 0, with ten bytes consumed. |
| Varint.DecodeErrorExamples | src/bytegeist/protobuf/Util.java:22-28 | Empty and cut-off input is truncated. Ten or eleven continuation bytes are too long, with ten consumed. |
| Util.SizeUnsignedVarint32 | src/bytegeist/protobuf/Util.java:45-59 | The mask tests give exactly the number of bytes the writer appends, always 1..5. |
| Util.SizeSmallest | src/bytegeist/protobuf/Util.java:45-58 | The size is the smallest k in 1..4 with value < 2^(7k) (unsigned), else 5. |
| Util.SizeMonotone | src/bytegeist/protobuf/Util.java:45-58 | A larger unsigned value never has a smaller size. |

## Left out

- netty `ByteBuf` internals are not modelled: capacity growth, `maxCapacity`, pooling, reference counting, and the index APIs other than one-byte read and append. The buffer is the written bytes plus a reader index.
- Buffers.ByteBuf.WriteByte: never fails, because capacity limits are not modelled.
- The Java exception types are not modelled. Both failures are the `DecodeError` result: `Truncated` for netty's read failure, and `TooLong` for the "Varint32 too long" `RuntimeException`.
- Concurrency is not modelled: the codec holds no state, and the buffer's cursor is the caller's to serialise.
- Signed and zig-zag varints, field tags and message framing are not modelled, because none of them appear in this code.
- Util.SizeUnsignedVarint32: returns a `nat`, not a Java `int`. This is harmless because the value is always 1..5.
