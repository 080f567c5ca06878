/** The three static operations of bytegeist's protobuf `Util`: reading and
    writing an unsigned varint32 through a byte buffer, and predicting the
    length of its encoding. Java `int` values are 32-bit patterns (bv32). */
module Util {
  import opened Wrappers
  import opened Buffers
  import opened Varint

  /** Java's widening of a `byte` to an `int`: the sign bit 0x80 is copied
      into bits 8..31. */
  function SignExtend(b: bv8): (r: bv32)
    ensures r & 0x7F == Group(b)
    ensures (r & 0x80 == 0) == !HasMore(b)
    ensures !HasMore(b) ==> r == b as bv32 && r < 0x80
  {
    if b & 0x80 == 0 then b as bv32 else (b as bv32) | 0xFFFF_FF00
  }

  /** Java's narrowing cast `(byte) x`: the low 8 bits. */
  function ToByte(x: bv32): (b: bv8)
    ensures Group(b) == x & 0x7F
    ensures HasMore(b) == (x & 0x80 != 0)
  {
    (x & 0xFF) as bv8
  }

  /** The bit offset of group n: 7n, as a Java `int`. */
  function Offset(n: nat): (o: bv32)
    requires n <= 10
  {
    if n == 0 then 0 else if n == 1 then 7 else if n == 2 then 14
    else if n == 3 then 21 else if n == 4 then 28 else if n == 5 then 35
    else if n == 6 then 42 else if n == 7 then 49 else if n == 8 then 56
    else if n == 9 then 63 else 70
  }

  /** `(b & 0x7f) << offset`, for the byte `x` read as `b` at the offset of
      group n, is the group of `x` at its place in the sum. */
  lemma ShiftedGroup(x: bv8, b: bv32, n: nat, offset: bv32)
    requires n <= 4 && offset == Offset(n) && b & 0x7F == Group(x)
    ensures (b & 0x7F) << offset == Weighted(x, n)
  {
    if n == 0 {} else if n == 1 {} else if n == 2 {} else if n == 3 {} else {}
  }

  /** The offset test of the two read loops, and the step between offsets. */
  lemma OffsetStep(n: nat)
    requires n <= 10
    ensures (Offset(n) < 32) == (n < 5)
    ensures (Offset(n) < 64) == (n < 10)
    ensures n < 10 ==> Offset(n) + 7 == Offset(n + 1)
  {
  }

  /** `buf.readByte()` assigned to an `int`: the next readable byte, widened
      with sign extension, and the cursor one further; with no readable byte
      left, failure (None) and the cursor where it was. */
  method ReadByteAsInt(buf: ByteBuf) returns (r: Option<bv32>)
    requires buf.Valid()
    modifies buf`readerIndex
    ensures buf.Valid()
    ensures old(buf.readerIndex) == |buf.bytes| ==>
      r == None && buf.readerIndex == old(buf.readerIndex)
    ensures old(buf.readerIndex) < |buf.bytes| ==>
      r == Some(SignExtend(buf.bytes[old(buf.readerIndex)])) && buf.readerIndex == old(buf.readerIndex) + 1
  {
    var b := buf.ReadByte();
    if b.None? {
      return None;
    }
    return Some(SignExtend(b.value));
  }

  /** Reads an unsigned varint32 at the reader index. The value and the cursor
      movement are those of `Decode` on the readable bytes: on success the
      cursor moves past the varint, on a truncated varint past every readable
      byte, on a varint with ten continuation bytes past those ten. */
  method ReadUnsignedVarint32(buf: ByteBuf) returns (r: Result<bv32, DecodeError>)
    requires buf.Valid()
    modifies buf`readerIndex
    ensures buf.Valid()
    ensures r == Decode(old(buf.Readable())).result
    ensures buf.readerIndex == old(buf.readerIndex) + Decode(old(buf.Readable())).consumed
  {
    ghost var s := buf.Readable();
    ghost var start := buf.readerIndex;
    var first := ReadByteAsInt(buf);
    if first.None? {
      DecodeTruncatedAt(s, 0);
      return Err(Truncated);
    }
    var firstByte := first.value;
    if firstByte & 0x80 == 0 {
      FastPath(s);
      return Ok(firstByte);
    }
    var result := firstByte & 0x7F;
    assert HasMore(s[0]);
    var offset: bv32 := 7;
    ghost var n: nat := 1;
    FirstGroup(s);
    while offset < 32
      invariant 1 <= n <= 5 && offset == Offset(n)
      invariant n <= |s| && buf.readerIndex == start + n
      invariant forall j :: 0 <= j < n ==> HasMore(s[j])
      invariant result == Combine(s[..n])
    {
      OffsetStep(n);
      var next := ReadByteAsInt(buf);
      if next.None? {
        DecodeTruncatedAt(s, n);
        return Err(Truncated);
      }
      var b := next.value;
      ReadGroupStep(s, n, result, b, offset);
      result := result | ((b & 0x7F) << offset);
      if b & 0x80 == 0 {
        return Ok(result);
      }
      offset := offset + 7;
      n := n + 1;
    }
    // Keep reading up to the length of a 64-bit varint.
    while offset < 64
      invariant 5 <= n <= 10 && offset == Offset(n)
      invariant n <= |s| && buf.readerIndex == start + n
      invariant forall j :: 0 <= j < n ==> HasMore(s[j])
      invariant result == Combine(s[..5])
    {
      OffsetStep(n);
      var next := ReadByteAsInt(buf);
      if next.None? {
        DecodeTruncatedAt(s, n);
        return Err(Truncated);
      }
      var b := next.value;
      IgnoreGroupStep(s, n, result, b);
      if b & 0x80 == 0 {
        return Ok(result);
      }
      offset := offset + 7;
      n := n + 1;
    }
    OffsetStep(n);
    DecodeTooLongAt(s);
    return Err(TooLong);
  }

  lemma FirstGroup(s: seq<bv8>)
    requires s != []
    ensures Combine(s[..1]) == Group(s[0])
  {
    assert s[..1] == [s[0]];
    CombineSingle(s[0]);
  }

  /** `result | ((b & 0x7f) << offset)` adds the group of byte n read as `b`. */
  lemma ReadGroup(s: seq<bv8>, n: nat, result: bv32, b: bv32, offset: bv32)
    requires n < |s| && n <= 4 && offset == Offset(n)
    requires result == Combine(s[..n]) && b & 0x7F == Group(s[n])
    ensures result | ((b & 0x7F) << offset) == Combine(s[..n + 1])
  {
    AppendGroup(s, n);
    ShiftedGroup(s[n], b, n, offset);
  }

  /** One pass of the first read loop, for byte n read as `b`: the decoder
      stops at it with the new sum, or goes on from there with it. */
  lemma ReadGroupStep(s: seq<bv8>, n: nat, result: bv32, b: bv32, offset: bv32)
    requires n < |s| && n <= 4 && offset == Offset(n)
    requires (forall j :: 0 <= j < n ==> HasMore(s[j])) && result == Combine(s[..n])
    requires b & 0x7F == Group(s[n]) && (b & 0x80 == 0) == !HasMore(s[n])
    ensures b & 0x80 == 0 ==> Decode(s) == Decoding(Ok(result | ((b & 0x7F) << offset)), n + 1)
    ensures result | ((b & 0x7F) << offset) == Combine(s[..n + 1])
  {
    ReadGroup(s, n, result, b, offset);
    if b & 0x80 == 0 {
      DecodeStopsAt(s, n);
    }
  }

  /** One pass of the second read loop, for byte n read as `b`. */
  lemma IgnoreGroupStep(s: seq<bv8>, n: nat, result: bv32, b: bv32)
    requires 5 <= n < |s| && n < MaxVarintBytes
    requires (forall j :: 0 <= j < n ==> HasMore(s[j])) && result == Combine(s[..5])
    requires (b & 0x80 == 0) == !HasMore(s[n])
    ensures b & 0x80 == 0 ==> Decode(s) == Decoding(Ok(result), n + 1)
  {
    if b & 0x80 == 0 {
      DecodeStopsAt(s, n);
      OverlongBytesIgnored(s[..n + 1]);
      assert s[..n + 1][..5] == s[..5];
    }
  }

  lemma DecodeStopsAt(s: seq<bv8>, n: nat)
    requires n < |s| && n < MaxVarintBytes && !HasMore(s[n])
    requires forall j :: 0 <= j < n ==> HasMore(s[j])
    ensures Decode(s) == Decoding(Ok(Combine(s[..n + 1])), n + 1)
  {
    assert Terminated(s, n + 1);
    DecodeSpec(s);
  }

  lemma DecodeTruncatedAt(s: seq<bv8>, n: nat)
    requires n == |s| < MaxVarintBytes
    requires forall j :: 0 <= j < n ==> HasMore(s[j])
    ensures Decode(s) == Decoding(Err(Truncated), n)
  {
    DecodeSpec(s);
  }

  lemma DecodeTooLongAt(s: seq<bv8>)
    requires MaxVarintBytes <= |s|
    requires forall j :: 0 <= j < MaxVarintBytes ==> HasMore(s[j])
    ensures Decode(s) == Decoding(Err(TooLong), MaxVarintBytes)
  {
    DecodeSpec(s);
  }

  /** Appends the varint32 encoding of `value` at the writer index. */
  method WriteUnsignedVarint32(buf: ByteBuf, value: bv32)
    requires buf.Valid()
    modifies buf`bytes
    ensures buf.Valid()
    ensures buf.bytes == old(buf.bytes) + Encoding(value)
    ensures |buf.bytes| == |old(buf.bytes)| + SizeUnsignedVarint32(value)
  {
    var v := value;
    while true
      invariant buf.Valid()
      invariant buf.bytes + Encoding(v) == old(buf.bytes) + Encoding(value)
      decreases |Encoding(v)|
    {
      if v & !0x7F == 0 {
        LastByteCast(v);
        buf.WriteByte(ToByte(v));
        return;
      } else {
        MoreByteCast(v);
        buf.WriteByte(ToByte((v & 0x7F) | 0x80));
        v := v >> 7;
      }
    }
  }

  /** Writing `value` at the end of a fully read buffer and reading from
      the same position gives `value` back and leaves no byte unread. */
  method WriteThenRead(buf: ByteBuf, value: bv32) returns (r: Result<bv32, DecodeError>)
    requires buf.Valid() && buf.readerIndex == |buf.bytes|
    modifies buf
    ensures buf.Valid()
    ensures buf.bytes == old(buf.bytes) + Encoding(value)
    ensures r == Ok(value) && buf.readerIndex == |buf.bytes|
  {
    WriteUnsignedVarint32(buf, value);
    assert buf.Readable() == Encoding(value) + [];
    RoundTrip(value, []);
    r := ReadUnsignedVarint32(buf);
  }

  /** With nothing above the low 7 bits, `(byte) value` is the whole encoding. */
  lemma LastByteCast(v: bv32)
    requires v & !0x7F == 0
    ensures Encoding(v) == [ToByte(v)]
  {
    HighGroupsClear(v);
    ByteFromParts(ToByte(v), EncodedByte(v, true));
  }

  /** Otherwise `(byte) ((value & 0x7F) | 0x80)` comes first, and the encoding
      of `value >>> 7` follows. */
  lemma MoreByteCast(v: bv32)
    requires v & !0x7F != 0
    ensures Encoding(v) == [ToByte((v & 0x7F) | 0x80)] + Encoding(v >> 7)
  {
    HighGroupsClear(v);
    ContinuationByte(v);
    ByteFromParts(ToByte((v & 0x7F) | 0x80), EncodedByte(v, false));
  }

  lemma HighGroupsClear(v: bv32)
    ensures (v & !0x7F == 0) == (v >> 7 == 0)
    ensures v >> 7 == 0 ==> v & 0x7F == v && v & 0x80 == 0
  {
  }

  lemma ContinuationByte(v: bv32)
    ensures ((v & 0x7F) | 0x80) & 0x7F == v & 0x7F
    ensures ((v & 0x7F) | 0x80) & 0x80 != 0
  {
  }

  /** The length of the varint32 encoding of `value`, from mask tests on its
      high bits: the number of bytes `WriteUnsignedVarint32` appends. */
  function SizeUnsignedVarint32(value: bv32): (r: nat)
    ensures 1 <= r <= 5
    ensures r == |Encoding(value)|
  {
    if value & (!0 << 7) == 0 then 1
    else if value & (!0 << 14) == 0 then 2
    else if value & (!0 << 21) == 0 then 3
    else if value & (!0 << 28) == 0 then 4
    else 5
  }

  /** 2^(7k): the least value whose encoding takes more than k bytes. */
  function GroupLimit(k: nat): bv32
    requires 1 <= k <= 4
  {
    if k == 1 then 0x80 else if k == 2 then 0x4000
    else if k == 3 then 0x20_0000 else 0x1000_0000
  }

  /** The size is the smallest k in 1..4 with `value` < 2^(7k) (unsigned),
      and 5 when there is none. */
  lemma SizeSmallest(value: bv32)
    ensures SizeUnsignedVarint32(value) <= 4 ==>
      value < GroupLimit(SizeUnsignedVarint32(value))
    ensures forall k :: 1 <= k < SizeUnsignedVarint32(value) ==> GroupLimit(k) <= value
  {
  }

  /** A larger value (unsigned) never has a shorter encoding. */
  lemma SizeMonotone(u: bv32, v: bv32)
    requires u <= v
    ensures SizeUnsignedVarint32(u) <= SizeUnsignedVarint32(v)
  {
  }
}
