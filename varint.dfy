/** The unsigned varint32 wire format of Protocol Buffers ("Base 128 Varints"):
    7 value bits per byte, least-significant group first, bit 0x80 set on every
    byte but the last. Values are 32-bit patterns (bv32), bytes are bv8. */
module Varint {
  import opened Wrappers

  /** The reader accepts an encoding as long as a 64-bit varint: 10 bytes. */
  const MaxVarintBytes: nat := 10

  /** The continuation bit: another byte of the same varint follows. */
  predicate HasMore(b: bv8)
  {
    b & 0x80 != 0
  }

  /** The 7 value bits a byte carries. */
  function Group(b: bv8): (g: bv32)
    ensures g < 0x80
  {
    (b & 0x7F) as bv32
  }

  /** `v >>> 7i`: `v` with its i lowest 7-bit groups shifted out (logical
      shift); nothing is left after five groups. */
  function DropGroups(v: bv32, i: nat): bv32
  {
    if i == 0 then v
    else if i == 1 then v >> 7
    else if i == 2 then v >> 14
    else if i == 3 then v >> 21
    else if i == 4 then v >> 28
    else 0
  }

  /** The group of `b` moved up to group position i, onto bits 7i..7i+6, that
      is multiplied by 128^i modulo 2^32; from i = 5 on nothing is left, and
      at i = 4 only the low four bits of the group fit. */
  function Weighted(b: bv8, i: nat): bv32
  {
    if i == 0 then Group(b)
    else if i == 1 then Group(b) << 7
    else if i == 2 then Group(b) << 14
    else if i == 3 then Group(b) << 21
    else if i == 4 then Group(b) << 28
    else 0
  }

  /** The little-endian base-128 number whose digits are the 7-bit groups of
      `s`, reduced modulo 2^32: group i lands on bits 7i.. and whatever is
      shifted past bit 31 is lost. The shifted rest has its low 7 bits clear,
      so the `|` is the sum (`CombineIsSum`). */
  function Combine(s: seq<bv8>): bv32
  {
    if s == [] then 0 else Group(s[0]) | (Combine(s[1..]) << 7)
  }

  /** `n` bytes make a complete varint at the front of `s`: the n-th byte is
      the first one with the continuation bit clear, within the 10-byte limit. */
  ghost predicate Terminated(s: seq<bv8>, n: nat)
  {
    1 <= n <= |s| && n <= MaxVarintBytes &&
    !HasMore(s[n - 1]) && forall j :: 0 <= j < n - 1 ==> HasMore(s[j])
  }

  datatype DecodeError =
    | Truncated  // the buffer ran out of readable bytes inside the varint
    | TooLong    // ten bytes in a row carried the continuation bit

  /** The outcome of decoding and how many bytes the decoder took from the buffer. */
  datatype Decoding = Decoding(result: Result<bv32, DecodeError>, consumed: nat)

  /** The decoder after `n` bytes of `s` that all carry the continuation bit:
      it fails with "too long" after ten of them, with "truncated" when no
      byte is left, and otherwise goes on past a byte with the continuation bit
      or stops at one without it, the value being the sum of the groups of the
      bytes read. */
  function DecodeFrom(s: seq<bv8>, n: nat): Decoding
    requires n <= |s| && n <= MaxVarintBytes
    decreases MaxVarintBytes - n
  {
    if n == MaxVarintBytes then Decoding(Err(TooLong), n)
    else if n == |s| then Decoding(Err(Truncated), n)
    else if HasMore(s[n]) then DecodeFrom(s, n + 1)
    else Decoding(Ok(Combine(s[..n + 1])), n + 1)
  }

  /** Decoding a varint32 from the readable bytes `s`. */
  function Decode(s: seq<bv8>): Decoding
  {
    DecodeFrom(s, 0)
  }

  lemma AppendGroup(s: seq<bv8>, n: nat)
    requires n < |s|
    ensures Combine(s[..n + 1]) == Combine(s[..n]) | Weighted(s[n], n)
  {
    assert s[..n + 1] == s[..n] + [s[n]];
    CombineAppend(s[..n], s[n]);
  }

  /** The outcome `d` of decoding `s` from after its first `n` bytes: it stops
      at the first byte without the continuation bit, with the sum of the groups
      up to it; it fails only after bytes that all carry the continuation bit,
      ten of them for "too long", all of the input (fewer than ten) for
      "truncated". */
  ghost predicate Outcome(s: seq<bv8>, n: nat, d: Decoding)
  {
    n <= d.consumed <= |s| && d.consumed <= MaxVarintBytes &&
    (d.result.Ok? ==> Terminated(s, d.consumed) && d.result.value == Combine(s[..d.consumed])) &&
    (d.result.Err? ==> forall j :: 0 <= j < d.consumed ==> HasMore(s[j])) &&
    (d.result == Err(TooLong) ==> d.consumed == MaxVarintBytes) &&
    (d.result == Err(Truncated) ==> d.consumed == |s| < MaxVarintBytes)
  }

  /** The decoder's loop, from any point where the bytes read so far all carry
      the continuation bit. */
  lemma {:induction false} DecodeFromOutcome(s: seq<bv8>, n: nat)
    requires n <= |s| && n <= MaxVarintBytes
    requires forall j :: 0 <= j < n ==> HasMore(s[j])
    ensures Outcome(s, n, DecodeFrom(s, n))
    decreases MaxVarintBytes - n
  {
    if n < MaxVarintBytes && n < |s| {
      if HasMore(s[n]) {
        DecodeFromOutcome(s, n + 1);
      } else {
        assert Terminated(s, n + 1);
      }
    }
  }

  /** A complete varint ends at one place only. */
  lemma TerminatedUnique(s: seq<bv8>, m: nat, n: nat)
    requires Terminated(s, m) && Terminated(s, n)
    ensures m == n
  {
  }

  /** What `Decode` promises: a value exactly when the input starts with a
      complete varint, consuming just that varint, the value being the sum of
      its groups; "too long" exactly when the first ten bytes all carry the
      continuation bit, consuming those ten; "truncated" exactly when the input
      ends before that, consuming all of it. */
  lemma DecodeSpec(s: seq<bv8>)
    ensures Decode(s).result.Ok? ==> Terminated(s, Decode(s).consumed)
    ensures Decode(s).result.Ok? ==> Decode(s).result.value == Combine(s[..Decode(s).consumed])
    ensures forall n :: Terminated(s, n) ==> Decode(s).result.Ok? && Decode(s).consumed == n
    ensures Decode(s).result == Err(TooLong) <==>
      |s| >= MaxVarintBytes && forall j :: 0 <= j < MaxVarintBytes ==> HasMore(s[j])
    ensures Decode(s).result == Err(Truncated) <==>
      |s| < MaxVarintBytes && forall j :: 0 <= j < |s| ==> HasMore(s[j])
    ensures Decode(s).result.Err? ==>
      Decode(s).consumed == if |s| < MaxVarintBytes then |s| else MaxVarintBytes
  {
    var d := Decode(s);
    assert s[..0] == [];
    DecodeFromOutcome(s, 0);
    forall n | Terminated(s, n)
      ensures d.result.Ok? && d.consumed == n
    {
      if d.result.Ok? {
        TerminatedUnique(s, d.consumed, n);
      }
    }
  }

  /** Number of 7-bit groups of `v` up to its highest non-zero one (at least one). */
  function GroupCount(v: bv32): (n: nat)
    ensures 1 <= n <= 5
    ensures DropGroups(v, n) == 0
    ensures n > 1 ==> DropGroups(v, n - 1) != 0
  {
    if v >> 7 == 0 then 1
    else if v >> 14 == 0 then 2
    else if v >> 21 == 0 then 3
    else if v >> 28 == 0 then 4
    else 5
  }

  /** An encoded byte: the low 7 bits of `v`, with the continuation bit unless
      it is the last byte. */
  function EncodedByte(v: bv32, last: bool): (b: bv8)
    ensures Group(b) == v & 0x7F
    ensures HasMore(b) == !last
  {
    ((v & 0x7F) | (if last then 0 else 0x80)) as bv8
  }

  /** Shifting out the low group of a value that has more leaves one group fewer. */
  lemma GroupCountShift(v: bv32)
    requires v >> 7 != 0
    ensures GroupCount(v >> 7) == GroupCount(v) - 1
  {
    var n := GroupCount(v);
    if n == 2 {} else if n == 3 {} else if n == 4 {} else {}
  }

  /** The varint32 encoding of `v`: its low group as the last byte when nothing
      is left above it, otherwise as a byte with the continuation bit followed by
      the encoding of `v >>> 7`. It has one byte per group of `v`. */
  function Encoding(v: bv32): (e: seq<bv8>)
    ensures |e| == GroupCount(v)
    decreases GroupCount(v)
  {
    if v >> 7 == 0 then [EncodedByte(v, true)]
    else
      GroupCountShift(v);
      [EncodedByte(v, false)] + Encoding(v >> 7)
  }

  /** Each step of `Combine` is an addition: Horner's rule in base 128, modulo 2^32. */
  lemma CombineIsSum(s: seq<bv8>)
    requires s != []
    ensures Combine(s) == Group(s[0]) + Combine(s[1..]) * 128
  {
    LowGroupOrIsAdd(Group(s[0]), Combine(s[1..]));
  }

  lemma LowGroupOrIsAdd(g: bv32, c: bv32)
    requires g < 0x80
    ensures g | (c << 7) == g + c * 128
  {
  }

  /** One more group position is one more 7-bit shift. */
  lemma WeightedShift(b: bv8, i: nat)
    ensures Weighted(b, i) << 7 == Weighted(b, i + 1)
  {
    if i == 0 {} else if i == 1 {} else if i == 2 {} else if i == 3 {} else if i == 4 {} else {}
  }

  lemma HornerStep(g: bv32, c: bv32, w: bv32)
    ensures g | ((c | w) << 7) == (g | (c << 7)) | (w << 7)
  {
  }

  lemma CombineSingle(b: bv8)
    ensures Combine([b]) == Group(b)
  {
    assert [b][1..] == [];
  }

  lemma AppendFront(p: seq<bv8>, b: bv8)
    requires p != []
    ensures (p + [b])[0] == p[0] && (p + [b])[1..] == p[1..] + [b]
  {
  }

  /** Appending a byte adds its weighted group to the sum. */
  lemma {:induction false} CombineAppend(p: seq<bv8>, b: bv8)
    ensures Combine(p + [b]) == Combine(p) | Weighted(b, |p|)
  {
    if p == [] {
      assert p + [b] == [b];
      CombineSingle(b);
    } else {
      var g, t, w := Group(p[0]), Combine(p[1..]), Weighted(b, |p| - 1);
      calc {
        Combine(p + [b]);
        { AppendFront(p, b); }
        g | (Combine(p[1..] + [b]) << 7);
        { CombineAppend(p[1..], b); }
        g | ((t | w) << 7);
        { HornerStep(g, t, w); }
        (g | (t << 7)) | (w << 7);
        { WeightedShift(b, |p| - 1); }
        Combine(p) | Weighted(b, |p|);
      }
    }
  }

  /** Bytes past the fifth contribute nothing to the value. */
  lemma {:induction false} OverlongBytesIgnored(s: seq<bv8>)
    requires |s| >= 5
    ensures Combine(s) == Combine(s[..5])
  {
    if |s| == 5 {
      assert s[..5] == s;
    } else {
      var p, b := s[..|s| - 1], s[|s| - 1];
      assert s == p + [b];
      assert p[..5] == s[..5];
      CombineAppend(p, b);
      OverlongBytesIgnored(p);
    }
  }

  /** Bits 4-6 of the fifth byte are shifted out of the 32-bit value. */
  lemma FifthByteHighBitsDropped(p: seq<bv8>, b: bv8)
    requires |p| == 4
    ensures Combine(p + [b]) == Combine(p + [b & 0x0F])
  {
    CombineAppend(p, b);
    CombineAppend(p, b & 0x0F);
  }

  /** A byte is determined by its group and its continuation bit. */
  lemma ByteFromParts(b: bv8, c: bv8)
    ensures Group(b) == Group(c) && HasMore(b) == HasMore(c) ==> b == c
  {
  }

  lemma DropOneGroup(v: bv32, i: nat)
    ensures DropGroups(v, i + 1) == DropGroups(v >> 7, i)
  {
    if i == 0 {} else if i == 1 {} else if i == 2 {} else if i == 3 {} else if i == 4 {} else {}
  }

  /** A value with bits above its low group is encoded as a continuation byte
      followed by the encoding of the rest. */
  lemma EncodingCons(v: bv32)
    requires v >> 7 != 0
    ensures Encoding(v) == [EncodedByte(v, false)] + Encoding(v >> 7)
  {
  }

  lemma CombineCons(b: bv8, t: seq<bv8>)
    ensures Combine([b] + t) == Group(b) | (Combine(t) << 7)
  {
    assert ([b] + t)[1..] == t;
  }

  /** An encoding is a complete varint: the continuation bit is set on every
      byte but the last. */
  lemma {:induction false} EncodingTerminated(v: bv32)
    ensures Terminated(Encoding(v), |Encoding(v)|)
    decreases GroupCount(v)
  {
    if v >> 7 != 0 {
      var x, t := EncodedByte(v, false), Encoding(v >> 7);
      EncodingCons(v);
      EncodingTerminated(v >> 7);
      assert forall j :: 1 <= j < |t| + 1 ==> ([x] + t)[j] == t[j - 1];
    }
  }

  /** The byte layout of an encoding: byte i carries bits 7i..7i+6 of `v`. */
  lemma {:induction false} EncodingGroups(v: bv32)
    ensures forall i :: 0 <= i < |Encoding(v)| ==> Group(Encoding(v)[i]) == DropGroups(v, i) & 0x7F
    decreases GroupCount(v)
  {
    if v >> 7 != 0 {
      EncodingGroups(v >> 7);
      EncodingGroupsStep(v, v >> 7);
    }
  }

  lemma EncodingGroupsStep(v: bv32, w: bv32)
    requires w == v >> 7 && w != 0
    requires forall i :: 0 <= i < |Encoding(w)| ==> Group(Encoding(w)[i]) == DropGroups(w, i) & 0x7F
    ensures forall i :: 0 <= i < |Encoding(v)| ==> Group(Encoding(v)[i]) == DropGroups(v, i) & 0x7F
  {
    EncodingCons(v);
    forall i | 1 <= i < |Encoding(v)|
      ensures Group(Encoding(v)[i]) == DropGroups(v, i) & 0x7F
    {
      EncodingGroupAt(v, w, i);
    }
  }

  /** Byte i of the encoding of `v` is byte i - 1 of the encoding of
      `v >>> 7`, and the bits it should carry are the same. */
  lemma EncodingGroupAt(v: bv32, w: bv32, i: nat)
    requires w == v >> 7 && w != 0 && 1 <= i < |Encoding(v)|
    ensures i - 1 < |Encoding(w)|
    ensures Encoding(v)[i] == Encoding(w)[i - 1] && DropGroups(v, i) == DropGroups(w, i - 1)
  {
    EncodingTail(v, w, i);
    DropOneGroup(v, i - 1);
  }

  lemma EncodingTail(v: bv32, w: bv32, i: nat)
    requires w == v >> 7 && w != 0 && 1 <= i < |Encoding(v)|
    ensures i - 1 < |Encoding(w)| && Encoding(v)[i] == Encoding(w)[i - 1]
  {
    EncodingCons(v);
  }

  lemma SplitLowGroup(v: bv32)
    ensures (v & 0x7F) | ((v >> 7) << 7) == v
    ensures v >> 7 == 0 ==> v & 0x7F == v
  {
  }

  /** The sum of an encoding's groups is the encoded value. */
  lemma {:induction false} CombineEncoding(v: bv32)
    ensures Combine(Encoding(v)) == v
    decreases GroupCount(v)
  {
    if v >> 7 == 0 {
      SplitLowGroup(v);
      CombineSingle(EncodedByte(v, true));
    } else {
      GroupCountShift(v);
      CombineEncoding(v >> 7);
      CombineEncodingStep(v);
    }
  }

  lemma CombineEncodingStep(v: bv32)
    requires v >> 7 != 0
    ensures Combine(Encoding(v)) == (v & 0x7F) | (Combine(Encoding(v >> 7)) << 7)
  {
    EncodingCons(v);
    CombineCons(EncodedByte(v, false), Encoding(v >> 7));
  }

  /** Encoding and then decoding gives the value back and consumes exactly the
      encoding, whatever bytes follow it. */
  lemma RoundTrip(v: bv32, rest: seq<bv8>)
    ensures Decode(Encoding(v) + rest) == Decoding(Ok(v), |Encoding(v)|)
  {
    var e := Encoding(v);
    var s := e + rest;
    EncodingTerminated(v);
    assert forall j :: 0 <= j < |e| ==> s[j] == e[j];
    assert Terminated(s, |e|);
    DecodeSpec(s);
    assert s[..|e|] == e;
    CombineEncoding(v);
  }

  /** A first byte without the continuation bit is the whole value. */
  lemma FastPath(s: seq<bv8>)
    requires s != [] && !HasMore(s[0])
    ensures Decode(s) == Decoding(Ok(s[0] as bv32), 1)
  {
    assert s[..1] == [s[0]];
    CombineSingle(s[0]);
  }

  /** Sample encodings, among them the five-byte encoding of 0xFFFFFFFF that
      the logical shift makes possible. */
  lemma EncodingExamples()
    ensures Encoding(0) == [0x00]
    ensures Encoding(0x7F) == [0x7F]
    ensures Encoding(0x80) == [0x80, 0x01]
    ensures Encoding(300) == [0xAC, 0x02]
    ensures Encoding(0x3FFF) == [0xFF, 0x7F]
    ensures Encoding(0x4000) == [0x80, 0x80, 0x01]
    ensures Encoding(0xFFFF_FFFF) == [0xFF, 0xFF, 0xFF, 0xFF, 0x0F]
    ensures Encoding(0x8000_0000) == [0x80, 0x80, 0x80, 0x80, 0x08]
  {
    EncodingCons(0xFFFF_FFFF);
    EncodingCons(0x1FF_FFFF);
    EncodingCons(0x3_FFFF);
    EncodingCons(0x7FF);
    EncodingCons(0x8000_0000);
    EncodingCons(0x100_0000);
    EncodingCons(0x2_0000);
    EncodingCons(0x400);
  }

  /** 300, as in the Protocol Buffers documentation; the byte after it is not
      read. */
  lemma DecodeExample()
    ensures Decode([0xAC, 0x02, 0x05]) == Decoding(Ok(300), 2)
  {
    var s: seq<bv8> := [0xAC, 0x02, 0x05];
    assert Terminated(s, 2);
    DecodeSpec(s);
    assert s[..2] == [0xAC, 0x02];
  }

  /** Bits 4-6 of a fifth byte 0x7F are lost: the value is still 0xFFFFFFFF. */
  lemma DecodeFifthByteExample()
    ensures Decode([0xFF, 0xFF, 0xFF, 0xFF, 0x7F]) == Decoding(Ok(0xFFFF_FFFF), 5)
  {
    var s: seq<bv8> := [0xFF, 0xFF, 0xFF, 0xFF, 0x7F];
    assert Terminated(s, 5);
    DecodeSpec(s);
    assert s[..5] == s;
  }

  /** A ten-byte encoding of 0 is accepted. */
  lemma DecodeOverlongExample()
    ensures Decode([0x80, 0x80, 0x80, 0x80, 0x80, 0x80, 0x80, 0x80, 0x80, 0x01]) == Decoding(Ok(0), 10)
  {
    var s: seq<bv8> := [0x80, 0x80, 0x80, 0x80, 0x80, 0x80, 0x80, 0x80, 0x80, 0x01];
    assert Terminated(s, 10);
    DecodeSpec(s);
    OverlongBytesIgnored(s[..10]);
    assert s[..10][..5] == [0x80, 0x80, 0x80, 0x80, 0x80];
    CombineSingle(0x80);
    CombineCons(0x80, [0x80]);
    CombineCons(0x80, [0x80, 0x80]);
    CombineCons(0x80, [0x80, 0x80, 0x80]);
    CombineCons(0x80, [0x80, 0x80, 0x80, 0x80]);
  }

  /** Empty and cut-off input is truncated; ten continuation bytes are too
      long, whether the input ends there or not, and only ten are consumed. */
  lemma DecodeErrorExamples()
    ensures Decode([]) == Decoding(Err(Truncated), 0)
    ensures Decode([0x80, 0x80]) == Decoding(Err(Truncated), 2)
    ensures Decode(seq(10, _ => 0x80)) == Decoding(Err(TooLong), 10)
    ensures Decode(seq(11, _ => 0x80)) == Decoding(Err(TooLong), 10)
  {
  }
}
