/** The part of netty's ByteBuf that the varint codec relies on: one-byte reads
    through a reader cursor and one-byte appends at the writer end. */
module Buffers {
  import opened Wrappers

  class ByteBuf {
    // The bytes written so far, that is the buffer from index 0 up to the writer index.
    var bytes: seq<bv8>
    // Position of the next byte `ReadByte` returns.
    var readerIndex: nat

    ghost predicate Valid()
      reads this
    {
      readerIndex <= |bytes|
    }

    /** The readable bytes: from the reader index up to the writer index. */
    function Readable(): (r: seq<bv8>)
      reads this
      requires Valid()
      ensures |r| == |bytes| - readerIndex
    {
      bytes[readerIndex..]
    }

    /** A buffer holding `contents`, with the reader cursor at its start. */
    constructor Wrap(contents: seq<bv8>)
      ensures Valid()
      ensures bytes == contents && readerIndex == 0
    {
      bytes := contents;
      readerIndex := 0;
    }

    /** Returns the byte at the reader index and advances the cursor by one;
        with no readable byte left, fails (None) without moving the cursor. */
    method ReadByte() returns (r: Option<bv8>)
      requires Valid()
      modifies this`readerIndex
      ensures Valid()
      ensures old(readerIndex) == |bytes| ==> r == None && readerIndex == old(readerIndex)
      ensures old(readerIndex) < |bytes| ==>
        r == Some(bytes[old(readerIndex)]) && readerIndex == old(readerIndex) + 1
    {
      if readerIndex == |bytes| {
        r := None;
      } else {
        r := Some(bytes[readerIndex]);
        readerIndex := readerIndex + 1;
      }
    }

    /** Appends `b` at the writer index; the reader cursor does not move. */
    method WriteByte(b: bv8)
      requires Valid()
      modifies this`bytes
      ensures Valid()
      ensures bytes == old(bytes) + [b]
    {
      bytes := bytes + [b];
    }
  }
}
