/** The byte buffer of `src/net/Buffer.h`: an array with a reader and a writer index, which
    behaves as a queue of bytes whatever it does to make room. */
module Buffers {
  import opened Word32
  import opened Wire

  const INITIAL_SIZE: nat := 1024
  const EXTRA_BUFFER_LEN: nat := 65536
  const READ_FROM_LEN: nat := 65536

  /** Most significant byte first, as the network wants a 32-bit number. */
  function BigEndian(x: int): (r: Bytes)
    ensures |r| == 4
  {
    var s := Put32(x);
    [s[3], s[2], s[1], s[0]]
  }

  /** The signed number in the first four bytes. */
  function Peeked(s: Bytes): (r: int)
    requires |s| >= 4
    ensures -HALF <= r < HALF
  {
    I32(Get32([s[3], s[2], s[1], s[0]], 0))
  }

  /** Most significant byte first. */
  lemma BigEndianLayout(x: int)
    ensures var s := BigEndian(x);
            16777216 * (s[0] as int) + 65536 * (s[1] as int) + 256 * (s[2] as int) + (s[3] as int) == W(x)
  {
    hide Put32;
    Get32OfPut32(x);
  }

  lemma SignedOfWord(x: int)
    requires -HALF <= x < HALF
    ensures I32(W(x)) == x
  {
  }

  lemma PeekedOfBigEndian(x: int, rest: Bytes)
    requires -HALF <= x < HALF
    ensures Peeked(BigEndian(x) + rest) == x
  {
    hide Get32, Put32, I32, W;
    Get32OfPut32(x);
    SignedOfWord(x);
    var s := Put32(x);
    var b := BigEndian(x) + rest;
    assert [b[3], b[2], b[1], b[0]] == s;
  }

  /** What one `readv` may return: how much fits the free space and the extra buffer. */
  function ReadLimit(writable: nat): nat {
    if writable < EXTRA_BUFFER_LEN then writable + EXTRA_BUFFER_LEN else writable
  }

  class Buffer {
    var buffer: array<Byte>
    var readerIndex: nat
    var writerIndex: nat

    ghost predicate Valid()
      reads this
    {
      readerIndex <= writerIndex <= buffer.Length
    }

    /** The queue. */
    ghost function Contents(): (s: Bytes)
      requires Valid()
      reads this, buffer
      ensures |s| == writerIndex - readerIndex
    {
      buffer[readerIndex..writerIndex]
    }

    constructor (initialSize: nat)
      ensures Valid() && fresh(buffer) && Contents() == [] && Writable() == initialSize
    {
      buffer := new Byte[initialSize];
      readerIndex, writerIndex := 0, 0;
    }

    function Readable(): nat
      requires Valid()
      reads this
    {
      writerIndex - readerIndex
    }

    function Writable(): nat
      requires Valid()
      reads this
    {
      buffer.Length - writerIndex
    }

    method RetrieveAll()
      requires Valid()
      modifies `readerIndex, `writerIndex
      ensures Valid() && Contents() == []
      ensures Writable() == buffer.Length
    {
      readerIndex, writerIndex := 0, 0;
    }

    method Retrieve(len: nat)
      requires Valid() && len <= |Contents()|
      modifies `readerIndex, `writerIndex
      ensures Valid() && Contents() == old(Contents())[len..]
      ensures len == |old(Contents())| ==> Writable() == buffer.Length
    {
      if len < Readable() {
        readerIndex := readerIndex + len;
      } else {
        RetrieveAll();
      }
    }

    /** `retrieveAsString`. */
    method RetrieveAs(len: nat) returns (result: Bytes)
      requires Valid() && len <= |Contents()|
      modifies `readerIndex, `writerIndex
      ensures Valid() && old(Contents()) == result + Contents() && |result| == len
    {
      result := buffer[readerIndex..readerIndex + len];
      Retrieve(len);
    }

    /** `resize`: a longer array with the same bytes in front. */
    method Resize(size: nat)
      requires Valid() && buffer.Length <= size
      modifies `buffer
      ensures Valid() && Contents() == old(Contents()) && fresh(buffer) && buffer.Length == size
    {
      var longer := new Byte[size];
      forall i | 0 <= i < buffer.Length {
        longer[i] := buffer[i];
      }
      buffer := longer;
    }

    /** Moves the readable bytes to the front, first byte first: source and target overlap. */
    method ShiftToFront()
      requires Valid() && readerIndex > 0
      modifies `readerIndex, `writerIndex, buffer
      ensures Valid() && Contents() == old(Contents()) && readerIndex == 0
    {
      var readable := Readable();
      ghost var was := Contents();
      var i := 0;
      while i < readable
        invariant 0 <= i <= readable
        invariant forall k :: 0 <= k < i ==> buffer[k] == was[k]
        invariant forall j :: readerIndex + i <= j < writerIndex ==> buffer[j] == was[j - readerIndex]
        modifies buffer
      {
        buffer[i] := buffer[readerIndex + i];
        i := i + 1;
      }
      readerIndex, writerIndex := 0, readable;
    }

    /** Its own assertion, that there is something before the readable bytes, holds. */
    method MakeSpace(len: nat)
      requires Valid() && Writable() < len
      modifies this, buffer
      ensures Valid() && Contents() == old(Contents()) && Writable() >= len
      ensures buffer == old(buffer) || fresh(buffer)
      ensures fresh(buffer) <==> old(buffer.Length) < old(Readable()) + len
    {
      if Writable() + readerIndex < len {
        Resize(writerIndex + len);
      } else {
        assert 0 < readerIndex;
        ShiftToFront();
      }
    }

    method EnsureWritableBytes(len: nat)
      requires Valid()
      modifies this, buffer
      ensures Valid() && Contents() == old(Contents()) && Writable() >= len
      ensures buffer == old(buffer) || fresh(buffer)
      ensures fresh(buffer) <==> old(buffer.Length) < old(Readable()) + len
    {
      if Writable() < len {
        MakeSpace(len);
      }
    }

    /** Bytes put behind the readable ones; they are not yet readable. */
    method CopyToWrite(bytes: Bytes)
      requires Valid() && |bytes| <= Writable()
      modifies buffer
      ensures buffer[readerIndex..writerIndex + |bytes|] == old(Contents()) + bytes
    {
      forall i | 0 <= i < |bytes| {
        buffer[writerIndex + i] := bytes[i];
      }
      assert buffer[readerIndex..writerIndex] == old(Contents());
      assert buffer[writerIndex..writerIndex + |bytes|] == bytes;
      assert buffer[readerIndex..writerIndex + |bytes|]
          == buffer[readerIndex..writerIndex] + buffer[writerIndex..writerIndex + |bytes|];
    }

    method Append(bytes: Bytes)
      requires Valid()
      modifies this, buffer
      ensures Valid() && Contents() == old(Contents()) + bytes
      ensures buffer == old(buffer) || fresh(buffer)
    {
      EnsureWritableBytes(|bytes|);
      CopyToWrite(bytes);
      writerIndex := writerIndex + |bytes|;
    }

    method AppendInt32(x: int)
      requires Valid() && -HALF <= x < HALF
      modifies this, buffer
      ensures Valid() && Contents() == old(Contents()) + BigEndian(x)
      ensures buffer == old(buffer) || fresh(buffer)
      ensures old(Contents()) == [] ==> Peeked(Contents()) == x
    {
      PeekedOfBigEndian(x, []);
      assert BigEndian(x) + [] == BigEndian(x);
      Append(BigEndian(x));
    }

    method PeekInt32() returns (x: int)
      requires Valid() && |Contents()| >= 4
      ensures x == Peeked(Contents())
    {
      var s := buffer[readerIndex..readerIndex + 4];
      assert s == Contents()[..4];
      x := I32(Get32([s[3], s[2], s[1], s[0]], 0));
    }

    /** `readFd`: `n` is what `readv` returned, and `got` the bytes it scattered over the free
        space and the extra buffer. */
    method ReadFd(n: int, got: Bytes) returns (r: int)
      requires Valid()
      requires n >= 0 ==> |got| == n <= ReadLimit(Writable())
      modifies this, buffer
      ensures Valid() && r == n && Contents() == old(Contents()) + (if n < 0 then [] else got)
      ensures buffer == old(buffer) || fresh(buffer)
    {
      var writable := Writable();
      if n < 0 {
        assert Contents() + [] == Contents();
      } else if n <= writable {
        CopyToWrite(got);
        writerIndex := writerIndex + n;
      } else {
        var extra := got[writable..];
        CopyToWrite(got[..writable]);
        writerIndex := buffer.Length;
        Append(extra);
        assert got == got[..writable] + extra;
      }
      r := n;
    }

    /** `readFrom`: a datagram of at most 65536 bytes. */
    method ReadFrom(n: int, got: Bytes) returns (r: int)
      requires Valid()
      requires n >= 0 ==> |got| == n <= READ_FROM_LEN
      modifies this, buffer
      ensures Valid() && r == n && Contents() == old(Contents()) + (if n < 0 then [] else got)
      ensures buffer == old(buffer) || fresh(buffer)
    {
      EnsureWritableBytes(READ_FROM_LEN);
      assert Contents() + [] == Contents();
      if n >= 0 {
        CopyToWrite(got);
        writerIndex := writerIndex + n;
      }
      r := n;
    }
  }
}
