/** The output buffer of a control block, as one `ikcp_flush` uses it: segments are written
    one after the other, and the buffer is handed to the output callback when the next
    segment would not fit the MTU. */
module Output {
  import opened Wire

  /** The outbox after writing these segments from empty. */
  function Box(mtu: int, written: seq<Packet>): Outbox {
    PutAll(mtu, Outbox([], []), written)
  }

  lemma BoxGrows(mtu: int, written: seq<Packet>, p: Packet)
    ensures Box(mtu, written + [p]) == Put(mtu, Box(mtu, written), p)
  {
    assert (written + [p])[..|written|] == written;
  }

  lemma AppendOne(d: Datagram, p: Packet)
    ensures EncodeAll(d + [p]) == EncodeAll(d) + Header(p) + p.data
    ensures SizeAll(d + [p]) == SizeAll(d) + Size(p)
  {
    assert (d + [p])[..|d|] == d;
    assert EncodeAll(d) + (Header(p) + p.data) == EncodeAll(d) + Header(p) + p.data;
  }

  lemma EncodeOne(b: Outbox)
    ensures b.cur != [] ==> EncodeDs(Emit(b).done) == EncodeDs(b.done) + [EncodeAll(b.cur)]
  {
  }

  lemma NotEmpty(d: Datagram)
    ensures SizeAll(d) == 0 <==> d == []
  {
  }

  class OutBuffer {
    const buffer: array<Byte>
    /** The offset of `ptr` in the buffer. */
    var ptr: nat
    /** What the output callback has been given since the flush began. */
    var out: seq<Bytes>
    /** The segments written since the flush began. */
    ghost var written: seq<Packet>

    /** The buffer holds the encoding of box `b`. */
    ghost predicate Holds(mtu: int, b: Outbox)
      reads `ptr, `out, buffer
    {
      && buffer.Length == (mtu + OVERHEAD) * 3 && ptr <= mtu && ptr <= buffer.Length
      && buffer[..ptr] == EncodeAll(b.cur) && out == EncodeDs(b.done)
    }

    ghost predicate Valid(mtu: int)
      reads this, buffer
    {
      Holds(mtu, Box(mtu, written))
    }

    constructor (mtu: nat)
      ensures Valid(mtu) && fresh(buffer) && written == [] && buffer.Length == (mtu + OVERHEAD) * 3
    {
      buffer := new Byte[(mtu + OVERHEAD) * 3];
      ptr, out, written := 0, [], [];
    }

    /** The start of a flush. */
    method Begin(mtu: nat)
      requires buffer.Length == (mtu + OVERHEAD) * 3
      modifies this
      ensures Valid(mtu) && written == []
    {
      ptr, out, written := 0, [], [];
      assert buffer[..0] == [];
    }

    /** Copies bytes into the buffer. */
    method Copy(bytes: Bytes)
      requires ptr + |bytes| <= buffer.Length
      modifies `ptr, buffer
      ensures ptr == old(ptr) + |bytes| && buffer[..ptr] == old(buffer[..ptr]) + bytes
    {
      forall i | 0 <= i < |bytes| {
        buffer[ptr + i] := bytes[i];
      }
      ptr := ptr + |bytes|;
    }

    /** Hands out the buffer; an empty one is dropped. */
    method HandOut(mtu: int, ghost b: Outbox)
      requires Holds(mtu, b)
      modifies `ptr, `out
      ensures Holds(mtu, Emit(b)) && ptr == 0
    {
      EncodedSize(b.cur);
      NotEmpty(b.cur);
      if ptr > 0 {
        EncodeOne(b);
        out := out + [buffer[..ptr]];
      }
      ptr := 0;
      assert buffer[..0] == [];
    }

    lemma HoldsSize(mtu: int, b: Outbox)
      requires Holds(mtu, b)
      ensures ptr == SizeAll(b.cur)
    {
      EncodedSize(b.cur);
    }

    method Append(mtu: int, p: Packet, ghost b: Outbox)
      requires Holds(mtu, b) && ptr + Size(p) <= mtu
      modifies `ptr, buffer
      ensures Holds(mtu, b.(cur := b.cur + [p]))
    {
      AppendOne(b.cur, p);
      Copy(Header(p));
      Copy(p.data);
    }

    /** Writes one segment, handing out the buffer first when the segment does not fit. */
    method PutSegment(mtu: int, p: Packet)
      requires Valid(mtu) && Size(p) <= mtu
      modifies this, buffer
      ensures Valid(mtu) && written == old(written) + [p]
    {
      hide Holds, Box, Emit, SizeAll;
      ghost var b := Box(mtu, written);
      HoldsSize(mtu, b);
      BoxGrows(mtu, written, p);
      if ptr + OVERHEAD + |p.data| > mtu {
        HandOut(mtu, b);
        b := Emit(b);
      }
      Append(mtu, p, b);
      written := written + [p];
    }

    /** The end of a flush: the output callback has been given every segment written. */
    method Finish(mtu: int) returns (datagrams: seq<Bytes>)
      requires Valid(mtu)
      modifies this
      ensures datagrams == EncodeDs(Pack(mtu, written)) && written == old(written)
    {
      HandOut(mtu, Box(mtu, written));
      datagrams := out;
    }
  }
}
