/** The acknowledgements a control block owes, kept as pairs of words in one array that grows:
    `ikcp_ack_push` and `ikcp_ack_get` of `src/third/ikcp.cpp`. */
module AckList {
  import opened Word32
  import opened Receiver

  class AckList {
    var acklist: array?<Word>
    var ackcount: nat
    var ackblock: nat
    /** The list. */
    ghost var acks: seq<Ack>

    /** The first words of the array are the pairs of the list. */
    ghost predicate Valid()
      reads this, acklist
    {
      && |acks| == ackcount <= ackblock
      && (acklist == null <==> ackblock == 0)
      && (acklist != null ==> acklist.Length == 2 * ackblock)
      && (forall i :: 0 <= i < ackcount ==> acks[i] == Ack(acklist[2 * i], acklist[2 * i + 1]))
    }

    constructor ()
      ensures Valid() && acks == [] && acklist == null
    {
      acklist, ackcount, ackblock, acks := null, 0, 0, [];
    }

    /** The new array: the smallest power of two times 8 that is enough, with the pairs copied. */
    method Grow(newsize: nat)
      requires Valid() && newsize > ackblock
      modifies `acklist, `ackblock
      ensures Valid() && fresh(acklist)
      ensures newsize <= ackblock && (ackblock == 8 || ackblock < 2 * newsize)
    {
      var newblock := 8;
      while newblock < newsize
        invariant newblock == 8 || 8 <= newblock < 2 * newsize
        decreases newsize - newblock
      {
        newblock := newblock * 2;
      }
      var list := new Word[newblock * 2];
      var x := 0;
      while x < ackcount
        invariant 0 <= x <= ackcount
        invariant forall i :: 0 <= i < 2 * x ==> list[i] == acklist[i]
        modifies list
      {
        list[x * 2] := acklist[x * 2];
        list[x * 2 + 1] := acklist[x * 2 + 1];
        x := x + 1;
      }
      acklist, ackblock := list, newblock;
    }

    /** `ikcp_ack_push`. */
    method Push(sn: Word, ts: Word)
      requires Valid()
      modifies this, acklist
      ensures Valid() && (acklist == old(acklist) || fresh(acklist))
      ensures acks == old(acks) + [Ack(sn, ts)]
    {
      var newsize := ackcount + 1;
      if newsize > ackblock {
        Grow(newsize);
      }
      acklist[2 * ackcount] := sn;
      acklist[2 * ackcount + 1] := ts;
      ackcount := ackcount + 1;
      acks := acks + [Ack(sn, ts)];
    }

    /** `ikcp_ack_get`. */
    method Get(p: nat) returns (sn: Word, ts: Word)
      requires Valid() && p < ackcount
      ensures Ack(sn, ts) == acks[p]
    {
      sn, ts := acklist[p * 2], acklist[p * 2 + 1];
    }

    /** What `ikcp_flush` does once every acknowledgement is written. */
    method Clear()
      requires Valid()
      modifies `ackcount, `acks
      ensures Valid() && acks == []
    {
      ackcount, acks := 0, [];
    }
  }
}
