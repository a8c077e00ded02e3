/** The receiving half of a KCP control block: the out-of-order buffer, the queue of
    segments in order, the list of acks to send, and message reassembly. */
module Receiver {
  import opened Word32
  import opened Wire

  datatype Ack = Ack(sn: int, ts: int)

  datatype Receiver = Receiver(buf: seq<Packet>, queue: seq<Packet>, nxt: int, acks: seq<Ack>)

  // ---------------------------------------------------------------- ikcp_parse_data

  /** Inserts by sequence number, scanning from the back; a repeated number is dropped. */
  function Insert(m: Numbering, buf: seq<Packet>, p: Packet): seq<Packet> {
    if buf == [] then [p]
    else
      var last := buf[|buf| - 1];
      if last.sn == p.sn then buf
      else if Diff(m, p.sn, last.sn) > 0 then buf + [p]
      else Insert(m, buf[..|buf| - 1], p) + [last]
  }

  /** Moves what is next in order from `rcv_buf` to `rcv_queue` while there is room. */
  function Drain(m: Numbering, r: Receiver, wnd: int): Receiver
    decreases |r.buf|
  {
    if r.buf != [] && r.buf[0].sn == r.nxt && |r.queue| < wnd then
      Drain(m, r.(buf := r.buf[1..], queue := r.queue + [r.buf[0]], nxt := Plus(m, r.nxt, 1)), wnd)
    else r
  }

  predicate InWindow(m: Numbering, r: Receiver, wnd: int, sn: int) {
    Diff(m, sn, Plus(m, r.nxt, wnd)) < 0 && Diff(m, sn, r.nxt) >= 0
  }

  function ParseData(m: Numbering, r: Receiver, wnd: int, p: Packet): Receiver {
    if InWindow(m, r, wnd, p.sn) then Drain(m, r.(buf := Insert(m, r.buf, p)), wnd) else r
  }

  /** The push branch of `ikcp_input`: everything below the window's end is acked. */
  function InputPush(m: Numbering, r: Receiver, wnd: int, p: Packet): Receiver {
    if Diff(m, p.sn, Plus(m, r.nxt, wnd)) < 0 then
      var r1 := r.(acks := r.acks + [Ack(p.sn, p.ts)]);
      if Diff(m, p.sn, r.nxt) >= 0 then ParseData(m, r1, wnd, p) else r1
    else r
  }

  // ---------------------------------------------------------------- ikcp_recv

  /** How many segments the head message takes: up to the first with fragment number 0. */
  function MergeCount(queue: seq<Packet>): (r: nat)
    ensures r <= |queue|
    ensures queue != [] ==> r > 0
  {
    if queue == [] then 0 else if queue[0].frg == 0 then 1 else 1 + MergeCount(queue[1..])
  }

  function MergeData(queue: seq<Packet>): Bytes {
    if queue == [] then []
    else if queue[0].frg == 0 then queue[0].data
    else queue[0].data + MergeData(queue[1..])
  }

  /** `ikcp_peeksize`. */
  function PeekSize(queue: seq<Packet>): int {
    if queue == [] then -1
    else if queue[0].frg == 0 then |queue[0].data|
    else if |queue| < queue[0].frg + 1 then -1
    else |MergeData(queue)|
  }

  datatype Received = Received(code: int, data: Bytes, r: Receiver, tell: bool)

  /** `ikcp_recv`; a negative `len` peeks. */
  function Recv(m: Numbering, r: Receiver, wnd: int, len: int): Received {
    var size := PeekSize(r.queue);
    if r.queue == [] then Received(-1, [], r, false)
    else if size < 0 then Received(-2, [], r, false)
    else if size > (if len < 0 then -len else len) then Received(-3, [], r, false)
    else
      var rest := if len < 0 then r.queue else r.queue[MergeCount(r.queue)..];
      var r' := Drain(m, r.(queue := rest), wnd);
      Received(size, MergeData(r.queue), r', |r'.queue| < wnd && |r.queue| >= wnd)
  }

  /** `ikcp_wnd_unused`. */
  function Unused(r: Receiver, wnd: int): int {
    if |r.queue| < wnd then wnd - |r.queue| else 0
  }

  // ---------------------------------------------------------------- invariant

  predicate Increasing(buf: seq<Packet>) {
    forall i, j :: 0 <= i < j < |buf| ==> buf[i].sn < buf[j].sn
  }

  predicate Inside(buf: seq<Packet>, lo: int, hi: int) {
    forall i :: 0 <= i < |buf| ==> lo <= buf[i].sn < hi
  }

  /** Nothing that could be moved on is left behind. */
  predicate Drained(r: Receiver, wnd: int) {
    r.buf != [] && r.buf[0].sn == r.nxt ==> |r.queue| >= wnd
  }

  predicate BufferInv(r: Receiver, wnd: int) {
    && 0 <= r.nxt && |r.queue| <= wnd
    && Increasing(r.buf) && Inside(r.buf, r.nxt, r.nxt + wnd)
  }

  /** What every API call keeps, for any arrival order: `rcv_buf` is strictly sorted, free
      of duplicates and inside the window, and its head waits only for room in `rcv_queue`. */
  predicate ReceiverInv(r: Receiver, wnd: int) {
    BufferInv(r, wnd) && Drained(r, wnd)
  }

  lemma {:induction false} WindowBound(buf: seq<Packet>, lo: int, hi: int)
    requires Increasing(buf) && Inside(buf, lo, hi) && lo <= hi
    ensures |buf| <= hi - lo
  {
    if buf != [] {
      WindowBound(buf[..|buf| - 1], lo, buf[|buf| - 1].sn);
    }
  }

  predicate Holds(buf: seq<Packet>, sn: int) {
    exists i :: 0 <= i < |buf| && buf[i].sn == sn
  }

  /** Insertion puts the packet at the one place its number belongs, or finds the
      number there already. */
  lemma {:induction false} InsertAt(buf: seq<Packet>, p: Packet) returns (k: nat)
    requires Increasing(buf)
    ensures k <= |buf|
    ensures forall i :: 0 <= i < k ==> buf[i].sn < p.sn
    ensures k < |buf| && buf[k].sn == p.sn ==> Insert(Unbounded, buf, p) == buf
    ensures !(k < |buf| && buf[k].sn == p.sn) ==>
              && Insert(Unbounded, buf, p) == buf[..k] + [p] + buf[k..]
              && (k < |buf| ==> p.sn < buf[k].sn)
  {
    var n := |buf| - 1;
    if buf == [] {
      k := 0;
    } else if buf[n].sn == p.sn {
      k := n;
    } else if p.sn > buf[n].sn {
      k := n + 1;
      assert buf[..k] + [p] + buf[k..] == buf + [p];
    } else {
      k := InsertAt(buf[..n], p);
      SameGap(buf, k, p);
    }
  }

  /** Inserting into all but the last element. */
  lemma SameGap<X>(buf: seq<X>, k: nat, p: X)
    requires k < |buf|
    ensures var n := |buf| - 1;
            && buf[..n] + [buf[n]] == buf && (k < n ==> buf[..n][k] == buf[k])
            && buf[..n][..k] + [p] + buf[..n][k..] + [buf[n]] == buf[..k] + [p] + buf[k..]
  {
  }

  lemma InsertKeepsInv(r: Receiver, wnd: int, p: Packet) returns (k: nat)
    requires BufferInv(r, wnd) && r.nxt <= p.sn < r.nxt + wnd
    ensures var b := Insert(Unbounded, r.buf, p);
            && BufferInv(r.(buf := b), wnd) && k < |b| && b[k].sn == p.sn
            && (b == r.buf || (k <= |r.buf| && b == r.buf[..k] + [p] + r.buf[k..]))
  {
    k := InsertAt(r.buf, p);
    if Insert(Unbounded, r.buf, p) != r.buf { InsertOrder(r.buf, k, p); }
  }

  lemma InsertOrder(buf: seq<Packet>, k: nat, p: Packet)
    requires Increasing(buf) && k <= |buf|
    requires forall i :: 0 <= i < k ==> buf[i].sn < p.sn
    requires k < |buf| ==> p.sn < buf[k].sn
    ensures Increasing(buf[..k] + [p] + buf[k..])
  {
    var b := buf[..k] + [p] + buf[k..];
    forall i, j | 0 <= i < j < |b| ensures b[i].sn < b[j].sn {
      var x := if i < k then i else i - 1;
      var y := if j < k then j else j - 1;
      if i != k && j != k { assert b[i] == buf[x] && b[j] == buf[y]; }
      else if i == k { assert b[j] == buf[y] && (y == k || buf[k].sn < buf[y].sn); }
      else { assert b[i] == buf[x]; }
    }
  }

  function Moved(r: Receiver, wnd: int): int {
    Drain(Unbounded, r, wnd).nxt - r.nxt
  }

  lemma MoveOne<T>(queue: seq<T>, buf: seq<T>, d: int)
    requires buf != [] && 0 <= d < |buf|
    ensures buf[1..][d..] == buf[d + 1..]
    ensures queue + [buf[0]] + buf[1..][..d] == queue + buf[..d + 1]
  {
  }

  /** Draining moves the first `d` packets of the buffer to the end of the queue. */
  lemma {:induction false} DrainMoves(r: Receiver, wnd: int)
    ensures 0 <= Moved(r, wnd) <= |r.buf|
    ensures Drain(Unbounded, r, wnd).buf == r.buf[Moved(r, wnd)..]
    ensures Drain(Unbounded, r, wnd).queue == r.queue + r.buf[..Moved(r, wnd)]
    ensures Drain(Unbounded, r, wnd).acks == r.acks
    decreases |r.buf|
  {
    if r.buf != [] && r.buf[0].sn == r.nxt && |r.queue| < wnd {
      var s := r.(buf := r.buf[1..], queue := r.queue + [r.buf[0]], nxt := r.nxt + 1);
      DrainMoves(s, wnd);
      MoveOne(r.queue, r.buf, Moved(s, wnd));
    } else {
      assert r.buf[0..] == r.buf && r.queue + r.buf[..0] == r.queue;
    }
  }

  /** The moved packets are the ones next in order. */
  lemma {:induction false} DrainNumbers(r: Receiver, wnd: int, i: nat)
    requires i < Drain(Unbounded, r, wnd).nxt - r.nxt
    ensures i < |r.buf| && r.buf[i].sn == r.nxt + i
    decreases |r.buf|
  {
    DrainMoves(r, wnd);
    if i > 0 {
      var s := r.(buf := r.buf[1..], queue := r.queue + [r.buf[0]], nxt := r.nxt + 1);
      DrainNumbers(s, wnd, i - 1);
    }
  }

  lemma {:induction false} DrainKeepsInv(r: Receiver, wnd: int)
    requires BufferInv(r, wnd)
    ensures ReceiverInv(Drain(Unbounded, r, wnd), wnd)
    decreases |r.buf|
  {
    if r.buf != [] && r.buf[0].sn == r.nxt && |r.queue| < wnd {
      var s := r.(buf := r.buf[1..], queue := r.queue + [r.buf[0]], nxt := r.nxt + 1);
      DrainStep(r, s, wnd);
      DrainKeepsInv(s, wnd);
    }
  }

  lemma DrainStep(r: Receiver, s: Receiver, wnd: int)
    requires BufferInv(r, wnd) && r.buf != [] && r.buf[0].sn == r.nxt && |r.queue| < wnd
    requires s == r.(buf := r.buf[1..], queue := r.queue + [r.buf[0]], nxt := r.nxt + 1)
    ensures BufferInv(s, wnd)
  {
    forall i | 0 <= i < |s.buf| ensures s.nxt <= s.buf[i].sn < s.nxt + wnd {
      assert r.buf[0].sn < r.buf[i + 1].sn;
    }
  }

  /** A packet number counts as accepted once it is below `rcv_nxt` or held in `rcv_buf`. */
  predicate Accepted(r: Receiver, sn: int) {
    sn < r.nxt || Holds(r.buf, sn)
  }

  /** Draining loses no accepted number. */
  lemma DrainKeepsAccepted(r: Receiver, wnd: int, sn: int)
    requires Accepted(r, sn)
    ensures Accepted(Drain(Unbounded, r, wnd), sn)
  {
    DrainMoves(r, wnd);
    if sn >= r.nxt {
      var i :| 0 <= i < |r.buf| && r.buf[i].sn == sn;
      var d := Moved(r, wnd);
      if i < d {
        DrainNumbers(r, wnd, i);
      } else {
        assert r.buf[d..][i - d].sn == sn;
      }
    }
  }

  /** Whatever arrives, the receiver keeps its invariant and never goes back. */
  lemma ParseDataKeepsInv(r: Receiver, wnd: int, p: Packet)
    requires ReceiverInv(r, wnd)
    ensures ReceiverInv(ParseData(Unbounded, r, wnd, p), wnd)
    ensures ParseData(Unbounded, r, wnd, p).acks == r.acks
    ensures r.nxt <= ParseData(Unbounded, r, wnd, p).nxt
  {
    if InWindow(Unbounded, r, wnd, p.sn) {
      var k := InsertKeepsInv(r, wnd, p);
      var r1 := r.(buf := Insert(Unbounded, r.buf, p));
      DrainKeepsInv(r1, wnd);
      DrainMoves(r1, wnd);
    }
  }
}
