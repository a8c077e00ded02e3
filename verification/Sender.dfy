/** The sending half of a KCP control block: fragmentation into `snd_queue`, and the
    acknowledgement rules that take segments out of `snd_buf`. */
module Sender {
  import opened Word32
  import opened Wire

  /** A segment in `snd_queue`: only its fragment number and data are set there. */
  datatype Chunk = Chunk(frg: int, data: Bytes)

  /** A segment in `snd_buf`: its header and data, and its retransmission state. */
  datatype Segment = Segment(p: Packet, resendts: int, rto: int, fastack: int, xmit: int)

  datatype Sender = Sender(queue: seq<Chunk>, buf: seq<Segment>, una: int, nxt: int)

  // ---------------------------------------------------------------- ikcp_send

  function FragmentCount(mss: int, len: nat): (r: int)
    requires mss > 0
    ensures r >= 1
  {
    if len <= mss then 1
    else
      assert (len + mss - 1) / mss >= 1 by { DivAtLeastOne(len + mss - 1, mss); }
      (len + mss - 1) / mss
  }

  lemma DivAtLeastOne(a: int, b: int)
    requires a >= b > 0
    ensures a / b >= 1
  {
  }

  /** The fragment loop: `count` chunks of at most `mss` bytes, numbered downwards. */
  function Fragments(mss: int, stream: bool, data: Bytes, count: nat): seq<Chunk>
    requires mss > 0
  {
    if count == 0 then []
    else
      var size := Min(mss, |data|);
      [Chunk(if stream then 0 else count - 1, data[..size])] + Fragments(mss, stream, data[size..], count - 1)
  }

  datatype Extended = Extended(queue: seq<Chunk>, rest: Bytes)

  /** Stream mode first fills up the last queued segment. */
  function Extend(mss: int, queue: seq<Chunk>, data: Bytes): Extended {
    if queue != [] && |queue[|queue| - 1].data| < mss then
      var last := queue[|queue| - 1];
      var k := Min(|data|, mss - |last.data|);
      Extended(queue[..|queue| - 1] + [Chunk(0, last.data + data[..k])], data[k..])
    else
      Extended(queue, data)
  }

  datatype Sent = Sent(code: int, queue: seq<Chunk>)

  /** `ikcp_send`. */
  function Send(mss: int, stream: bool, queue: seq<Chunk>, len: int, data: Bytes): Sent
    requires mss > 0 && len <= |data|
  {
    if len < 0 then Sent(-1, queue)
    else
      var ext := if stream then Extend(mss, queue, data[..len]) else Extended(queue, data[..len]);
      if stream && ext.rest == [] then Sent(0, ext.queue)
      else
        var count := FragmentCount(mss, |ext.rest|);
        if count > 255 then Sent(-2, ext.queue)
        else Sent(0, ext.queue + Fragments(mss, stream, ext.rest, count))
  }

  /** The bytes a call of `ikcp_send` takes over: all of them when it succeeds, and in stream
      mode, when it fails, those that filled up the last segment. */
  function TakenBytes(mss: int, stream: bool, queue: seq<Chunk>, len: int, data: Bytes): Bytes
    requires mss > 0 && len <= |data|
  {
    if len < 0 then []
    else if Send(mss, stream, queue, len, data).code == 0 then data[..len]
    else if stream then data[..len - |Extend(mss, queue, data[..len]).rest|]
    else []
  }

  function Contents(chunks: seq<Chunk>): Bytes {
    if chunks == [] then [] else Contents(chunks[..|chunks| - 1]) + chunks[|chunks| - 1].data
  }

  lemma {:induction false} ContentsConcat(a: seq<Chunk>, b: seq<Chunk>)
    ensures Contents(a + b) == Contents(a) + Contents(b)
  {
    if b == [] {
      assert a + b == a;
    } else {
      var n := |b| - 1;
      assert (a + b)[..|a + b| - 1] == a + b[..n];
      ContentsConcat(a, b[..n]);
    }
  }

  predicate Suffices(mss: int, len: int, count: int) {
    len <= count * mss
  }

  /** Enough fragments hold all the bytes. */
  lemma {:induction false} FragmentsHold(mss: int, stream: bool, data: Bytes, count: nat)
    requires mss > 0 && Suffices(mss, |data|, count)
    ensures Contents(Fragments(mss, stream, data, count)) == data
    decreases count
  {
    hide Suffices, Contents;
    if count == 0 {
      assert Contents([]) == [] by { ContentsNone(); }
      NoFragments(mss, |data|, count);
    } else {
      var size := Min(mss, |data|);
      var head := Chunk(if stream then 0 else count - 1, data[..size]);
      OneFragmentLess(mss, |data|, count);
      FragmentsHold(mss, stream, data[size..], count - 1);
      ContentsConcat([head], Fragments(mss, stream, data[size..], count - 1));
      ContentsOne(head);
      assert data[..size] + data[size..] == data;
    }
  }

  lemma NoFragments(mss: int, len: nat, count: nat)
    requires count == 0 && Suffices(mss, len, count) && len >= 0
    ensures len == 0
  {
  }

  lemma OneFragmentLess(mss: int, len: int, count: nat)
    requires count > 0 && mss > 0 && Suffices(mss, len, count)
    ensures Suffices(mss, len - Min(mss, len), count - 1)
  {
    assert count * mss == (count - 1) * mss + mss;
  }

  lemma ContentsNone()
    ensures Contents([]) == []
  {
  }

  lemma ContentsOne(c: Chunk)
    ensures Contents([c]) == c.data
  {
    assert [c][..0] == [];
  }

  lemma CountSuffices(mss: int, len: nat)
    requires mss > 0
    ensures Suffices(mss, len, FragmentCount(mss, len))
  {
    if len > mss {
      var a := len + mss - 1;
      assert a == a / mss * mss + a % mss;
    }
  }

  lemma ExtendHolds(mss: int, queue: seq<Chunk>, data: Bytes)
    ensures var x := Extend(mss, queue, data);
            Contents(x.queue) + x.rest == Contents(queue) + data
  {
    if queue != [] && |queue[|queue| - 1].data| < mss {
      var n := |queue| - 1;
      var k := Min(|data|, mss - |queue[n].data|);
      var x := Extend(mss, queue, data);
      assert x.queue[..n] == queue[..n];
      assert Contents(queue[..n]) + (queue[n].data + data[..k]) + data[k..]
          == Contents(queue[..n]) + queue[n].data + data;
    }
  }

  /** `ikcp_send` queues exactly the bytes it takes over, in order, in either mode. */
  lemma SendQueuesBytes(mss: int, stream: bool, queue: seq<Chunk>, len: int, data: Bytes)
    requires mss > 0 && len <= |data|
    ensures Contents(Send(mss, stream, queue, len, data).queue)
         == Contents(queue) + TakenBytes(mss, stream, queue, len, data)
  {
    hide Contents, Fragments, Suffices, FragmentCount;
    if len >= 0 {
      var d := data[..len];
      var x := if stream then Extend(mss, queue, d) else Extended(queue, d);
      ExtendHolds(mss, queue, d);
      var count := FragmentCount(mss, |x.rest|);
      CountSuffices(mss, |x.rest|);
      FragmentsHold(mss, stream, x.rest, count);
      ContentsConcat(x.queue, Fragments(mss, stream, x.rest, count));
      CutTail(Contents(x.queue), x.rest, Contents(queue), d);
    }
  }

  lemma CutTail(a: Bytes, rest: Bytes, b: Bytes, d: Bytes)
    requires a + rest == b + d && |rest| <= |d|
    ensures a == b + d[..|d| - |rest|]
    ensures rest == [] ==> a == b + d
  {
    assert a == (a + rest)[..|a|];
  }

  // ---------------------------------------------------------------- what a send queues

  /** `data` cut into pieces of `mss` bytes, of which only the last may be shorter, and is empty
      only when there is nothing; outside stream mode they are numbered downwards to 0. */
  predicate Sliced(mss: int, stream: bool, data: Bytes, cs: seq<Chunk>) {
    && |cs| >= 1 && Contents(cs) == data
    && (forall i :: 0 <= i < |cs| - 1 ==> |cs[i].data| == mss)
    && |cs[|cs| - 1].data| <= mss && (cs[|cs| - 1].data == [] ==> data == [])
    && (forall i :: 0 <= i < |cs| ==> cs[i].frg == if stream then 0 else |cs| - 1 - i)
  }

  /** That leaves no choice: there are as few pieces as can hold the data. */
  lemma SlicedCount(mss: int, stream: bool, data: Bytes, cs: seq<Chunk>)
    requires mss > 0 && Sliced(mss, stream, data, cs)
    ensures data == [] ==> |cs| == 1
    ensures data != [] ==> (|cs| - 1) * mss < |data| <= |cs| * mss
  {
    var n := |cs| - 1;
    FullPieces(mss, cs[..n]);
    assert (n + 1) * mss == n * mss + mss;
    if n > 0 { Scaled(1, n, mss); }
  }

  lemma {:induction false} FullPieces(mss: int, cs: seq<Chunk>)
    requires forall i :: 0 <= i < |cs| ==> |cs[i].data| == mss
    ensures |Contents(cs)| == |cs| * mss
  {
    if cs != [] {
      FullPieces(mss, cs[..|cs| - 1]);
      assert |cs| * mss == (|cs| - 1) * mss + mss;
    }
  }

  lemma CountLeast(mss: int, len: nat)
    requires mss > 0 && FragmentCount(mss, len) > 1
    ensures !Suffices(mss, len, FragmentCount(mss, len) - 1)
  {
    var a := len + mss - 1;
    var c := FragmentCount(mss, len);
    assert a == a / mss * mss + a % mss;
    assert c * mss == (c - 1) * mss + mss;
  }

  /** A count is enough exactly when the bytes fit it. */
  lemma CountIff(mss: int, len: nat, n: int)
    requires mss > 0 && n >= 1
    ensures FragmentCount(mss, len) <= n <==> len <= n * mss
  {
    hide FragmentCount;
    var c := FragmentCount(mss, len);
    CountSuffices(mss, len);
    if c <= n { Scaled(c, n, mss); }
    if c > n {
      CountLeast(mss, len);
      Scaled(n, c - 1, mss);
    }
  }

  lemma {:induction false} FragmentsSliced(mss: int, stream: bool, data: Bytes, count: nat)
    requires mss > 0 && count >= 1 && Suffices(mss, |data|, count)
    requires count > 1 ==> !Suffices(mss, |data|, count - 1)
    ensures Sliced(mss, stream, data, Fragments(mss, stream, data, count))
    ensures |Fragments(mss, stream, data, count)| == count
    decreases count
  {
    hide Suffices, Contents;
    FragmentsHold(mss, stream, data, count);
    var size := Min(mss, |data|);
    var rest := Fragments(mss, stream, data[size..], count - 1);
    if count == 1 {
      assert rest == [];
      OnePiece(mss, |data|);
    } else {
      FirstIsFull(mss, |data|, count);
      OneFragmentLess(mss, |data|, count);
      FragmentsSliced(mss, stream, data[size..], count - 1);
    }
  }

  lemma OnePiece(mss: int, len: int)
    requires Suffices(mss, len, 1)
    ensures len <= mss
  {
  }

  lemma FirstIsFull(mss: int, len: int, count: int)
    requires mss > 0 && count > 1 && !Suffices(mss, len, count - 1)
    ensures len > mss && (count > 2 ==> !Suffices(mss, len - mss, count - 2))
  {
    assert (count - 1) * mss == (count - 2) * mss + mss;
    Scaled(0, count - 2, mss);
  }

  /** How many bytes of a send go to the last queued segment. */
  function TailBytes(mss: int, stream: bool, queue: seq<Chunk>, len: int): int {
    if stream && queue != [] && |queue[|queue| - 1].data| < mss then Min(len, mss - |queue[|queue| - 1].data|) else 0
  }

  /** What a send makes of the segments that are queued already. */
  predicate TailFilled(mss: int, stream: bool, queue: seq<Chunk>, data: Bytes, out: seq<Chunk>) {
    && |out| == |queue|
    && (forall i :: 0 <= i < |queue| - 1 ==> out[i] == queue[i])
    && (queue != [] ==>
          var last := queue[|queue| - 1];
          out[|queue| - 1] == if stream && |last.data| < mss then Chunk(0, last.data + data) else last)
  }

  /** What the tail takes of the data, and what is left of it. */
  lemma TailTakes(mss: int, stream: bool, queue: seq<Chunk>, len: nat, data: Bytes)
    requires mss > 0 && len <= |data|
    ensures var k := TailBytes(mss, stream, queue, len);
            var x := if stream then Extend(mss, queue, data[..len]) else Extended(queue, data[..len]);
            && 0 <= k <= len && x.rest == data[k..len] && |x.rest| == len - k
            && TailFilled(mss, stream, queue, data[..k], x.queue)
  {
    var k := TailBytes(mss, stream, queue, len);
    var d := data[..len];
    assert d[..k] == data[..k] && d[k..] == data[k..len];
  }

  /** The rest is sliced. */
  lemma RestSliced(mss: int, stream: bool, rest: Bytes)
    requires mss > 0
    ensures Sliced(mss, stream, rest, Fragments(mss, stream, rest, FragmentCount(mss, |rest|)))
    ensures FragmentCount(mss, |rest|) <= 255 <==> |rest| <= 255 * mss
  {
    hide FragmentCount, Suffices, Sliced, Fragments;
    var count := FragmentCount(mss, |rest|);
    CountIff(mss, |rest|, 255);
    CountSuffices(mss, |rest|);
    if count > 1 { CountLeast(mss, |rest|); }
    FragmentsSliced(mss, stream, rest, count);
  }

  /** `ikcp_send`, told by what it leaves: it refuses a negative length, and any data of which
      more than 255 full segments are left once the last queued segment is filled up; and what it
      queues behind that segment is the rest of the data, sliced. */
  lemma SendSlices(mss: int, stream: bool, queue: seq<Chunk>, len: int, data: Bytes)
    requires mss > 0 && len <= |data|
    ensures var s := Send(mss, stream, queue, len, data); var k := TailBytes(mss, stream, queue, len);
            && (s.code == -1 <==> len < 0) && (s.code == -1 ==> s.queue == queue)
            && (s.code == -2 <==> len >= 0 && len - k > 255 * mss)
            && (s.code == 0 <==> len >= 0 && len - k <= 255 * mss)
    ensures len >= 0 ==>
              var s := Send(mss, stream, queue, len, data); var k := TailBytes(mss, stream, queue, len);
              && |queue| <= |s.queue| && TailFilled(mss, stream, queue, data[..k], s.queue[..|queue|])
              && (s.code == -2 || (stream && k == len) ==> |s.queue| == |queue|)
              && (s.code == 0 && !(stream && k == len) ==> Sliced(mss, stream, data[k..len], s.queue[|queue|..]))
  {
    hide Contents, Fragments, Sliced, FragmentCount, TailBytes, TailFilled, Extend;
    if len >= 0 {
      TailTakes(mss, stream, queue, len, data);
      var k := TailBytes(mss, stream, queue, len);
      var x := if stream then Extend(mss, queue, data[..len]) else Extended(queue, data[..len]);
      SameLength(mss, stream, queue, data[..k], x.queue);
      RestSliced(mss, stream, x.rest);
      var f := Fragments(mss, stream, x.rest, FragmentCount(mss, |x.rest|));
      BehindQueue(x.queue, f);
      if len == k { assert 0 <= 255 * mss; }
    }
  }

  lemma SameLength(mss: int, stream: bool, queue: seq<Chunk>, data: Bytes, out: seq<Chunk>)
    requires TailFilled(mss, stream, queue, data, out)
    ensures |out| == |queue|
  {
  }

  lemma BehindQueue<X>(queue: seq<X>, f: seq<X>)
    ensures (queue + f)[..|queue|] == queue && (queue + f)[|queue|..] == f && queue[..|queue|] == queue
  {
  }

  /** A failed send has changed the queue exactly when it is in stream mode and the last queued
      segment had room, and the rest of the data is more than 255 full segments. */
  lemma FailedSendChangesQueue(mss: int, stream: bool, queue: seq<Chunk>, len: int, data: Bytes)
    requires mss > 0 && len <= |data|
    ensures Send(mss, stream, queue, len, data).code < 0 ==>
              (TakenBytes(mss, stream, queue, len, data) != [] <==>
                 stream && len >= 0 && queue != [] && |queue[|queue| - 1].data| < mss)
    ensures Send(mss, stream, queue, len, data).code == -2 <==>
              len >= 0 && len - TailBytes(mss, stream, queue, len) > 255 * mss
  {
    SendSlices(mss, stream, queue, len, data);
  }

  /** Such a failure is two sends away from a new control block: after one byte, a send that
      fills up its segment and still has more than 255 segments of data left. */
  lemma StreamSendFails(mss: int, x: Byte, data: Bytes)
    requires mss > 1 && |data| > mss - 1 + 255 * mss
    ensures var first := Send(mss, true, [], 1, [x]);
            && first == Sent(0, [Chunk(0, [x])])
            && Send(mss, true, first.queue, |data|, data) == Sent(-2, [Chunk(0, [x] + data[..mss - 1])])
  {
    assert [x][..1] == [x] && Fragments(mss, true, [], 0) == [];
    assert Fragments(mss, true, [x], 1) == [Chunk(0, [x])];
    assert data[..|data|] == data;
    var rest := data[mss - 1..];
    var q := [Chunk(0, [x])];
    assert q[..0] == [];
    assert Extend(mss, q, data) == Extended([Chunk(0, [x] + data[..mss - 1])], rest);
    CountAbove(mss, |rest|, 255);
  }

  lemma CountAbove(mss: int, len: nat, k: nat)
    requires mss > 0 && len > k * mss && k > 0
    ensures FragmentCount(mss, len) > k
  {
    assert k * mss >= mss;
    AtLeast(len + mss - 1, mss, k + 1);
  }

  lemma AtLeast(a: int, b: int, k: int)
    requires b > 0 && a >= k * b
    ensures a / b >= k
  {
    var q := a / b;
    assert a < (q + 1) * b;
    if q < k { Scaled(q + 1, k, b); }
  }

  lemma Scaled(x: int, y: int, b: int)
    requires x <= y && b > 0
    ensures x * b <= y * b
  {
  }

  // ---------------------------------------------------------------- acknowledgements

  /** `ikcp_shrink_buf`. */
  function Shrink(s: Sender): Sender {
    s.(una := if s.buf == [] then s.nxt else s.buf[0].p.sn)
  }

  /** `ikcp_parse_una`: drops the leading segments below `una`. */
  function DropBelow(m: Numbering, buf: seq<Segment>, una: int): seq<Segment> {
    if buf != [] && Diff(m, una, buf[0].p.sn) > 0 then DropBelow(m, buf[1..], una) else buf
  }

  /** The loop of `ikcp_parse_ack`: removes the one segment numbered `sn`. */
  function RemoveAcked(m: Numbering, buf: seq<Segment>, sn: int): seq<Segment> {
    if buf == [] then []
    else if sn == buf[0].p.sn then buf[1..]
    else if Diff(m, sn, buf[0].p.sn) < 0 then buf
    else [buf[0]] + RemoveAcked(m, buf[1..], sn)
  }

  /** The loop of `ikcp_parse_fastack`: counts an ack that overtook a segment. */
  function BumpBefore(m: Numbering, buf: seq<Segment>, sn: int): seq<Segment> {
    if buf == [] || Diff(m, sn, buf[0].p.sn) < 0 then buf
    else
      var s := buf[0];
      [if sn != s.p.sn then s.(fastack := W(s.fastack + 1)) else s] + BumpBefore(m, buf[1..], sn)
  }

  predicate InFlight(m: Numbering, s: Sender, sn: int) {
    Diff(m, sn, s.una) >= 0 && Diff(m, sn, s.nxt) < 0
  }

  function ParseUna(m: Numbering, s: Sender, una: int): Sender {
    Shrink(s.(buf := DropBelow(m, s.buf, una)))
  }

  function ParseAck(m: Numbering, s: Sender, sn: int): Sender {
    Shrink(if InFlight(m, s, sn) then s.(buf := RemoveAcked(m, s.buf, sn)) else s)
  }

  function ParseFastAck(m: Numbering, s: Sender, sn: int): Sender {
    if InFlight(m, s, sn) then s.(buf := BumpBefore(m, s.buf, sn)) else s
  }

  // ---------------------------------------------------------------- invariant

  predicate Increasing(buf: seq<Segment>) {
    forall i, j :: 0 <= i < j < |buf| ==> buf[i].p.sn < buf[j].p.sn
  }

  predicate Inside(buf: seq<Segment>, lo: int, hi: int) {
    forall i :: 0 <= i < |buf| ==> lo <= buf[i].p.sn < hi
  }

  /** What every API call keeps, over unbounded sequence numbers: `snd_buf` is strictly
      increasing inside [snd_una, snd_nxt), and `snd_una` is its head or `snd_nxt`. */
  predicate SenderInv(s: Sender) {
    && 0 <= s.una <= s.nxt
    && Increasing(s.buf) && Inside(s.buf, s.una, s.nxt)
    && s.una == (if s.buf == [] then s.nxt else s.buf[0].p.sn)
  }

  /** A run of consecutive elements of a strictly increasing list inside an interval
      is no longer than the interval. */
  lemma {:induction false} InFlightBound(buf: seq<Segment>, lo: int, hi: int)
    requires Increasing(buf) && Inside(buf, lo, hi) && lo <= hi
    ensures |buf| <= hi - lo
  {
    if buf != [] {
      var last := buf[|buf| - 1].p.sn;
      InFlightBound(buf[..|buf| - 1], lo, last);
    }
  }

  /** `DropBelow` keeps the suffix that starts at the first segment not below `una`. */
  lemma {:induction false} DropBelowAt(buf: seq<Segment>, una: int) returns (k: nat)
    requires Increasing(buf)
    ensures k <= |buf| && DropBelow(Unbounded, buf, una) == buf[k..]
    ensures forall i :: 0 <= i < k ==> buf[i].p.sn < una
    ensures k < |buf| ==> una <= buf[k].p.sn
  {
    if buf != [] && una > buf[0].p.sn {
      var t := buf[1..];
      k := DropBelowAt(t, una);
      assert t[k..] == buf[k + 1..];
      forall i | 0 <= i < k + 1 ensures buf[i].p.sn < una {
        if i > 0 { assert buf[i] == t[i - 1]; }
      }
      k := k + 1;
    } else {
      k := 0;
      assert buf[0..] == buf;
    }
  }

  /** `s` with the element at `k` taken out. */
  function Without<T>(s: seq<T>, k: nat): seq<T>
    requires k < |s|
  {
    s[..k] + s[k + 1..]
  }

  predicate Numbered(buf: seq<Segment>, sn: int) {
    exists i :: 0 <= i < |buf| && buf[i].p.sn == sn
  }

  /** `RemoveAcked` takes out the segment numbered `sn`; `k` is -1 when there is none. */
  lemma {:induction false} RemoveAckedAt(buf: seq<Segment>, sn: int) returns (k: int)
    requires Increasing(buf)
    ensures -1 <= k < |buf|
    ensures k >= 0 ==> buf[k].p.sn == sn && RemoveAcked(Unbounded, buf, sn) == Without(buf, k)
    ensures k < 0 ==> !Numbered(buf, sn) && RemoveAcked(Unbounded, buf, sn) == buf
    decreases |buf|, 1
  {
    if buf == [] {
      k := -1;
    } else if sn == buf[0].p.sn {
      k := 0;
      assert Without(buf, 0) == buf[1..];
    } else if sn < buf[0].p.sn {
      k := -1;
    } else {
      k := RemoveAckedTail(buf, sn);
    }
  }

  lemma {:induction false} RemoveAckedTail(buf: seq<Segment>, sn: int) returns (k: int)
    requires Increasing(buf) && buf != [] && sn > buf[0].p.sn
    ensures -1 <= k < |buf|
    ensures k >= 0 ==> buf[k].p.sn == sn && RemoveAcked(Unbounded, buf, sn) == Without(buf, k)
    ensures k < 0 ==> !Numbered(buf, sn) && RemoveAcked(Unbounded, buf, sn) == buf
    decreases |buf|, 0
  {
    var t := buf[1..];
    k := RemoveAckedAt(t, sn);
    if k >= 0 {
      assert [buf[0]] + Without(t, k) == Without(buf, k + 1);
      k := k + 1;
    } else {
      assert [buf[0]] + t == buf;
      forall i | 0 <= i < |buf| ensures buf[i].p.sn != sn {
        if i > 0 { assert buf[i] == t[i - 1]; }
      }
    }
  }

  /** Counting overtakes changes nothing but the counters. */
  predicate SamePackets(a: seq<Segment>, b: seq<Segment>) {
    |a| == |b| && forall i :: 0 <= i < |a| ==> a[i].p == b[i].p
  }

  lemma {:induction false} BumpKeepsPackets(m: Numbering, buf: seq<Segment>, sn: int)
    ensures SamePackets(BumpBefore(m, buf, sn), buf)
  {
    if buf == [] || Diff(m, sn, buf[0].p.sn) < 0 {
    } else {
      BumpKeepsPackets(m, buf[1..], sn);
    }
  }

  /** The first `k` segments, all below `una`, are gone. */
  lemma ParseUnaKeepsInv(s: Sender, una: int) returns (k: nat)
    requires SenderInv(s)
    ensures var t := ParseUna(Unbounded, s, una);
            && SenderInv(t) && t.nxt == s.nxt && s.una <= t.una && t.queue == s.queue
            && k <= |s.buf| && t.buf == s.buf[k..]
    ensures forall i :: 0 <= i < k ==> s.buf[i].p.sn < una
  {
    k := DropBelowAt(s.buf, una);
  }

  lemma WithoutKeepsOrder(buf: seq<Segment>, k: nat)
    requires Increasing(buf) && k < |buf|
    ensures Increasing(Without(buf, k))
    ensures forall i :: 0 <= i < |buf| - 1 ==> Without(buf, k)[i] == if i < k then buf[i] else buf[i + 1]
  {
  }

  lemma WithoutKeepsInv(s: Sender, k: nat)
    requires SenderInv(s) && k < |s.buf|
    ensures var t := Shrink(s.(buf := Without(s.buf, k))); SenderInv(t) && s.una <= t.una
  {
    WithoutKeepsOrder(s.buf, k);
    hide Without;
  }

  /** At most the segment numbered `sn` is gone. */
  lemma ParseAckKeepsInv(s: Sender, sn: int) returns (k: int)
    requires SenderInv(s)
    ensures var t := ParseAck(Unbounded, s, sn);
            && SenderInv(t) && t.nxt == s.nxt && s.una <= t.una && t.queue == s.queue
            && -1 <= k < |s.buf|
            && (k >= 0 ==> s.buf[k].p.sn == sn && t.buf == Without(s.buf, k))
            && (k < 0 ==> t.buf == s.buf)
  {
    k := -1;
    if InFlight(Unbounded, s, sn) {
      k := RemoveAckedAt(s.buf, sn);
      hide RemoveAcked, Without;
      if k >= 0 { WithoutKeepsInv(s, k); }
    }
  }

  lemma ParseFastAckKeepsInv(s: Sender, sn: int)
    requires SenderInv(s)
    ensures var t := ParseFastAck(Unbounded, s, sn);
            SenderInv(t) && SamePackets(t.buf, s.buf) && t.una == s.una && t.nxt == s.nxt && t.queue == s.queue
  {
    if InFlight(Unbounded, s, sn) {
      BumpKeepsPackets(Unbounded, s.buf, sn);
    }
  }
}
