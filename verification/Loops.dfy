/** What the loops of `src/third/ikcp.cpp` over the four lists come to, as facts about
    sequences: where each of them stops, and what one turn adds. */
module Loops {
  import opened Word32
  import opened Wire
  import E = Endpoint
  import S = Sender
  import R = Receiver
  import I = Invariant

  lemma PeekIsMerge(queue: seq<Packet>)
    ensures R.PeekSize(queue) >= 0 ==> R.PeekSize(queue) == |R.MergeData(queue)|
  {
  }

  /** The backward scan of `ikcp_parse_data`: it stops below `i`. */
  lemma {:induction false} InsertIs(buf: seq<Packet>, i: nat, p: Packet)
    requires i <= |buf|
    requires forall k :: i <= k < |buf| ==> buf[k].sn != p.sn && TimeDiff(p.sn, buf[k].sn) <= 0
    requires i > 0 ==> buf[i - 1].sn == p.sn || TimeDiff(p.sn, buf[i - 1].sn) > 0
    ensures R.Insert(Mod32, buf, p) == if i > 0 && buf[i - 1].sn == p.sn then buf else buf[..i] + [p] + buf[i..]
    decreases |buf| - i
  {
    if i == |buf| {
      assert buf[..i] + [p] + buf[i..] == buf + [p];
    } else {
      var n := |buf| - 1;
      InsertIs(buf[..n], i, p);
      LastApart(buf, i, p);
    }
  }

  lemma LastApart<X>(buf: seq<X>, i: nat, p: X)
    requires i < |buf|
    ensures var n := |buf| - 1;
            && buf[..n] + [buf[n]] == buf
            && buf[..n][..i] + [p] + buf[..n][i..] + [buf[n]] == buf[..i] + [p] + buf[i..]
  {
  }

  function Bumped(s: S.Segment, sn: int): S.Segment {
    if sn != s.p.sn then s.(fastack := W(s.fastack + 1)) else s
  }

  /** The loop of `ikcp_parse_fastack`, element by element: it stops at `i`. */
  lemma {:induction false} BumpIs(buf: seq<S.Segment>, out: seq<S.Segment>, i: nat, sn: int)
    requires i <= |buf| == |out|
    requires forall k :: 0 <= k < i ==> TimeDiff(sn, buf[k].p.sn) >= 0 && out[k] == Bumped(buf[k], sn)
    requires forall k :: i <= k < |buf| ==> out[k] == buf[k]
    requires i < |buf| ==> TimeDiff(sn, buf[i].p.sn) < 0
    ensures out == S.BumpBefore(Mod32, buf, sn)
    decreases i
  {
    if i == 0 {
      assert out == buf;
    } else {
      BumpIs(buf[1..], out[1..], i - 1, sn);
      assert out == [out[0]] + out[1..];
    }
  }

  /** The loop of `ikcp_parse_ack`: it stops at `i`. */
  lemma {:induction false} RemoveIs(buf: seq<S.Segment>, i: nat, sn: int)
    requires i <= |buf|
    requires forall k :: 0 <= k < i ==> sn != buf[k].p.sn && TimeDiff(sn, buf[k].p.sn) >= 0
    requires i < |buf| ==> sn == buf[i].p.sn || TimeDiff(sn, buf[i].p.sn) < 0
    ensures S.RemoveAcked(Mod32, buf, sn) == if i < |buf| && sn == buf[i].p.sn then buf[..i] + buf[i + 1..] else buf
    decreases i
  {
    if i == 0 {
      if buf != [] { assert buf[..0] + buf[1..] == buf[1..]; }
    } else {
      RemoveIs(buf[1..], i - 1, sn);
      assert [buf[0]] + buf[1..] == buf;
      if i < |buf| && sn == buf[i].p.sn {
        assert [buf[0]] + (buf[1..][..i - 1] + buf[1..][i..]) == buf[..i] + buf[i + 1..];
      }
    }
  }

  /** The first `i` segments have been walked. */
  ghost predicate Walked(now: seq<S.Segment>, buf: seq<S.Segment>, w: E.Walk, i: nat)
    requires i <= |buf| == |now|
  {
    && (forall k :: 0 <= k < i ==> now[k] == E.Resend(w, buf[k]))
    && (forall k :: i <= k < |buf| ==> now[k] == buf[k])
  }

  lemma WalkedAll(now: seq<S.Segment>, buf: seq<S.Segment>, w: E.Walk)
    requires |now| == |buf| && Walked(now, buf, w, |buf|)
    ensures now == E.WalkAll(w, buf).buf
  {
    forall i | 0 <= i < |buf| ensures now[i] == E.WalkAll(w, buf).buf[i] {
      I.WalkAt(w, buf, i);
    }
  }

  lemma WalkedMore(now: seq<S.Segment>, buf: seq<S.Segment>, w: E.Walk, i: nat)
    requires i < |buf| == |now| && Walked(now, buf, w, i)
    ensures now[i] == buf[i] && Walked(now[i := E.Resend(w, buf[i])], buf, w, i + 1)
  {
  }

  /** One more segment. */
  lemma WalkNext(w: E.Walk, buf: seq<S.Segment>, i: nat)
    requires i < |buf|
    ensures var r := E.WalkAll(w, buf[..i]);
            var s := E.Resend(w, buf[i]);
            var a := E.ActionFor(w, buf[i]);
            E.WalkAll(w, buf[..i + 1]) == E.Walked(r.buf + [s], if a.Wait? then r.sent else r.sent + [s.p],
              r.timeouts + (if a.Timeout? then 1 else 0), r.fasts + (if a.Fast? then 1 else 0),
              r.dead || (!a.Wait? && s.xmit >= E.DEAD_LINK))
  {
    assert buf[..i + 1][..i] == buf[..i];
  }

  /** Once a segment is due, the rest of the list does not matter. */
  lemma {:induction false} DueStays(buf: seq<S.Segment>, i: nat, now: int)
    requires i <= |buf| && E.SoonestResend(buf[..i], now).Due?
    ensures E.SoonestResend(buf, now).Due?
    decreases |buf| - i
  {
    if i < |buf| {
      assert buf[..i + 1][..i] == buf[..i];
      DueStays(buf, i + 1, now);
    } else {
      assert buf[..i] == buf;
    }
  }

  lemma Shift<X>(a: seq<X>, x: X, b: seq<X>)
    ensures a + ([x] + b) == a + [x] + b
  {
  }

  /** One turn of the merge loop of `ikcp_recv`. */
  lemma MergeStep(queue: seq<Packet>, p: nat, data: Bytes)
    requires p < |queue|
    ensures queue[p..][0] == queue[p] && queue[p..][1..] == queue[p + 1..]
    ensures R.MergeCount(queue[p..]) == 1 + (if queue[p].frg == 0 then 0 else R.MergeCount(queue[p + 1..]))
    ensures data + R.MergeData(queue[p..])
         == data + queue[p].data + (if queue[p].frg == 0 then [] else R.MergeData(queue[p + 1..]))
  {
    assert queue[p..][1..] == queue[p + 1..];
    assert data + (queue[p].data + R.MergeData(queue[p + 1..])) == data + queue[p].data + R.MergeData(queue[p + 1..]);
  }

  /** The list of acknowledgements has no part in the drain, in the insertion or in a receive. */
  lemma {:induction false} DrainWithAcks(r: R.Receiver, wnd: int)
    ensures R.Drain(Mod32, r, wnd) == R.Drain(Mod32, r.(acks := []), wnd).(acks := r.acks)
    decreases |r.buf|
  {
    if r.buf != [] && r.buf[0].sn == r.nxt && |r.queue| < wnd {
      DrainWithAcks(r.(buf := r.buf[1..], queue := r.queue + [r.buf[0]], nxt := W(r.nxt + 1)), wnd);
    }
  }

  lemma ParseDataWithAcks(r: R.Receiver, wnd: int, p: Packet)
    ensures R.ParseData(Mod32, r, wnd, p) == R.ParseData(Mod32, r.(acks := []), wnd, p).(acks := r.acks)
  {
    DrainWithAcks(r.(buf := R.Insert(Mod32, r.buf, p)), wnd);
  }

  lemma RecvWithAcks(r: R.Receiver, wnd: int, len: int)
    ensures var a := R.Recv(Mod32, r.(acks := []), wnd, len);
            R.Recv(Mod32, r, wnd, len) == a.(r := a.r.(acks := r.acks))
  {
    DrainWithAcks(r.(queue := if len < 0 then r.queue else r.queue[R.MergeCount(r.queue)..]), wnd);
  }

  // ---------------------------------------------------------------- sizes

  /** No queued segment is larger than `mss`. */
  predicate Fit(s: S.Sender, mss: int) {
    && (forall c :: c in s.queue ==> |c.data| <= mss)
    && (forall g :: g in s.buf ==> |g.p.data| <= mss)
  }

  lemma {:induction false} DropBelowWithin(buf: seq<S.Segment>, una: int)
    ensures forall g :: g in S.DropBelow(Mod32, buf, una) ==> g in buf
  {
    if buf != [] && TimeDiff(una, buf[0].p.sn) > 0 { DropBelowWithin(buf[1..], una); }
  }

  lemma {:induction false} RemoveAckedWithin(buf: seq<S.Segment>, sn: int)
    ensures forall g :: g in S.RemoveAcked(Mod32, buf, sn) ==> g in buf
  {
    if buf != [] { RemoveAckedWithin(buf[1..], sn); }
  }

  lemma {:induction false} BumpKeepsSizes(buf: seq<S.Segment>, sn: int, mss: int)
    requires forall g :: g in buf ==> |g.p.data| <= mss
    ensures forall g :: g in S.BumpBefore(Mod32, buf, sn) ==> |g.p.data| <= mss
  {
    if buf != [] { BumpKeepsSizes(buf[1..], sn, mss); }
  }

  lemma {:induction false} FragmentsFit(mss: int, stream: bool, data: Bytes, count: nat)
    requires mss > 0
    ensures forall c :: c in S.Fragments(mss, stream, data, count) ==> |c.data| <= mss
  {
    if count > 0 { FragmentsFit(mss, stream, data[if |data| > mss then mss else |data|..], count - 1); }
  }

  lemma FitAfterSend(s: S.Sender, mss: int, stream: bool, len: int, data: Bytes)
    requires Fit(s, mss) && mss > 0 && len <= |data|
    ensures Fit(s.(queue := S.Send(mss, stream, s.queue, len, data).queue), mss)
  {
    if len >= 0 {
      var x := if stream then S.Extend(mss, s.queue, data[..len]) else S.Extended(s.queue, data[..len]);
      FragmentsFit(mss, stream, x.rest, S.FragmentCount(mss, |x.rest|));
    }
  }

  lemma FitAfterUna(s: S.Sender, mss: int, una: int)
    requires Fit(s, mss)
    ensures Fit(S.ParseUna(Mod32, s, una), mss)
  {
    DropBelowWithin(s.buf, una);
  }

  lemma FitAfterAck(s: S.Sender, mss: int, sn: int)
    requires Fit(s, mss)
    ensures Fit(S.ParseAck(Mod32, s, sn), mss) && Fit(S.ParseFastAck(Mod32, s, sn), mss)
  {
    RemoveAckedWithin(s.buf, sn);
    BumpKeepsSizes(s.buf, sn, mss);
  }

  lemma {:induction false} FitAfterAdmit(s: S.Sender, mss: int, window: int, t: Packet, now: int, rto: int)
    requires Fit(s, mss)
    ensures Fit(E.Admit(Mod32, s, window, t, now, rto), mss)
    decreases |s.queue|
  {
    if TimeDiff(s.nxt, W(s.una + window)) < 0 && s.queue != [] {
      FitAfterAdmit(s.(queue := s.queue[1..], buf := s.buf + [E.NewSegment(t, s.queue[0], s.nxt, now, rto)],
                       nxt := W(s.nxt + 1)), mss, window, t, now, rto);
    }
  }

  lemma NoTimeAway(t: int)
    ensures TimeDiff(t, t) == 0
  {
  }

  lemma ResendKeepsData(w: E.Walk, s: S.Segment)
    ensures E.Resend(w, s).p.data == s.p.data
  {
  }

  lemma FitAfterWalk(s: S.Sender, mss: int, w: E.Walk)
    requires Fit(s, mss)
    ensures Fit(s.(buf := E.WalkAll(w, s.buf).buf), mss)
  {
    forall i | 0 <= i < |s.buf| ensures |E.WalkAll(w, s.buf).buf[i].p.data| <= mss {
      I.WalkAt(w, s.buf, i);
    }
  }
}
