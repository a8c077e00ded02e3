/** Two control blocks talking over a network that may lose, duplicate and reorder
    datagrams: every datagram ever handed out stays available, and a delivery picks any
    of them. Sequence numbers are unbounded here. */
module Network {
  import opened Word32
  import opened Wire
  import opened Endpoint
  import opened Invariant
  import E = Endpoint
  import S = Sender
  import R = Receiver

  /** One end: its control block, every datagram it has handed out, and its history: the
      chunk given each sequence number, the chunks taken out by receives that were not
      peeks, the messages accepted by successful sends, the messages returned by such
      receives, and the bytes accepted and returned. */
  datatype Half = Half(ep: Endpoint, out: seq<Datagram>, log: seq<S.Chunk>, taken: seq<S.Chunk>,
                       sent: seq<Bytes>, got: seq<Bytes>, given: Bytes, read: Bytes)

  datatype Event = Send(len: int, data: Bytes) | Recv(len: int) | Update(now: int) | Flush | Deliver(index: nat)

  predicate ValidEvent(ev: Event) {
    && (ev.Send? ==> ev.len <= |ev.data|)
    && (ev.Update? ==> 0 <= ev.now < TWO32)
  }

  function Start(cfg: Config): Half {
    Half(Create(cfg), [], [], [], [], [], [], [])
  }

  /** Records what a flush handed out and which chunks it numbered. */
  function Record(h: Half, f: Flushed): Half {
    var n := |h.ep.snd.queue| - |f.e.snd.queue|;
    h.(ep := f.e, out := h.out + f.out, log := if 0 <= n then h.log + h.ep.snd.queue[..n] else h.log)
  }

  /** The data of received packets, without their headers. */
  function Chunks(ps: seq<Packet>): (r: seq<S.Chunk>)
    ensures |r| == |ps| && forall i :: 0 <= i < |r| ==> r[i] == S.Chunk(ps[i].frg, ps[i].data)
  {
    seq(|ps|, i requires 0 <= i < |ps| => S.Chunk(ps[i].frg, ps[i].data))
  }

  /** One API call at the end `h`, whose peer is `peer`. */
  function Act(h: Half, peer: Half, ev: Event): Half
    requires h.ep.cfg.mss > 0 && ValidEvent(ev)
  {
    match ev
    case Send(len, data) =>
      var r := E.Send(h.ep, len, data);
      h.(ep := r.e, sent := if r.code == 0 then h.sent + [data[..len]] else h.sent,
         given := h.given + S.TakenBytes(h.ep.cfg.mss, h.ep.cfg.stream, h.ep.snd.queue, len, data))
    case Recv(len) =>
      var r := E.Recv(Unbounded, h.ep, len);
      if r.code >= 0 && len >= 0 then
        h.(ep := r.e, taken := h.taken + Chunks(h.ep.rcv.queue[..R.MergeCount(h.ep.rcv.queue)]),
           got := h.got + [r.data], read := h.read + r.data)
      else h.(ep := r.e)
    case Update(now) => Record(h, E.Update(Unbounded, h.ep, now))
    case Flush => Record(h, E.Flush(Unbounded, h.ep))
    case Deliver(k) => if k < |peer.out| then h.(ep := Input(Unbounded, h.ep, peer.out[k])) else h
  }

  datatype System = System(left: Half, right: Half)

  datatype Move = Left(ev: Event) | Right(ev: Event)

  // ---------------------------------------------------------------- the invariant of one direction

  /** `p` carries the chunk that was given its number. */
  predicate Carries(log: seq<S.Chunk>, p: Packet) {
    0 <= p.sn < |log| && log[p.sn] == S.Chunk(p.frg, p.data)
  }

  predicate SenderLog(s: S.Sender, log: seq<S.Chunk>) {
    |log| == s.nxt && forall i :: 0 <= i < |s.buf| ==> Carries(log, s.buf[i].p)
  }

  /** Every number handed out is still held by the sender, or accepted by the receiver. */
  predicate NoLoss(s: S.Sender, r: R.Receiver) {
    forall sn :: 0 <= sn < s.nxt ==> S.Numbered(s.buf, sn) || R.Accepted(r, sn)
  }

  /** Acks wait only for accepted numbers. */
  predicate AcksTrue(r: R.Receiver) {
    forall i :: 0 <= i < |r.acks| ==> R.Accepted(r, r.acks[i].sn)
  }

  /** What the receiver buffered carries its chunk. */
  predicate Buffered(log: seq<S.Chunk>, r: R.Receiver) {
    forall i :: 0 <= i < |r.buf| ==> Carries(log, r.buf[i])
  }

  /** The receive queue is the last part of the chunks numbered below `rcv_nxt`. */
  predicate InOrder(log: seq<S.Chunk>, r: R.Receiver) {
    && |r.queue| <= r.nxt <= |log|
    && forall i :: 0 <= i < |r.queue| ==>
         S.Chunk(r.queue[i].frg, r.queue[i].data) == log[r.nxt - |r.queue| + i]
  }

  /** What a packet may claim: data it was given, and receipts its sender had issued. */
  predicate Honest(log: seq<S.Chunk>, r: R.Receiver, p: Packet) {
    && Arrived(p)
    && p.una <= r.nxt
    && (p.cmd == CMD_ACK ==> R.Accepted(r, p.sn))
    && (p.cmd == CMD_PUSH ==> Carries(log, p))
  }

  predicate AllHonest(log: seq<S.Chunk>, r: R.Receiver, out: seq<Datagram>) {
    forall k, j :: 0 <= k < |out| && 0 <= j < |out[k]| ==> Honest(log, r, out[k][j])
  }

  /** What links a sender `x` to the receiver `y`. */
  predicate Link(s: S.Sender, log: seq<S.Chunk>, r: R.Receiver) {
    SenderLog(s, log) && NoLoss(s, r) && AcksTrue(r) && Buffered(log, r) && InOrder(log, r)
  }

  predicate HalfInv(h: Half) {
    EndpointInv(h.ep) && AllHonest(h.log, h.ep.rcv, h.out)
  }

  predicate SystemInv(x: Half, y: Half) {
    && HalfInv(x) && HalfInv(y)
    && Link(x.ep.snd, x.log, y.ep.rcv) && Link(y.ep.snd, y.log, x.ep.rcv)
  }

  // ---------------------------------------------------------------- receiver steps

  /** The receiver only gains. */
  ghost predicate Gains(r: R.Receiver, t: R.Receiver) {
    r.nxt <= t.nxt && forall sn :: R.Accepted(r, sn) ==> R.Accepted(t, sn)
  }

  lemma DrainGains(r: R.Receiver, wnd: int)
    ensures Gains(r, R.Drain(Unbounded, r, wnd))
  {
    R.DrainMoves(r, wnd);
    forall sn | R.Accepted(r, sn) ensures R.Accepted(R.Drain(Unbounded, r, wnd), sn) {
      R.DrainKeepsAccepted(r, wnd, sn);
    }
  }

  lemma DrainKeepsOrder(log: seq<S.Chunk>, r: R.Receiver, wnd: int)
    requires Buffered(log, r) && InOrder(log, r)
    ensures var t := R.Drain(Unbounded, r, wnd); Buffered(log, t) && InOrder(log, t)
    ensures var t := R.Drain(Unbounded, r, wnd); t.nxt - |t.queue| == r.nxt - |r.queue|
  {
    R.DrainMoves(r, wnd);
    var t := R.Drain(Unbounded, r, wnd);
    var d := R.Moved(r, wnd);
    if d > 0 { R.DrainNumbers(r, wnd, d - 1); }
    forall i | 0 <= i < |t.queue|
      ensures S.Chunk(t.queue[i].frg, t.queue[i].data) == log[t.nxt - |t.queue| + i]
    {
      if i >= |r.queue| {
        R.DrainNumbers(r, wnd, i - |r.queue|);
        assert t.queue[i] == r.buf[i - |r.queue|];
      }
    }
  }

  lemma InsertGains(r: R.Receiver, wnd: int, p: Packet)
    requires R.BufferInv(r, wnd) && r.nxt <= p.sn < r.nxt + wnd
    ensures var t := r.(buf := R.Insert(Unbounded, r.buf, p)); Gains(r, t) && R.Accepted(t, p.sn)
  {
    var k := R.InsertKeepsInv(r, wnd, p);
    var b := R.Insert(Unbounded, r.buf, p);
    hide R.Insert, R.BufferInv;
    if b != r.buf { InsertHolds(r.buf, k, p); }
    assert b[k].sn == p.sn;
  }

  lemma InsertHolds(buf: seq<Packet>, k: nat, p: Packet)
    requires k <= |buf|
    ensures forall sn :: R.Holds(buf, sn) ==> R.Holds(buf[..k] + [p] + buf[k..], sn)
  {
    var b := buf[..k] + [p] + buf[k..];
    forall sn | R.Holds(buf, sn) ensures R.Holds(b, sn) {
      var i :| 0 <= i < |buf| && buf[i].sn == sn;
      assert b[if i < k then i else i + 1].sn == sn;
    }
  }

  lemma InsertKeepsBuffered(log: seq<S.Chunk>, r: R.Receiver, wnd: int, p: Packet)
    requires R.BufferInv(r, wnd) && r.nxt <= p.sn < r.nxt + wnd
    requires Buffered(log, r) && Carries(log, p)
    ensures Buffered(log, r.(buf := R.Insert(Unbounded, r.buf, p)))
  {
    var k := R.InsertKeepsInv(r, wnd, p);
  }

  lemma GainsTransitive(a: R.Receiver, b: R.Receiver, c: R.Receiver)
    requires Gains(a, b) && Gains(b, c)
    ensures Gains(a, c)
  {
  }

  /** The receiver's side of `Link`. */
  predicate RcvLink(log: seq<S.Chunk>, r: R.Receiver) {
    AcksTrue(r) && Buffered(log, r) && InOrder(log, r)
  }

  lemma AcksStayTrue(r: R.Receiver, t: R.Receiver)
    requires AcksTrue(r) && Gains(r, t) && t.acks == r.acks
    ensures AcksTrue(t)
  {
  }

  /** Taking in a data packet: accepted before its ack is queued, and nothing lost. */
  lemma ParseDataLinks(log: seq<S.Chunk>, r: R.Receiver, wnd: int, p: Packet)
    requires R.ReceiverInv(r, wnd) && Buffered(log, r) && InOrder(log, r) && Carries(log, p)
    ensures var t := R.ParseData(Unbounded, r, wnd, p);
            Gains(r, t) && Buffered(log, t) && InOrder(log, t)
    ensures r.nxt <= p.sn < r.nxt + wnd ==> R.Accepted(R.ParseData(Unbounded, r, wnd, p), p.sn)
  {
    if R.InWindow(Unbounded, r, wnd, p.sn) {
      var r1 := r.(buf := R.Insert(Unbounded, r.buf, p));
      InsertGains(r, wnd, p);
      InsertKeepsBuffered(log, r, wnd, p);
      DrainGains(r1, wnd);
      DrainKeepsOrder(log, r1, wnd);
      GainsTransitive(r, r1, R.Drain(Unbounded, r1, wnd));
    }
  }

  lemma InputPushLinks(log: seq<S.Chunk>, r: R.Receiver, wnd: int, p: Packet)
    requires R.ReceiverInv(r, wnd) && RcvLink(log, r) && Carries(log, p)
    ensures RcvLink(log, R.InputPush(Unbounded, r, wnd, p))
    ensures Gains(r, R.InputPush(Unbounded, r, wnd, p))
  {
    var r1 := r.(acks := r.acks + [R.Ack(p.sn, p.ts)]);
    var t := R.InputPush(Unbounded, r, wnd, p);
    assert Gains(r, r1) && Gains(r1, r);
    if r.nxt <= p.sn < r.nxt + wnd {
      ParseDataLinks(log, r1, wnd, p);
      R.ParseDataKeepsInv(r1, wnd, p);
    }
    AcksAfterPush(r, r1, t, p);
  }

  lemma AcksAfterPush(r: R.Receiver, r1: R.Receiver, t: R.Receiver, p: Packet)
    requires AcksTrue(r) && Gains(r, t)
    requires r1.acks == r.acks + [R.Ack(p.sn, p.ts)]
    requires t == r || (t.acks == r1.acks && R.Accepted(t, p.sn))
    ensures AcksTrue(t)
  {
  }

  // ---------------------------------------------------------------- sender steps

  /** A sender that only lost segments its peer has accepted. */
  lemma UnaLosesNothing(s: S.Sender, r: R.Receiver, una: int)
    requires S.SenderInv(s) && NoLoss(s, r) && una <= r.nxt
    ensures NoLoss(S.ParseUna(Unbounded, s, una), r)
  {
    var k := S.ParseUnaKeepsInv(s, una);
    var t := S.ParseUna(Unbounded, s, una);
    forall sn | 0 <= sn < t.nxt ensures S.Numbered(t.buf, sn) || R.Accepted(r, sn) {
      if S.Numbered(s.buf, sn) {
        var i :| 0 <= i < |s.buf| && s.buf[i].p.sn == sn;
        if i >= k { assert t.buf[i - k].p.sn == sn; }
      }
    }
  }

  lemma NumberedWithout(buf: seq<S.Segment>, k: nat, n: int)
    requires k < |buf| && buf[k].p.sn != n && S.Numbered(buf, n)
    ensures S.Numbered(S.Without(buf, k), n)
  {
    var i :| 0 <= i < |buf| && buf[i].p.sn == n;
    assert S.Without(buf, k)[if i < k then i else i - 1].p.sn == n;
  }

  lemma AckLosesNothing(s: S.Sender, r: R.Receiver, sn: int)
    requires S.SenderInv(s) && NoLoss(s, r) && R.Accepted(r, sn)
    ensures NoLoss(S.ParseAck(Unbounded, s, sn), r)
  {
    var k := S.ParseAckKeepsInv(s, sn);
    var t := S.ParseAck(Unbounded, s, sn);
    hide S.ParseAck, S.SenderInv, R.Accepted, S.Numbered;
    forall n | 0 <= n < t.nxt ensures S.Numbered(t.buf, n) || R.Accepted(r, n) {
      if S.Numbered(s.buf, n) && n != sn && k >= 0 { NumberedWithout(s.buf, k, n); }
    }
  }

  lemma FastAckLosesNothing(s: S.Sender, r: R.Receiver, sn: int)
    requires S.SenderInv(s) && NoLoss(s, r)
    ensures NoLoss(S.ParseFastAck(Unbounded, s, sn), r)
  {
    S.ParseFastAckKeepsInv(s, sn);
    SamePacketsNoLoss(s, S.ParseFastAck(Unbounded, s, sn), r);
  }

  lemma SamePacketsNoLoss(s: S.Sender, t: S.Sender, r: R.Receiver)
    requires |t.buf| == |s.buf| && t.nxt == s.nxt && NoLoss(s, r)
    requires forall i :: 0 <= i < |s.buf| ==> t.buf[i].p.sn == s.buf[i].p.sn
    ensures NoLoss(t, r)
  {
    forall sn | 0 <= sn < t.nxt ensures S.Numbered(t.buf, sn) || R.Accepted(r, sn) {
      if S.Numbered(s.buf, sn) {
        var i :| 0 <= i < |s.buf| && s.buf[i].p.sn == sn;
        assert t.buf[i].p.sn == sn;
      }
    }
  }

  lemma UnaKeepsLog(s: S.Sender, log: seq<S.Chunk>, una: int)
    requires S.SenderInv(s) && SenderLog(s, log)
    ensures SenderLog(S.ParseUna(Unbounded, s, una), log)
  {
    var k := S.ParseUnaKeepsInv(s, una);
  }

  lemma AckKeepsLog(s: S.Sender, log: seq<S.Chunk>, sn: int)
    requires S.SenderInv(s) && SenderLog(s, log)
    ensures SenderLog(S.ParseAck(Unbounded, s, sn), log)
  {
    var k := S.ParseAckKeepsInv(s, sn);
  }

  lemma FastAckKeepsLog(s: S.Sender, log: seq<S.Chunk>, sn: int)
    requires S.SenderInv(s) && SenderLog(s, log)
    ensures SenderLog(S.ParseFastAck(Unbounded, s, sn), log)
  {
    S.ParseFastAckKeepsInv(s, sn);
  }

  predicate SndLink(s: S.Sender, log: seq<S.Chunk>, r: R.Receiver) {
    SenderLog(s, log) && NoLoss(s, r)
  }

  lemma NoLossWhenPeerGains(s: S.Sender, r: R.Receiver, t: R.Receiver)
    requires NoLoss(s, r) && Gains(r, t)
    ensures NoLoss(s, t)
  {
  }

  lemma HonestyWhenGaining(log: seq<S.Chunk>, log2: seq<S.Chunk>, r: R.Receiver, t: R.Receiver, out: seq<Datagram>)
    requires AllHonest(log, r, out) && Gains(r, t) && log <= log2
    ensures AllHonest(log2, t, out)
  {
    forall k, j | 0 <= k < |out| && 0 <= j < |out[k]| ensures Honest(log2, t, out[k][j]) {
      var p := out[k][j];
      assert Honest(log, r, p);
    }
  }

  // ---------------------------------------------------------------- delivery

  /** Both directions as seen from an end that is taking in a datagram. */
  predicate Taking(e: Endpoint, log: seq<S.Chunk>, peerLog: seq<S.Chunk>, peer: R.Receiver) {
    EndpointInv(e) && SndLink(e.snd, log, peer) && RcvLink(peerLog, e.rcv)
  }

  lemma InputPacketLinks(i: Inputting, p: Packet, log: seq<S.Chunk>, peerLog: seq<S.Chunk>, peer: R.Receiver)
    requires Taking(i.e, log, peerLog, peer) && Honest(peerLog, peer, p)
    ensures Taking(InputPacket(Unbounded, i, p).e, log, peerLog, peer)
    ensures Gains(i.e.rcv, InputPacket(Unbounded, i, p).e.rcv)
  {
    InputPacketKeepsInv(i, p);
    UnaLosesNothing(i.e.snd, peer, p.una);
    UnaKeepsLog(i.e.snd, log, p.una);
    SndAfterUna(i.e.cfg, i.e.snd, p.una);
    var s := S.ParseUna(Unbounded, i.e.snd, p.una);
    if p.cmd == CMD_ACK {
      AckLosesNothing(s, peer, p.sn);
      AckKeepsLog(s, log, p.sn);
    } else if p.cmd == CMD_PUSH {
      InputPushLinks(peerLog, i.e.rcv, i.e.cfg.rcvWnd, p);
    }
  }

  lemma {:induction false} InputPacketsLink(i: Inputting, ps: Datagram, log: seq<S.Chunk>, peerLog: seq<S.Chunk>,
                                            peer: R.Receiver)
    requires Taking(i.e, log, peerLog, peer)
    requires forall j :: 0 <= j < |ps| ==> Honest(peerLog, peer, ps[j])
    ensures Taking(InputPackets(Unbounded, i, ps).e, log, peerLog, peer)
    ensures Gains(i.e.rcv, InputPackets(Unbounded, i, ps).e.rcv)
    decreases |ps|
  {
    if ps != [] {
      InputPacketLinks(i, ps[0], log, peerLog, peer);
      InputPacketsLink(InputPacket(Unbounded, i, ps[0]), ps[1..], log, peerLog, peer);
    }
  }

  lemma InputEndLinks(una: int, i: Inputting, log: seq<S.Chunk>, peerLog: seq<S.Chunk>, peer: R.Receiver)
    requires Taking(i.e, log, peerLog, peer)
    ensures Taking(InputEnd(Unbounded, una, i), log, peerLog, peer)
    ensures InputEnd(Unbounded, una, i).rcv == i.e.rcv
  {
    InputEndKeepsInv(una, i);
    if i.acks.MaxAck? {
      FastAckLosesNothing(i.e.snd, peer, i.acks.sn);
      FastAckKeepsLog(i.e.snd, log, i.acks.sn);
    }
  }

  lemma InputLinks(e: Endpoint, ps: Datagram, log: seq<S.Chunk>, peerLog: seq<S.Chunk>, peer: R.Receiver)
    requires Taking(e, log, peerLog, peer)
    requires forall j :: 0 <= j < |ps| ==> Honest(peerLog, peer, ps[j])
    ensures Taking(Input(Unbounded, e, ps), log, peerLog, peer)
    ensures Gains(e.rcv, Input(Unbounded, e, ps).rcv)
  {
    InputPacketsLink(Inputting(e, NoAck), ps, log, peerLog, peer);
    InputEndLinks(e.snd.una, InputPackets(Unbounded, Inputting(e, NoAck), ps), log, peerLog, peer);
  }

  // ---------------------------------------------------------------- flushing

  /** The chunks a flush numbers. */
  function Numbers(e: Endpoint): seq<S.Chunk> {
    var n := |e.snd.queue| - |Admitted(Unbounded, e).queue|;
    if 0 <= n then e.snd.queue[..n] else []
  }

  lemma AdmittedShape(e: Endpoint)
    ensures var a := Admitted(Unbounded, e);
            && 0 <= a.nxt - e.snd.nxt <= |e.snd.queue| && Numbers(e) == e.snd.queue[..a.nxt - e.snd.nxt]
            && a.queue == e.snd.queue[a.nxt - e.snd.nxt..]
            && |a.buf| == |e.snd.buf| + (a.nxt - e.snd.nxt) && e.snd.buf <= a.buf
  {
    AdmitMoves(e.snd, Window(e.cfg, e.cong), Template(e), e.clk.current, e.rtt.rto);
  }

  lemma AdmittedAt(e: Endpoint, i: nat)
    requires i < Admitted(Unbounded, e).nxt - e.snd.nxt
    ensures |e.snd.buf| + i < |Admitted(Unbounded, e).buf| && i < |e.snd.queue|
    ensures Admitted(Unbounded, e).buf[|e.snd.buf| + i]
         == NewSegment(Template(e), e.snd.queue[i], e.snd.nxt + i, e.clk.current, e.rtt.rto)
  {
    AdmitNumbers(e.snd, Window(e.cfg, e.cong), Template(e), e.clk.current, e.rtt.rto, i);
  }

  /** Numbering a chunk records it, and the segment in `snd_buf` carries it. */
  lemma AdmittedLog(e: Endpoint, log: seq<S.Chunk>)
    requires EndpointInv(e) && SenderLog(e.snd, log)
    ensures SenderLog(Admitted(Unbounded, e), log + Numbers(e))
  {
    var a := Admitted(Unbounded, e);
    AdmittedShape(e);
    forall j | 0 <= j < |a.buf| ensures Carries(log + Numbers(e), a.buf[j].p) {
      if j < |e.snd.buf| {
        assert a.buf[j] == e.snd.buf[j];
      } else {
        AdmittedAt(e, j - |e.snd.buf|);
      }
    }
  }

  lemma AdmittedLosesNothing(e: Endpoint, r: R.Receiver)
    requires EndpointInv(e) && NoLoss(e.snd, r)
    ensures NoLoss(Admitted(Unbounded, e), r)
  {
    var a := Admitted(Unbounded, e);
    AdmittedShape(e);
    forall sn | 0 <= sn < a.nxt ensures S.Numbered(a.buf, sn) || R.Accepted(r, sn) {
      if sn >= e.snd.nxt {
        AdmittedAt(e, sn - e.snd.nxt);
        assert a.buf[|e.snd.buf| + (sn - e.snd.nxt)].p.sn == sn;
      } else if S.Numbered(e.snd.buf, sn) {
        var i :| 0 <= i < |e.snd.buf| && e.snd.buf[i].p.sn == sn;
        assert a.buf[i] == e.snd.buf[i];
        assert a.buf[i].p.sn == sn;
      }
    }
  }

  lemma WalkKeepsLink(s: S.Sender, w: Walk, log: seq<S.Chunk>, r: R.Receiver)
    requires SndLink(s, log, r)
    ensures SndLink(s.(buf := WalkAll(w, s.buf).buf), log, r)
  {
    var t := s.(buf := WalkAll(w, s.buf).buf);
    forall i | 0 <= i < |s.buf|
      ensures t.buf[i].p.sn == s.buf[i].p.sn && t.buf[i].p.frg == s.buf[i].p.frg && t.buf[i].p.data == s.buf[i].p.data
    {
      WalkAt(w, s.buf, i);
    }
    SamePacketsNoLoss(s, t, r);
    assert SenderLog(t, log);
  }

  lemma FlushLinks(e: Endpoint, log: seq<S.Chunk>, peer: R.Receiver)
    requires EndpointInv(e) && SndLink(e.snd, log, peer)
    ensures SndLink(FlushState(Unbounded, e).snd, log + Numbers(e), peer)
  {
    AdmittedLog(e, log);
    AdmittedLosesNothing(e, peer);
    WalkKeepsLink(Admitted(Unbounded, e), WalkFor(e), log + Numbers(e), peer);
  }

  /** Everything a flush writes is honest: acks and `una` only for what was accepted, and
      data as numbered. */
  lemma FlushHonest(e: Endpoint, log: seq<S.Chunk>, j: nat)
    requires EndpointInv(e) && SenderLog(e.snd, log) && AcksTrue(e.rcv)
    requires j < |FlushPackets(Unbounded, e)|
    ensures Honest(log + Numbers(e), e.rcv, FlushPackets(Unbounded, e)[j])
  {
    var o := PacketOrigin(e, j);
    FlushWritable(e, j);
    AdmittedLog(e, log);
    if o.FromAck? {
      assert R.Accepted(e.rcv, e.rcv.acks[o.i].sn);
    } else if o.FromProbe? {
      assert AfterAcks(Template(e), e.rcv.acks).una == e.rcv.nxt;
    } else {
      assert Carries(log + Numbers(e), Admitted(Unbounded, e).buf[o.i].p);
      AdmittedInv(e);
      assert DataPacket(e.cfg, Admitted(Unbounded, e).buf[o.i].p);
    }
  }

  lemma FlushOutHonest(e: Endpoint, log: seq<S.Chunk>)
    requires EndpointInv(e) && SenderLog(e.snd, log) && AcksTrue(e.rcv)
    ensures AllHonest(log + Numbers(e), e.rcv, E.Flush(Unbounded, e).out)
  {
    var out := E.Flush(Unbounded, e).out;
    var ps := FlushPackets(Unbounded, e);
    forall k, j | 0 <= k < |out| && 0 <= j < |out[k]|
      ensures Honest(log + Numbers(e), e.rcv, out[k][j])
    {
      assert out[k] in out && out[k][j] in out[k];
      FlushDatagramPackets(e, out[k], out[k][j]);
      var i :| 0 <= i < |ps| && ps[i] == out[k][j];
      FlushHonest(e, log, i);
    }
  }

  lemma ConcatHonest(log: seq<S.Chunk>, r: R.Receiver, a: seq<Datagram>, b: seq<Datagram>)
    requires AllHonest(log, r, a) && AllHonest(log, r, b)
    ensures AllHonest(log, r, a + b)
  {
  }

  lemma LongerLog(log: seq<S.Chunk>, log2: seq<S.Chunk>, r: R.Receiver)
    requires RcvLink(log, r) && log <= log2
    ensures RcvLink(log2, r)
  {
  }

  lemma ClearAcks(log: seq<S.Chunk>, r: R.Receiver)
    requires RcvLink(log, r)
    ensures RcvLink(log, r.(acks := [])) && Gains(r, r.(acks := []))
  {
    assert Gains(r, r.(acks := []));
  }

  function FlushedHalf(x: Half): Half {
    x.(ep := FlushState(Unbounded, x.ep), out := x.out + E.Flush(Unbounded, x.ep).out, log := x.log + Numbers(x.ep))
  }

  lemma RecordIs(x: Half)
    ensures Record(x, E.Flush(Unbounded, x.ep)) == if x.ep.clk.updated then FlushedHalf(x) else x
  {
    AdmittedShape(x.ep);
    assert x.log + x.ep.snd.queue[..0] == x.log && x.out + [] == x.out;
  }

  lemma FlushedHalfInv(x: Half, y: Half)
    requires SystemInv(x, y) && x.ep.clk.updated
    ensures HalfInv(FlushedHalf(x))
  {
    FlushKeepsInv(x.ep);
    FlushOutHonest(x.ep, x.log);
    RecordHonest(x, y);
  }

  lemma FlushedHalfSends(x: Half, y: Half)
    requires SystemInv(x, y)
    ensures var h := FlushedHalf(x); Link(h.ep.snd, h.log, y.ep.rcv)
  {
    FlushLinks(x.ep, x.log, y.ep.rcv);
    LongerLog(x.log, x.log + Numbers(x.ep), y.ep.rcv);
  }

  lemma FlushedHalfReceives(x: Half, y: Half)
    requires SystemInv(x, y)
    ensures Link(y.ep.snd, y.log, FlushedHalf(x).ep.rcv)
  {
    ClearAcks(y.log, x.ep.rcv);
    NoLossWhenPeerGains(y.ep.snd, x.ep.rcv, x.ep.rcv.(acks := []));
  }

  /** A flush at one end keeps both directions. */
  lemma FlushKeepsSystem(x: Half, y: Half)
    requires SystemInv(x, y)
    ensures SystemInv(Record(x, E.Flush(Unbounded, x.ep)), y)
  {
    RecordIs(x);
    if x.ep.clk.updated {
      FlushedHalfInv(x, y);
      FlushedHalfSends(x, y);
      FlushedHalfReceives(x, y);
    }
  }

  lemma RecordHonest(x: Half, y: Half)
    requires SystemInv(x, y) && x.ep.clk.updated
    requires AllHonest(x.log + Numbers(x.ep), x.ep.rcv, E.Flush(Unbounded, x.ep).out)
    ensures AllHonest(x.log + Numbers(x.ep), x.ep.rcv.(acks := []), x.out + E.Flush(Unbounded, x.ep).out)
  {
    var r := x.ep.rcv;
    var log := x.log + Numbers(x.ep);
    ClearAcks(y.log, r);
    HonestyWhenGaining(x.log, log, r, r.(acks := []), x.out);
    HonestyWhenGaining(log, log, r, r.(acks := []), E.Flush(Unbounded, x.ep).out);
    ConcatHonest(log, r.(acks := []), x.out, E.Flush(Unbounded, x.ep).out);
  }

  // ---------------------------------------------------------------- the other calls

  /** Only the clock differs. */
  lemma ClockKeepsSystem(x: Half, y: Half, now: int)
    requires SystemInv(x, y) && 0 <= now < TWO32
    ensures SystemInv(x.(ep := Ticked(x.ep, now)), y)
  {
  }

  lemma RecordUpdateIs(x: Half, now: int)
    ensures var t := x.(ep := Ticked(x.ep, now));
            Record(x, E.Update(Unbounded, x.ep, now)) ==
              if Ticks(x.ep, now) then Record(t, E.Flush(Unbounded, t.ep)) else t
  {
    UpdateIs(Unbounded, x.ep, now);
    assert x.log + x.ep.snd.queue[..0] == x.log && x.out + [] == x.out;
  }

  lemma UpdateKeepsSystem(x: Half, y: Half, now: int)
    requires SystemInv(x, y) && 0 <= now < TWO32
    ensures SystemInv(Record(x, E.Update(Unbounded, x.ep, now)), y)
  {
    ClockKeepsSystem(x, y, now);
    RecordUpdateIs(x, now);
    FlushKeepsSystem(x.(ep := Ticked(x.ep, now)), y);
  }

  lemma SendKeepsSystem(x: Half, y: Half, len: int, data: Bytes)
    requires SystemInv(x, y) && len <= |data|
    ensures SystemInv(Act(x, y, Send(len, data)), y)
  {
    SendKeepsInv(x.ep, len, data);
  }

  /** The receiver after a successful receive, before the drain. */
  lemma RecvLinks(log: seq<S.Chunk>, r: R.Receiver, wnd: int, len: int)
    requires R.ReceiverInv(r, wnd) && RcvLink(log, r)
    ensures RcvLink(log, R.Recv(Unbounded, r, wnd, len).r)
    ensures Gains(r, R.Recv(Unbounded, r, wnd, len).r)
  {
    if R.Recv(Unbounded, r, wnd, len).code >= 0 {
      var k := if len < 0 then 0 else R.MergeCount(r.queue);
      var r1 := r.(queue := r.queue[k..]);
      assert r.queue[0..] == r.queue;
      TakingKeepsOrder(log, r, k);
      DrainGains(r1, wnd);
      DrainKeepsOrder(log, r1, wnd);
      R.DrainMoves(r1, wnd);
      assert Gains(r, r1);
      GainsTransitive(r, r1, R.Drain(Unbounded, r1, wnd));
      AcksStayTrue(r, R.Drain(Unbounded, r1, wnd));
    }
  }

  lemma TakingKeepsOrder(log: seq<S.Chunk>, r: R.Receiver, k: nat)
    requires InOrder(log, r) && k <= |r.queue|
    ensures InOrder(log, r.(queue := r.queue[k..]))
  {
  }

  lemma RecvKeepsSystem(x: Half, y: Half, len: int)
    requires SystemInv(x, y)
    ensures SystemInv(Act(x, y, Recv(len)), y)
  {
    RecvKeepsInv(x.ep, len);
    RecvLinks(y.log, x.ep.rcv, x.ep.cfg.rcvWnd, len);
    var t := R.Recv(Unbounded, x.ep.rcv, x.ep.cfg.rcvWnd, len).r;
    NoLossWhenPeerGains(y.ep.snd, x.ep.rcv, t);
    HonestyWhenGaining(x.log, x.log, x.ep.rcv, t, x.out);
  }

  lemma DeliverKeepsSystem(x: Half, y: Half, k: nat)
    requires SystemInv(x, y)
    ensures SystemInv(Act(x, y, Deliver(k)), y)
  {
    if k < |y.out| {
      var ps := y.out[k];
      assert forall j :: 0 <= j < |ps| ==> Honest(y.log, y.ep.rcv, ps[j]);
      InputLinks(x.ep, ps, x.log, y.log, y.ep.rcv);
      var e := Input(Unbounded, x.ep, ps);
      NoLossWhenPeerGains(y.ep.snd, x.ep.rcv, e.rcv);
      HonestyWhenGaining(x.log, x.log, x.ep.rcv, e.rcv, x.out);
    }
  }

  lemma ActKeepsSystem(x: Half, y: Half, ev: Event)
    requires SystemInv(x, y) && ValidEvent(ev)
    ensures SystemInv(Act(x, y, ev), y)
  {
    match ev
    case Send(len, data) => SendKeepsSystem(x, y, len, data);
    case Recv(len) => RecvKeepsSystem(x, y, len);
    case Update(now) => UpdateKeepsSystem(x, y, now);
    case Flush => FlushKeepsSystem(x, y);
    case Deliver(k) => DeliverKeepsSystem(x, y, k);
  }

  // ---------------------------------------------------------------- runs

  predicate Wellformed(s: System) {
    s.left.ep.cfg.mss > 0 && s.right.ep.cfg.mss > 0
  }

  predicate ValidMove(mv: Move) {
    ValidEvent(mv.ev)
  }

  function Step(s: System, mv: Move): System
    requires Wellformed(s) && ValidMove(mv)
  {
    match mv
    case Left(ev) => s.(left := Act(s.left, s.right, ev))
    case Right(ev) => s.(right := Act(s.right, s.left, ev))
  }

  predicate Inv(s: System) {
    SystemInv(s.left, s.right)
  }

  lemma StartInv(a: Config, b: Config)
    requires ValidConfig(a) && ValidConfig(b)
    ensures Inv(System(Start(a), Start(b)))
  {
  }

  lemma StepKeepsInv(s: System, mv: Move)
    requires Inv(s) && ValidMove(mv)
    ensures Inv(Step(s, mv))
  {
    match mv
    case Left(ev) => ActKeepsSystem(s.left, s.right, ev);
    case Right(ev) =>
      ActKeepsSystem(s.right, s.left, ev);
  }

  /** A run: the two ends make API calls and take deliveries in any order. */
  function RunFrom(s: System, moves: seq<Move>): (t: System)
    requires Inv(s) && forall i :: 0 <= i < |moves| ==> ValidMove(moves[i])
    ensures Inv(t)
  {
    if moves == [] then s
    else
      var n := |moves| - 1;
      var t := RunFrom(s, moves[..n]);
      StepKeepsInv(t, moves[n]);
      Step(t, moves[n])
  }

  predicate ValidMoves(moves: seq<Move>) {
    forall i :: 0 <= i < |moves| ==> ValidMove(moves[i])
  }

  function Run(a: Config, b: Config, moves: seq<Move>): (t: System)
    requires ValidConfig(a) && ValidConfig(b) && ValidMoves(moves)
    ensures Inv(t)
  {
    StartInv(a, b);
    RunFrom(System(Start(a), Start(b)), moves)
  }
}
