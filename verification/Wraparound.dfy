/** The 32-bit code refines the protocol with unbounded sequence numbers: started on the
    wrapped state, it takes the same branches and ends in the wrapped result. */
module Wraparound {
  import opened Word32
  import opened Wire
  import opened Endpoint
  import opened Invariant
  import S = Sender
  import R = Receiver

  function WrapP(p: Packet): Packet {
    p.(sn := W(p.sn), una := W(p.una))
  }

  function WrapPs(ps: seq<Packet>): (r: seq<Packet>)
    ensures |r| == |ps| && forall i :: 0 <= i < |r| ==> r[i] == WrapP(ps[i])
  {
    seq(|ps|, i requires 0 <= i < |ps| => WrapP(ps[i]))
  }

  function WrapSeg(s: S.Segment): S.Segment {
    s.(p := WrapP(s.p))
  }

  function WrapSegs(buf: seq<S.Segment>): (r: seq<S.Segment>)
    ensures |r| == |buf| && forall i :: 0 <= i < |r| ==> r[i] == WrapSeg(buf[i])
  {
    seq(|buf|, i requires 0 <= i < |buf| => WrapSeg(buf[i]))
  }

  function WrapAck(a: R.Ack): R.Ack {
    a.(sn := W(a.sn))
  }

  function WrapAcks(acks: seq<R.Ack>): (r: seq<R.Ack>)
    ensures |r| == |acks| && forall i :: 0 <= i < |r| ==> r[i] == WrapAck(acks[i])
  {
    seq(|acks|, i requires 0 <= i < |acks| => WrapAck(acks[i]))
  }

  function WrapSnd(s: S.Sender): S.Sender {
    S.Sender(s.queue, WrapSegs(s.buf), W(s.una), W(s.nxt))
  }

  function WrapRcv(r: R.Receiver): R.Receiver {
    R.Receiver(WrapPs(r.buf), WrapPs(r.queue), W(r.nxt), WrapAcks(r.acks))
  }

  function WrapE(e: Endpoint): Endpoint {
    e.(snd := WrapSnd(e.snd), rcv := WrapRcv(e.rcv))
  }

  function WrapMax(a: MaxAck): MaxAck {
    if a.NoAck? then a else MaxAck(W(a.sn))
  }

  predicate Near(a: int, b: int) {
    -HALF <= a - b < HALF
  }

  // ---------------------------------------------------------------- sender

  lemma {:induction false} DropBelowWraps(buf: seq<S.Segment>, una: int)
    requires S.Increasing(buf)
    requires forall i :: 0 <= i < |buf| ==> buf[i].p.sn - buf[0].p.sn < HALF
    requires buf != [] ==> Near(una, buf[0].p.sn)
    ensures S.DropBelow(Mod32, WrapSegs(buf), W(una)) == WrapSegs(S.DropBelow(Unbounded, buf, una))
  {
    if buf != [] {
      DiffOfNear(una, buf[0].p.sn);
      if una > buf[0].p.sn {
        assert WrapSegs(buf)[1..] == WrapSegs(buf[1..]);
        DropBelowWraps(buf[1..], una);
      }
    }
  }

  lemma WrapTail(buf: seq<S.Segment>)
    requires buf != []
    ensures WrapSegs(buf)[1..] == WrapSegs(buf[1..])
  {
  }

  lemma WrapCons(s: S.Segment, rest: seq<S.Segment>)
    ensures [WrapSeg(s)] + WrapSegs(rest) == WrapSegs([s] + rest)
  {
  }

  lemma {:induction false} RemoveAckedWraps(buf: seq<S.Segment>, sn: int)
    requires forall i :: 0 <= i < |buf| ==> Near(sn, buf[i].p.sn)
    ensures S.RemoveAcked(Mod32, WrapSegs(buf), W(sn)) == WrapSegs(S.RemoveAcked(Unbounded, buf, sn))
  {
    if buf != [] {
      assert Near(sn, buf[0].p.sn);
      DiffOfNear(sn, buf[0].p.sn);
      WordsOfNearDiffer(sn, buf[0].p.sn);
      WrapTail(buf);
      RemoveAckedWraps(buf[1..], sn);
      WrapCons(buf[0], S.RemoveAcked(Unbounded, buf[1..], sn));
    }
  }

  lemma {:induction false} BumpBeforeWraps(buf: seq<S.Segment>, sn: int)
    requires forall i :: 0 <= i < |buf| ==> Near(sn, buf[i].p.sn)
    ensures S.BumpBefore(Mod32, WrapSegs(buf), W(sn)) == WrapSegs(S.BumpBefore(Unbounded, buf, sn))
  {
    if buf != [] {
      assert Near(sn, buf[0].p.sn);
      DiffOfNear(sn, buf[0].p.sn);
      WordsOfNearDiffer(sn, buf[0].p.sn);
      WrapTail(buf);
      BumpBeforeWraps(buf[1..], sn);
      hide Near, TimeDiff, W;
      if sn >= buf[0].p.sn {
        var s := if sn != buf[0].p.sn then buf[0].(fastack := W(buf[0].fastack + 1)) else buf[0];
        WrapCons(s, S.BumpBefore(Unbounded, buf[1..], sn));
      }
    }
  }

  lemma ShrinkWraps(s: S.Sender)
    ensures S.Shrink(WrapSnd(s)) == WrapSnd(S.Shrink(s))
  {
  }

  lemma ParseUnaWraps(s: S.Sender, una: int)
    requires S.SenderInv(s) && s.nxt - s.una < HALF && Near(una, s.una)
    ensures S.ParseUna(Mod32, WrapSnd(s), W(una)) == WrapSnd(S.ParseUna(Unbounded, s, una))
  {
    DropBelowWraps(s.buf, una);
    ShrinkWraps(s.(buf := S.DropBelow(Unbounded, s.buf, una)));
  }

  lemma InFlightWraps(s: S.Sender, sn: int)
    requires S.SenderInv(s) && s.nxt - s.una < HALF && Near(sn, s.nxt)
    ensures S.InFlight(Mod32, WrapSnd(s), W(sn)) <==> S.InFlight(Unbounded, s, sn)
  {
    DiffOfNear(sn, s.nxt);
    if sn < s.nxt { DiffOfNear(sn, s.una); }
  }

  lemma ParseAckWraps(s: S.Sender, sn: int)
    requires S.SenderInv(s) && s.nxt - s.una < HALF && Near(sn, s.nxt)
    ensures S.ParseAck(Mod32, WrapSnd(s), W(sn)) == WrapSnd(S.ParseAck(Unbounded, s, sn))
  {
    InFlightWraps(s, sn);
    if S.InFlight(Unbounded, s, sn) {
      RemoveAckedWraps(s.buf, sn);
      ShrinkWraps(s.(buf := S.RemoveAcked(Unbounded, s.buf, sn)));
    } else {
      ShrinkWraps(s);
    }
  }

  lemma ParseFastAckWraps(s: S.Sender, sn: int)
    requires S.SenderInv(s) && s.nxt - s.una < HALF && Near(sn, s.nxt)
    ensures S.ParseFastAck(Mod32, WrapSnd(s), W(sn)) == WrapSnd(S.ParseFastAck(Unbounded, s, sn))
  {
    InFlightWraps(s, sn);
    if S.InFlight(Unbounded, s, sn) {
      BumpBeforeWraps(s.buf, sn);
    }
  }

  // ---------------------------------------------------------------- receiver

  lemma {:induction false} InsertWraps(buf: seq<Packet>, p: Packet)
    requires forall i :: 0 <= i < |buf| ==> Near(p.sn, buf[i].sn)
    ensures R.Insert(Mod32, WrapPs(buf), WrapP(p)) == WrapPs(R.Insert(Unbounded, buf, p))
  {
    if buf == [] {
      assert WrapPs([p]) == [WrapP(p)];
    } else {
      var n := |buf| - 1;
      assert Near(p.sn, buf[n].sn);
      DiffOfNear(p.sn, buf[n].sn);
      WordsOfNearDiffer(p.sn, buf[n].sn);
      assert WrapPs(buf)[..n] == WrapPs(buf[..n]);
      InsertWraps(buf[..n], p);
      var init := R.Insert(Unbounded, buf[..n], p);
      assert WrapPs(init) + [WrapP(buf[n])] == WrapPs(init + [buf[n]]);
      assert WrapPs(buf) + [WrapP(p)] == WrapPs(buf + [p]);
    }
  }

  /** One turn of the drain loop. */
  function DrainOne(m: Numbering, r: R.Receiver): R.Receiver
    requires r.buf != []
  {
    r.(buf := r.buf[1..], queue := r.queue + [r.buf[0]], nxt := Plus(m, r.nxt, 1))
  }

  lemma DrainOneWraps(r: R.Receiver)
    requires r.buf != []
    ensures DrainOne(Mod32, WrapRcv(r)) == WrapRcv(DrainOne(Unbounded, r))
  {
    assert WrapPs(r.buf)[1..] == WrapPs(r.buf[1..]);
    assert WrapPs(r.queue) + [WrapP(r.buf[0])] == WrapPs(r.queue + [r.buf[0]]);
  }

  lemma {:induction false} DrainWraps(r: R.Receiver, wnd: int)
    requires R.BufferInv(r, wnd) && wnd < HALF
    ensures R.Drain(Mod32, WrapRcv(r), wnd) == WrapRcv(R.Drain(Unbounded, r, wnd))
    decreases |r.buf|
  {
    if r.buf != [] {
      WordsOfNearDiffer(r.buf[0].sn, r.nxt);
      if r.buf[0].sn == r.nxt && |r.queue| < wnd {
        var s := DrainOne(Unbounded, r);
        DrainOneWraps(r);
        R.DrainStep(r, s, wnd);
        DrainWraps(s, wnd);
        assert R.Drain(Mod32, WrapRcv(r), wnd) == R.Drain(Mod32, DrainOne(Mod32, WrapRcv(r)), wnd);
      }
    }
  }

  lemma PlusWraps(x: int, k: int)
    ensures Plus(Mod32, W(x), k) == W(x + k)
  {
  }

  lemma WindowEndWraps(r: R.Receiver, wnd: int, sn: int)
    requires 0 < wnd < HALF && Near(sn, r.nxt + wnd)
    ensures Diff(Mod32, W(sn), Plus(Mod32, W(r.nxt), wnd)) == sn - (r.nxt + wnd)
    ensures sn < r.nxt + wnd ==> Diff(Mod32, W(sn), W(r.nxt)) == sn - r.nxt
  {
    PlusWraps(r.nxt, wnd);
    DiffOfNear(sn, r.nxt + wnd);
    if sn < r.nxt + wnd { DiffOfNear(sn, r.nxt); }
  }

  lemma ParseDataWraps(r: R.Receiver, wnd: int, p: Packet)
    requires R.ReceiverInv(r, wnd) && 0 < wnd < HALF && Near(p.sn, r.nxt + wnd)
    ensures R.ParseData(Mod32, WrapRcv(r), wnd, WrapP(p)) == WrapRcv(R.ParseData(Unbounded, r, wnd, p))
  {
    WindowEndWraps(r, wnd, p.sn);
    if R.InWindow(Unbounded, r, wnd, p.sn) {
      var k := R.InsertKeepsInv(r, wnd, p);
      InsertWraps(r.buf, p);
      DrainWraps(r.(buf := R.Insert(Unbounded, r.buf, p)), wnd);
    }
  }

  lemma InputPushWraps(r: R.Receiver, wnd: int, p: Packet)
    requires R.ReceiverInv(r, wnd) && 0 < wnd < HALF && Near(p.sn, r.nxt + wnd)
    ensures R.InputPush(Mod32, WrapRcv(r), wnd, WrapP(p)) == WrapRcv(R.InputPush(Unbounded, r, wnd, p))
  {
    WindowEndWraps(r, wnd, p.sn);
    var r1 := r.(acks := r.acks + [R.Ack(p.sn, p.ts)]);
    assert WrapAcks(r1.acks) == WrapAcks(r.acks) + [R.Ack(W(p.sn), p.ts)];
    ParseDataWraps(r1, wnd, p);
  }

  lemma {:induction false} MergeWraps(queue: seq<Packet>)
    ensures R.MergeCount(WrapPs(queue)) == R.MergeCount(queue)
    ensures R.MergeData(WrapPs(queue)) == R.MergeData(queue)
  {
    if queue != [] {
      assert WrapPs(queue)[1..] == WrapPs(queue[1..]);
      MergeWraps(queue[1..]);
    }
  }

  lemma RecvWraps(r: R.Receiver, wnd: int, len: int)
    requires R.ReceiverInv(r, wnd) && 0 < wnd < HALF
    ensures var c := R.Recv(Mod32, WrapRcv(r), wnd, len);
            var u := R.Recv(Unbounded, r, wnd, len);
            c == u.(r := WrapRcv(u.r))
  {
    hide R.MergeCount, R.MergeData, R.Drain;
    MergeWraps(r.queue);
    if r.queue != [] {
      assert WrapPs(r.queue)[0].frg == r.queue[0].frg;
      var rest := if len < 0 then r.queue else r.queue[R.MergeCount(r.queue)..];
      assert WrapPs(r.queue)[R.MergeCount(r.queue)..] == WrapPs(r.queue[R.MergeCount(r.queue)..]);
      DrainWraps(r.(queue := rest), wnd);
    }
  }

  // ---------------------------------------------------------------- input

  /** The numbers of a packet that reaches `e` are within half the number space of the
      counters they are compared with. */
  predicate Readable(e: Endpoint, p: Packet) {
    && Near(p.una, e.snd.una)
    && (p.cmd == CMD_ACK ==> Near(p.sn, e.snd.nxt))
    && (p.cmd == CMD_PUSH ==> Near(p.sn, e.rcv.nxt + e.cfg.rcvWnd))
  }

  lemma InputPacketWraps(e: Endpoint, a: MaxAck, b: MaxAck, p: Packet)
    requires EndpointInv(e) && Readable(e, p)
    ensures InputPacket(Mod32, Inputting(WrapE(e), b), WrapP(p)).e
         == WrapE(InputPacket(Unbounded, Inputting(e, a), p).e)
  {
    ParseUnaWraps(e.snd, p.una);
    SndAfterUna(e.cfg, e.snd, p.una);
    var s := S.ParseUna(Unbounded, e.snd, p.una);
    if p.cmd == CMD_ACK {
      ParseAckWraps(s, p.sn);
    } else if p.cmd == CMD_PUSH {
      InputPushWraps(e.rcv, e.cfg.rcvWnd, p);
    }
  }

  lemma LaterWraps(a: MaxAck, sn: int)
    requires a.MaxAck? ==> Near(sn, a.sn)
    ensures Later(Mod32, WrapMax(a), W(sn)) == WrapMax(Later(Unbounded, a, sn))
  {
    if a.MaxAck? { DiffOfNear(sn, a.sn); }
  }

  /** The unbounded reading of a packet of 32-bit numbers: each number is taken next to the
      counter it is compared with. */
  function LiftP(e: Endpoint, p: Packet): Packet {
    p.(una := Lift(p.una, e.snd.una),
       sn := if p.cmd == CMD_ACK then Lift(p.sn, e.snd.nxt)
             else if p.cmd == CMD_PUSH then Lift(p.sn, e.rcv.nxt + e.cfg.rcvWnd) else p.sn)
  }

  lemma LiftIsReadable(e: Endpoint, p: Packet)
    requires 0 <= p.sn < TWO32 && 0 <= p.una < TWO32
    ensures Readable(e, LiftP(e, p)) && WrapP(LiftP(e, p)) == p
  {
  }

  lemma FastAckWraps(e: Endpoint, a: MaxAck)
    requires EndpointInv(e) && (a.MaxAck? ==> Near(a.sn, e.snd.nxt))
    ensures FastAck(Mod32, Inputting(WrapE(e), WrapMax(a))) == WrapE(FastAck(Unbounded, Inputting(e, a)))
  {
    if a.MaxAck? { ParseFastAckWraps(e.snd, a.sn); }
  }

  lemma InputEndWraps(una: int, e: Endpoint, a: MaxAck)
    requires EndpointInv(e) && (a.MaxAck? ==> Near(a.sn, e.snd.nxt))
    requires una <= e.snd.una && Near(e.snd.una, una)
    ensures InputEnd(Mod32, W(una), Inputting(WrapE(e), WrapMax(a))) == WrapE(InputEnd(Unbounded, una, Inputting(e, a)))
  {
    FastAckWraps(e, a);
    if a.MaxAck? { SndAfterFastAck(e.cfg, e.snd, a.sn); }
    DiffOfNear(e.snd.una, una);
  }

  /** A datagram all of whose packets are readable when their turn comes. */
  predicate Fresh(i: Inputting, ps: Datagram)
    decreases |ps|
  {
    ps == [] || (Readable(i.e, ps[0])
                 && (ps[0].cmd == CMD_ACK && i.acks.MaxAck? ==> Near(ps[0].sn, i.acks.sn))
                 && Fresh(InputPacket(Unbounded, i, ps[0]), ps[1..]))
  }

  predicate AckNear(i: Inputting) {
    i.acks.MaxAck? ==> Near(i.acks.sn, i.e.snd.nxt)
  }

  function WrapI(i: Inputting): Inputting {
    Inputting(WrapE(i.e), WrapMax(i.acks))
  }

  lemma InputStepWraps(i: Inputting, p: Packet)
    requires EndpointInv(i.e) && Readable(i.e, p) && AckNear(i)
    requires p.cmd == CMD_ACK && i.acks.MaxAck? ==> Near(p.sn, i.acks.sn)
    ensures InputPacket(Mod32, WrapI(i), WrapP(p)) == WrapI(InputPacket(Unbounded, i, p))
    ensures AckNear(InputPacket(Unbounded, i, p))
  {
    InputPacketWraps(i.e, i.acks, WrapMax(i.acks), p);
    AcksStep(i, p);
    if p.cmd == CMD_ACK { LaterWraps(i.acks, p.sn); }
  }

  lemma AcksStep(i: Inputting, p: Packet)
    ensures forall m :: InputPacket(m, i, p).acks == if p.cmd == CMD_ACK then Later(m, i.acks, p.sn) else i.acks
    ensures InputPacket(Unbounded, i, p).e.snd.nxt == i.e.snd.nxt
  {
  }

  lemma {:induction false} InputPacketsWrap(i: Inputting, ps: Datagram)
    requires EndpointInv(i.e) && AckNear(i) && Fresh(i, ps)
    requires forall p :: p in ps ==> Arrived(p)
    ensures InputPackets(Mod32, WrapI(i), WrapPs(ps)) == WrapI(InputPackets(Unbounded, i, ps))
    ensures AckNear(InputPackets(Unbounded, i, ps))
    decreases |ps|
  {
    if ps != [] {
      assert ps[0] in ps;
      InputStepWraps(i, ps[0]);
      InputPacketKeepsInv(i, ps[0]);
      InputPacketsWrap(InputPacket(Unbounded, i, ps[0]), ps[1..]);
      assert WrapPs(ps)[1..] == WrapPs(ps[1..]);
    }
  }

  lemma UnaSpan(e: Endpoint, f: Endpoint)
    requires EndpointInv(e) && EndpointInv(f) && Forward(e, f) && f.snd.nxt == e.snd.nxt
    ensures Near(f.snd.una, e.snd.una)
  {
  }

  lemma {:induction false} InputKeepsNxt(i: Inputting, ps: Datagram)
    ensures InputPackets(Unbounded, i, ps).e.snd.nxt == i.e.snd.nxt
    decreases |ps|
  {
    if ps != [] {
      AcksStep(i, ps[0]);
      InputKeepsNxt(InputPacket(Unbounded, i, ps[0]), ps[1..]);
    }
  }

  /** On a fresh datagram the 32-bit input does what the unbounded input does. */
  lemma InputWraps(e: Endpoint, ps: Datagram)
    requires EndpointInv(e) && Fresh(Inputting(e, NoAck), ps)
    requires forall p :: p in ps ==> Arrived(p)
    ensures Input(Mod32, WrapE(e), WrapPs(ps)) == WrapE(Input(Unbounded, e, ps))
  {
    var i := Inputting(e, NoAck);
    var j := InputPackets(Unbounded, i, ps);
    InputPacketsWrap(i, ps);
    InputPacketsKeepInv(i, ps);
    InputKeepsNxt(i, ps);
    UnaSpan(e, j.e);
    InputEndWraps(e.snd.una, j.e, j.acks);
  }

  /** Any 32-bit packets at all have an unbounded reading with the same effect. */
  lemma {:induction false} AnyPackets(e: Endpoint, b: MaxAck, ps: Datagram) returns (v: Endpoint)
    requires EndpointInv(e) && (b.MaxAck? ==> 0 <= b.sn < TWO32)
    requires forall p :: p in ps ==> FitsHeader(p)
    ensures InputPackets(Mod32, Inputting(WrapE(e), b), ps).e == WrapE(v)
    ensures EndpointInv(v) && Forward(e, v) && v.snd.nxt == e.snd.nxt
    ensures var a := InputPackets(Mod32, Inputting(WrapE(e), b), ps).acks; a.MaxAck? ==> 0 <= a.sn < TWO32
    decreases |ps|
  {
    if ps == [] {
      v := e;
    } else {
      assert ps[0] in ps;
      var p := LiftP(e, ps[0]);
      LiftIsReadable(e, ps[0]);
      InputPacketWraps(e, NoAck, b, p);
      InputPacketKeepsInv(Inputting(e, NoAck), p);
      AcksStep(Inputting(e, NoAck), p);
      AcksStep(Inputting(WrapE(e), b), ps[0]);
      var f := InputPacket(Unbounded, Inputting(e, NoAck), p).e;
      var c := InputPacket(Mod32, Inputting(WrapE(e), b), ps[0]);
      v := AnyPackets(f, c.acks, ps[1..]);
    }
  }

  function LiftMax(b: MaxAck, base: int): (a: MaxAck)
    ensures a.MaxAck? ==> Near(a.sn, base)
    ensures (b.MaxAck? ==> 0 <= b.sn < TWO32) ==> WrapMax(a) == b
  {
    if b.NoAck? then b else MaxAck(Lift(b.sn, base))
  }

  lemma AnyEnd(e: Endpoint, u: Endpoint, b: MaxAck) returns (v: Endpoint)
    requires EndpointInv(e) && EndpointInv(u) && Forward(e, u) && u.snd.nxt == e.snd.nxt
    requires b.MaxAck? ==> 0 <= b.sn < TWO32
    ensures InputEnd(Mod32, W(e.snd.una), Inputting(WrapE(u), b)) == WrapE(v)
    ensures EndpointInv(v) && Forward(e, v) && v.snd.nxt == e.snd.nxt
  {
    var a := LiftMax(b, u.snd.nxt);
    UnaSpan(e, u);
    InputEndWraps(e.snd.una, u, a);
    InputEndKeepsInv(e.snd.una, Inputting(u, a));
    InputEndKeepsNxt(e.snd.una, Inputting(u, a));
    v := InputEnd(Unbounded, e.snd.una, Inputting(u, a));
  }

  /** Whatever bytes arrive, `ikcp_input` leaves a control block that keeps the invariant and
      has not gone back, on success and on every early error return. */
  lemma AnyBytes(e: Endpoint, bytes: Bytes) returns (v: Endpoint)
    requires EndpointInv(e)
    ensures InputBytes(Mod32, WrapE(e), bytes).e == WrapE(v)
    ensures EndpointInv(v) && Forward(e, v) && v.snd.nxt == e.snd.nxt
  {
    v := e;
    if |bytes| >= OVERHEAD {
      var parse := ParseAll(e.cfg.conv, bytes);
      var u := AnyPackets(e, NoAck, parse.packets);
      var c := InputPackets(Mod32, Inputting(WrapE(e), NoAck), parse.packets);
      if parse.status < 0 {
        v := u;
      } else {
        v := AnyEnd(e, u, c.acks);
      }
    }
  }

  lemma InputEndKeepsNxt(una: int, i: Inputting)
    requires i.e.cfg.mss > 0
    ensures InputEnd(Unbounded, una, i).snd.nxt == i.e.snd.nxt
  {
  }

  // ---------------------------------------------------------------- flush

  function AdmitOne(m: Numbering, s: S.Sender, t: Packet, now: int, rto: int): S.Sender
    requires s.queue != []
  {
    s.(queue := s.queue[1..], buf := s.buf + [NewSegment(t, s.queue[0], s.nxt, now, rto)], nxt := Plus(m, s.nxt, 1))
  }

  lemma AdmitOneWraps(s: S.Sender, t: Packet, now: int, rto: int)
    requires s.queue != []
    ensures AdmitOne(Mod32, WrapSnd(s), WrapP(t), now, rto) == WrapSnd(AdmitOne(Unbounded, s, t, now, rto))
  {
    var x := NewSegment(t, s.queue[0], s.nxt, now, rto);
    assert WrapSegs(s.buf) + [WrapSeg(x)] == WrapSegs(s.buf + [x]);
  }

  lemma {:induction false} AdmitWraps(s: S.Sender, window: int, t: Packet, now: int, rto: int)
    requires s.una <= s.nxt && s.nxt - s.una < 65536 && 0 <= window < 65536
    ensures Admit(Mod32, WrapSnd(s), window, WrapP(t), now, rto) == WrapSnd(Admit(Unbounded, s, window, t, now, rto))
    decreases |s.queue|
  {
    assert W(W(s.una) + window) == W(s.una + window);
    DiffOfNear(s.nxt, s.una + window);
    if s.nxt < s.una + window && s.queue != [] {
      AdmitOneWraps(s, t, now, rto);
      AdmitWraps(AdmitOne(Unbounded, s, t, now, rto), window, t, now, rto);
      assert Admit(Mod32, WrapSnd(s), window, WrapP(t), now, rto)
          == Admit(Mod32, AdmitOne(Mod32, WrapSnd(s), WrapP(t), now, rto), window, WrapP(t), now, rto);
    }
  }

  function WrapWalk(w: Walk): Walk {
    w.(una := W(w.una))
  }

  lemma ResendWraps(w: Walk, s: S.Segment)
    ensures Resend(WrapWalk(w), WrapSeg(s)) == WrapSeg(Resend(w, s))
    ensures ActionFor(WrapWalk(w), WrapSeg(s)) == ActionFor(w, s)
  {
  }

  lemma {:induction false} WalkWraps(w: Walk, buf: seq<S.Segment>)
    ensures var r := WalkAll(w, buf);
            WalkAll(WrapWalk(w), WrapSegs(buf)) == r.(buf := WrapSegs(r.buf), sent := WrapPs(r.sent))
  {
    if buf != [] {
      hide Resend, ActionFor, WrapSeg;
      var n := |buf| - 1;
      WalkWraps(w, buf[..n]);
      assert WrapSegs(buf)[..n] == WrapSegs(buf[..n]);
      ResendWraps(w, buf[n]);
      var r := WalkAll(w, buf[..n]);
      var s := Resend(w, buf[n]);
      assert WrapSegs(r.buf) + [WrapSeg(s)] == WrapSegs(r.buf + [s]);
      assert WrapPs(r.sent) + [WrapP(s.p)] == WrapPs(r.sent + [s.p]);
    }
  }

  lemma {:induction false} AckPacketsWrap(t: Packet, acks: seq<R.Ack>)
    ensures AckPackets(WrapP(t), WrapAcks(acks)) == WrapPs(AckPackets(t, acks))
    ensures AfterAcks(WrapP(t), WrapAcks(acks)) == WrapP(AfterAcks(t, acks))
  {
    if acks != [] {
      var n := |acks| - 1;
      AckPacketsWrap(t, acks[..n]);
      assert WrapAcks(acks)[..n] == WrapAcks(acks[..n]);
      var ps := AckPackets(t, acks[..n]);
      var p := AckPacket(t, acks[n]);
      assert WrapPs(ps) + [WrapP(p)] == WrapPs(ps + [p]);
    }
  }

  lemma TemplateWraps(e: Endpoint)
    ensures Template(WrapE(e)) == WrapP(Template(e))
    ensures WalkFor(WrapE(e)) == WrapWalk(WalkFor(e))
  {
  }

  lemma AdmittedWraps(e: Endpoint)
    requires EndpointInv(e)
    ensures Admitted(Mod32, WrapE(e)) == WrapSnd(Admitted(Unbounded, e))
  {
    TemplateWraps(e);
    AdmitWraps(e.snd, Window(e.cfg, e.cong), Template(e), e.clk.current, e.rtt.rto);
  }

  lemma WrapConcat(a: seq<Packet>, b: seq<Packet>, c: seq<Packet>)
    ensures WrapPs(a) + WrapPs(b) + WrapPs(c) == WrapPs(a + b + c)
  {
  }

  lemma ProbePacketsWrap(t: Packet, c: Clock)
    ensures ProbePackets(WrapP(t), c) == WrapPs(ProbePackets(t, c))
  {
  }

  lemma FlushPacketsWrap(e: Endpoint)
    requires EndpointInv(e)
    ensures FlushPackets(Mod32, WrapE(e)) == WrapPs(FlushPackets(Unbounded, e))
  {
    var t := AfterAcks(Template(e), e.rcv.acks);
    var c := Probe(e.clk, e.cong.rmtWnd);
    var a := Admitted(Unbounded, e).buf;
    TemplateWraps(e);
    AdmittedWraps(e);
    AckPacketsWrap(Template(e), e.rcv.acks);
    WalkWraps(WalkFor(e), a);
    ProbePacketsWrap(t, c);
    WrapConcat(AckPackets(Template(e), e.rcv.acks), ProbePackets(t, c), WalkAll(WalkFor(e), a).sent);
  }

  lemma AfterFlushWraps(e: Endpoint, s: S.Sender, w: Walked)
    ensures AfterFlush(WrapE(e), WrapSnd(s), w.(buf := WrapSegs(w.buf), sent := WrapPs(w.sent)))
         == WrapE(AfterFlush(e, s, w))
  {
    assert W(W(s.nxt) - W(s.una)) == W(s.nxt - s.una);
    assert WrapAcks([]) == [];
  }

  lemma FlushStateWraps(e: Endpoint)
    requires EndpointInv(e)
    ensures FlushState(Mod32, WrapE(e)) == WrapE(FlushState(Unbounded, e))
  {
    var a := Admitted(Unbounded, e);
    TemplateWraps(e);
    AdmittedWraps(e);
    WalkWraps(WalkFor(e), a.buf);
    AfterFlushWraps(e, a, WalkAll(WalkFor(e), a.buf));
  }

  function WrapDs(ds: seq<Datagram>): (r: seq<Datagram>)
    ensures |r| == |ds| && forall i :: 0 <= i < |r| ==> r[i] == WrapPs(ds[i])
  {
    seq(|ds|, i requires 0 <= i < |ds| => WrapPs(ds[i]))
  }

  function WrapBox(b: Outbox): Outbox {
    Outbox(WrapDs(b.done), WrapPs(b.cur))
  }

  lemma {:induction false} SizeWraps(ps: Datagram)
    ensures SizeAll(WrapPs(ps)) == SizeAll(ps)
  {
    if ps != [] {
      assert WrapPs(ps)[..|ps| - 1] == WrapPs(ps[..|ps| - 1]);
      SizeWraps(ps[..|ps| - 1]);
    }
  }

  lemma EmitWraps(b: Outbox)
    ensures Emit(WrapBox(b)) == WrapBox(Emit(b))
  {
    assert WrapDs(b.done) + [WrapPs(b.cur)] == WrapDs(b.done + [b.cur]);
  }

  lemma PutWraps(mtu: int, b: Outbox, p: Packet)
    ensures Put(mtu, WrapBox(b), WrapP(p)) == WrapBox(Put(mtu, b, p))
  {
    SizeWraps(b.cur);
    EmitWraps(b);
    var c := if SizeAll(b.cur) + Size(p) > mtu then Emit(b) else b;
    assert WrapPs(c.cur) + [WrapP(p)] == WrapPs(c.cur + [p]);
  }

  lemma {:induction false} PutAllWraps(mtu: int, b: Outbox, ps: seq<Packet>)
    ensures PutAll(mtu, WrapBox(b), WrapPs(ps)) == WrapBox(PutAll(mtu, b, ps))
  {
    if ps != [] {
      var n := |ps| - 1;
      assert WrapPs(ps)[..n] == WrapPs(ps[..n]);
      PutAllWraps(mtu, b, ps[..n]);
      PutWraps(mtu, PutAll(mtu, b, ps[..n]), ps[n]);
    }
  }

  lemma PackWraps(mtu: int, ps: seq<Packet>)
    ensures Pack(mtu, WrapPs(ps)) == WrapDs(Pack(mtu, ps))
  {
    var b := Outbox([], []);
    assert WrapBox(b) == b;
    PutAllWraps(mtu, b, ps);
    EmitWraps(PutAll(mtu, b, ps));
  }

  lemma FlushWraps(e: Endpoint)
    requires EndpointInv(e)
    ensures Flush(Mod32, WrapE(e)).e == WrapE(Flush(Unbounded, e).e)
    ensures Flush(Mod32, WrapE(e)).out == WrapDs(Flush(Unbounded, e).out)
  {
    if e.clk.updated {
      FlushStateWraps(e);
      FlushPacketsWrap(e);
      PackWraps(e.cfg.mtu, FlushPackets(Unbounded, e));
    } else {
      assert WrapDs([]) == [];
    }
  }

  lemma UpdateWraps(e: Endpoint, now: int)
    requires EndpointInv(e) && 0 <= now < TWO32
    ensures Update(Mod32, WrapE(e), now).e == WrapE(Update(Unbounded, e, now).e)
    ensures Update(Mod32, WrapE(e), now).out == WrapDs(Update(Unbounded, e, now).out)
  {
    TickedWraps(e, now);
    UpdateIs(Mod32, WrapE(e), now);
    UpdateIs(Unbounded, e, now);
    TickedInv(e, now);
    hide Update, Ticked, Ticks, Flush, EndpointInv, WrapE;
    assert WrapDs([]) == [];
    FlushWraps(Ticked(e, now));
  }

  lemma TickedWraps(e: Endpoint, now: int)
    ensures Ticked(WrapE(e), now) == WrapE(Ticked(e, now))
    ensures Ticks(WrapE(e), now) == Ticks(e, now)
  {
    hide TimeDiff;
  }
}
