/** What every API call keeps of a control block, over unbounded sequence numbers. */
module Invariant {
  import opened Word32
  import opened Wire
  import opened Endpoint
  import S = Sender
  import R = Receiver
  import C = Congestion
  import T = Rtt

  /** A data packet of this conversation, apart from its numbers. */
  predicate DataPacket(cfg: Config, p: Packet) {
    && p.conv == cfg.conv && p.cmd == CMD_PUSH && 0 <= p.frg < 256 && 0 <= p.wnd < 65536
    && 0 <= p.ts < TWO32 && |p.data| <= cfg.mss
  }

  predicate ChunkOk(cfg: Config, c: S.Chunk) {
    0 <= c.frg < 256 && |c.data| <= cfg.mss
  }

  predicate QueueOk(cfg: Config, queue: seq<S.Chunk>) {
    forall i :: 0 <= i < |queue| ==> ChunkOk(cfg, queue[i])
  }

  predicate BufOk(cfg: Config, buf: seq<S.Segment>) {
    forall i :: 0 <= i < |buf| ==> DataPacket(cfg, buf[i].p)
  }

  /** The remote window is 16 bits wide, so no more than that is ever in flight. */
  function FlightLimit(cfg: Config): int {
    Min(cfg.sndWnd, 65535)
  }

  predicate SndInv(cfg: Config, s: S.Sender) {
    && S.SenderInv(s) && s.nxt - s.una <= FlightLimit(cfg)
    && QueueOk(cfg, s.queue) && BufOk(cfg, s.buf)
  }

  predicate AcksOk(acks: seq<R.Ack>) {
    forall i :: 0 <= i < |acks| ==> 0 <= acks[i].ts < TWO32
  }

  predicate RcvInv(cfg: Config, r: R.Receiver) {
    R.ReceiverInv(r, cfg.rcvWnd) && AcksOk(r.acks)
  }

  predicate RestInv(e: Endpoint) {
    && 30 <= e.rtt.rto <= T.RTO_MAX
    && 0 <= e.cong.rmtWnd < 65536 && 0 <= e.cong.cwnd && 0 <= e.cong.incr
    && 0 <= e.clk.current < TWO32 && 0 <= e.clk.tsFlush < TWO32
  }

  predicate EndpointInv(e: Endpoint) {
    ValidConfig(e.cfg) && SndInv(e.cfg, e.snd) && RcvInv(e.cfg, e.rcv) && RestInv(e)
  }

  lemma CreateInv(cfg: Config)
    requires ValidConfig(cfg)
    ensures EndpointInv(Create(cfg))
  {
  }

  // ---------------------------------------------------------------- ikcp_send

  lemma {:induction false} FragmentsOk(cfg: Config, stream: bool, data: Bytes, count: nat)
    requires cfg.mss > 0 && count <= 255
    ensures QueueOk(cfg, S.Fragments(cfg.mss, stream, data, count))
    decreases count
  {
    if count > 0 {
      FragmentsOk(cfg, stream, data[Min(cfg.mss, |data|)..], count - 1);
    }
  }

  lemma SendKeepsInv(e: Endpoint, len: int, data: Bytes)
    requires EndpointInv(e) && len <= |data|
    ensures EndpointInv(Send(e, len, data).e)
  {
    if len >= 0 {
      var ext := if e.cfg.stream then S.Extend(e.cfg.mss, e.snd.queue, data[..len])
                 else S.Extended(e.snd.queue, data[..len]);
      assert QueueOk(e.cfg, ext.queue);
      var count := S.FragmentCount(e.cfg.mss, |ext.rest|);
      if count <= 255 {
        FragmentsOk(e.cfg, e.cfg.stream, ext.rest, count);
      }
    }
  }

  // ---------------------------------------------------------------- ikcp_recv

  lemma RecvKeepsInv(e: Endpoint, len: int)
    requires EndpointInv(e)
    ensures EndpointInv(Recv(Unbounded, e, len).e)
    ensures Recv(Unbounded, e, len).e.snd == e.snd && Recv(Unbounded, e, len).e.cfg == e.cfg
  {
    var r := R.Recv(Unbounded, e.rcv, e.cfg.rcvWnd, len);
    if r.code >= 0 {
      var rest := if len < 0 then e.rcv.queue else e.rcv.queue[R.MergeCount(e.rcv.queue)..];
      var r1 := e.rcv.(queue := rest);
      R.DrainKeepsInv(r1, e.cfg.rcvWnd);
      R.DrainMoves(r1, e.cfg.rcvWnd);
    }
  }

  // ---------------------------------------------------------------- ikcp_input

  /** What the wire guarantees of a parsed packet. */
  predicate Arrived(p: Packet) {
    0 <= p.wnd < 65536 && 0 <= p.ts < TWO32
  }

  lemma PushKeepsInv(cfg: Config, r: R.Receiver, p: Packet)
    requires ValidConfig(cfg) && RcvInv(cfg, r) && Arrived(p)
    ensures RcvInv(cfg, R.InputPush(Unbounded, r, cfg.rcvWnd, p))
    ensures r.nxt <= R.InputPush(Unbounded, r, cfg.rcvWnd, p).nxt
  {
    var r1 := r.(acks := r.acks + [R.Ack(p.sn, p.ts)]);
    R.ParseDataKeepsInv(r1, cfg.rcvWnd, p);
  }

  lemma SndAfterUna(cfg: Config, s: S.Sender, una: int)
    requires SndInv(cfg, s)
    ensures SndInv(cfg, S.ParseUna(Unbounded, s, una))
    ensures s.una <= S.ParseUna(Unbounded, s, una).una && S.ParseUna(Unbounded, s, una).nxt == s.nxt
  {
    var k := S.ParseUnaKeepsInv(s, una);
  }

  lemma SndAfterAck(cfg: Config, s: S.Sender, sn: int)
    requires SndInv(cfg, s)
    ensures SndInv(cfg, S.ParseAck(Unbounded, s, sn))
    ensures s.una <= S.ParseAck(Unbounded, s, sn).una && S.ParseAck(Unbounded, s, sn).nxt == s.nxt
  {
    var k := S.ParseAckKeepsInv(s, sn);
  }

  lemma SndAfterFastAck(cfg: Config, s: S.Sender, sn: int)
    requires SndInv(cfg, s)
    ensures SndInv(cfg, S.ParseFastAck(Unbounded, s, sn))
    ensures s.una == S.ParseFastAck(Unbounded, s, sn).una
  {
    S.ParseFastAckKeepsInv(s, sn);
  }

  lemma RtoStaysBounded(e: Endpoint, age: int)
    requires ValidConfig(e.cfg)
    ensures 30 <= T.UpdateAck(e.rtt, e.cfg.interval, e.cfg.minRto, age).rto <= T.RTO_MAX
  {
  }

  /** Progress of one direction never goes back. */
  predicate Forward(e: Endpoint, f: Endpoint) {
    f.cfg == e.cfg && e.snd.una <= f.snd.una && e.snd.nxt <= f.snd.nxt && e.rcv.nxt <= f.rcv.nxt
  }

  lemma InputPacketKeepsInv(i: Inputting, p: Packet)
    requires EndpointInv(i.e) && Arrived(p)
    ensures EndpointInv(InputPacket(Unbounded, i, p).e)
    ensures Forward(i.e, InputPacket(Unbounded, i, p).e)
  {
    hide SndInv, RcvInv, S.ParseUna, S.ParseAck, R.InputPush, T.UpdateAck;
    SndAfterUna(i.e.cfg, i.e.snd, p.una);
    SndAfterAck(i.e.cfg, S.ParseUna(Unbounded, i.e.snd, p.una), p.sn);
    PushKeepsInv(i.e.cfg, i.e.rcv, p);
    RtoStaysBounded(i.e, TimeDiff(i.e.clk.current, p.ts));
  }

  lemma {:induction false} InputPacketsKeepInv(i: Inputting, ps: Datagram)
    requires EndpointInv(i.e) && forall p :: p in ps ==> Arrived(p)
    ensures EndpointInv(InputPackets(Unbounded, i, ps).e)
    ensures Forward(i.e, InputPackets(Unbounded, i, ps).e)
    decreases |ps|
  {
    if ps != [] {
      assert ps[0] in ps;
      InputPacketKeepsInv(i, ps[0]);
      InputPacketsKeepInv(InputPacket(Unbounded, i, ps[0]), ps[1..]);
    }
  }

  lemma GrowStaysNatural(c: C.Congestion, mss: int)
    requires mss > 0 && 0 <= c.cwnd && 0 <= c.incr && 0 <= c.rmtWnd < 65536
    ensures var g := C.Grow(c, mss); 0 <= g.cwnd && 0 <= g.incr && g.rmtWnd == c.rmtWnd
  {
  }

  lemma InputEndKeepsInv(una: int, i: Inputting)
    requires EndpointInv(i.e)
    ensures EndpointInv(InputEnd(Unbounded, una, i))
    ensures Forward(i.e, InputEnd(Unbounded, una, i))
  {
    if i.acks.MaxAck? { SndAfterFastAck(i.e.cfg, i.e.snd, i.acks.sn); }
    GrowStaysNatural(i.e.cong, i.e.cfg.mss);
  }

  lemma InputKeepsInv(e: Endpoint, ps: Datagram)
    requires EndpointInv(e) && forall p :: p in ps ==> Arrived(p)
    ensures EndpointInv(Input(Unbounded, e, ps))
    ensures Forward(e, Input(Unbounded, e, ps))
  {
    InputPacketsKeepInv(Inputting(e, NoAck), ps);
    InputEndKeepsInv(e.snd.una, InputPackets(Unbounded, Inputting(e, NoAck), ps));
  }

  // ---------------------------------------------------------------- ikcp_flush

  /** One turn of the admission loop. */
  function AdmitOne(s: S.Sender, t: Packet, now: int, rto: int): S.Sender
    requires s.queue != []
  {
    s.(queue := s.queue[1..], buf := s.buf + [NewSegment(t, s.queue[0], s.nxt, now, rto)], nxt := s.nxt + 1)
  }

  lemma AdmitTurn(s: S.Sender, window: int, t: Packet, now: int, rto: int)
    ensures Admit(Unbounded, s, window, t, now, rto) ==
              if s.nxt < s.una + window && s.queue != [] then
                Admit(Unbounded, AdmitOne(s, t, now, rto), window, t, now, rto)
              else s
  {
  }

  lemma SplitFurther<Y, X>(s: seq<Y>, a: seq<X>, x: X, b: seq<X>, k: int)
    requires s != [] && 0 <= k <= |s| - 1 && a + [x] <= b
    ensures s[1..][k..] == s[k + 1..] && a <= b
  {
  }

  /** Admission takes the head of the queue to the tail of the buffer, numbered in order. */
  lemma {:induction false} AdmitMoves(s: S.Sender, window: int, t: Packet, now: int, rto: int)
    ensures var a := Admit(Unbounded, s, window, t, now, rto);
            0 <= a.nxt - s.nxt <= |s.queue| && a.una == s.una
    ensures var a := Admit(Unbounded, s, window, t, now, rto);
            a.queue == s.queue[a.nxt - s.nxt..]
    ensures var a := Admit(Unbounded, s, window, t, now, rto);
            |a.buf| == |s.buf| + (a.nxt - s.nxt) && s.buf <= a.buf
    ensures var a := Admit(Unbounded, s, window, t, now, rto);
            a.nxt - a.una <= Max(s.nxt - s.una, window)
    decreases |s.queue|
  {
    hide Admit, NewSegment;
    AdmitTurn(s, window, t, now, rto);
    if s.nxt < s.una + window && s.queue != [] {
      var s1 := AdmitOne(s, t, now, rto);
      AdmitMoves(s1, window, t, now, rto);
      var a := Admit(Unbounded, s1, window, t, now, rto);
      SplitFurther(s.queue, s.buf, s1.buf[|s.buf|], a.buf, a.nxt - s1.nxt);
    } else {
      assert s.queue[0..] == s.queue;
    }
  }

  /** The segment admitted in the `i`-th place. */
  lemma {:induction false} AdmitNumbers(s: S.Sender, window: int, t: Packet, now: int, rto: int, i: nat)
    requires i < Admit(Unbounded, s, window, t, now, rto).nxt - s.nxt
    ensures |s.buf| + i < |Admit(Unbounded, s, window, t, now, rto).buf| && i < |s.queue|
    ensures Admit(Unbounded, s, window, t, now, rto).buf[|s.buf| + i] == NewSegment(t, s.queue[i], s.nxt + i, now, rto)
    decreases |s.queue|
  {
    hide Admit, NewSegment;
    AdmitTurn(s, window, t, now, rto);
    AdmitMoves(s, window, t, now, rto);
    var s1 := AdmitOne(s, t, now, rto);
    if i > 0 {
      AdmitNumbers(s1, window, t, now, rto, i - 1);
    } else {
      AdmitMoves(s1, window, t, now, rto);
    }
  }

  lemma AdmitKeepsInv(cfg: Config, s: S.Sender, window: int, t: Packet, now: int, rto: int)
    requires ValidConfig(cfg) && SndInv(cfg, s) && window <= FlightLimit(cfg)
    requires t.conv == cfg.conv && 0 <= t.wnd < 65536 && 0 <= now < TWO32
    ensures SndInv(cfg, Admit(Unbounded, s, window, t, now, rto))
  {
    var a := Admit(Unbounded, s, window, t, now, rto);
    AdmitMoves(s, window, t, now, rto);
    forall j | |s.buf| <= j < |a.buf|
      ensures a.buf[j].p.sn == s.nxt + (j - |s.buf|) && DataPacket(cfg, a.buf[j].p)
    {
      AdmitNumbers(s, window, t, now, rto, j - |s.buf|);
    }
    AdmitOrder(s, a);
  }

  lemma AdmitOrder(s: S.Sender, a: S.Sender)
    requires S.SenderInv(s) && s.buf <= a.buf && a.una == s.una && a.nxt == s.nxt + |a.buf| - |s.buf|
    requires forall j :: |s.buf| <= j < |a.buf| ==> a.buf[j].p.sn == s.nxt + (j - |s.buf|)
    ensures S.SenderInv(a)
  {
    forall j | 0 <= j < |s.buf| ensures a.buf[j] == s.buf[j] {
    }
  }

  /** The walk changes each segment on its own. */
  lemma {:induction false} WalkAt(w: Walk, buf: seq<S.Segment>, i: nat)
    requires i < |buf|
    ensures WalkAll(w, buf).buf[i] == Resend(w, buf[i])
  {
    if i < |buf| - 1 {
      WalkAt(w, buf[..|buf| - 1], i);
    }
  }

  /** Only segments in `snd_buf` are written, as they stand after the walk. */
  lemma {:induction false} SentFrom(w: Walk, buf: seq<S.Segment>, j: nat) returns (i: nat)
    requires j < |WalkAll(w, buf).sent|
    ensures i < |buf| && WalkAll(w, buf).sent[j] == Resend(w, buf[i]).p
    ensures !ActionFor(w, buf[i]).Wait?
  {
    var init := buf[..|buf| - 1];
    if j < |WalkAll(w, init).sent| {
      i := SentFrom(w, init, j);
    } else {
      i := |buf| - 1;
    }
  }

  predicate WalkOk(w: Walk) {
    0 <= w.now < TWO32 && 0 <= w.wnd < 65536
  }

  lemma WalkKeepsSnd(cfg: Config, s: S.Sender, w: Walk)
    requires SndInv(cfg, s) && WalkOk(w)
    ensures SndInv(cfg, s.(buf := WalkAll(w, s.buf).buf))
  {
    var b := WalkAll(w, s.buf).buf;
    forall i | 0 <= i < |b|
      ensures b[i].p.sn == s.buf[i].p.sn && (DataPacket(cfg, s.buf[i].p) ==> DataPacket(cfg, b[i].p))
    {
      WalkAt(w, s.buf, i);
    }
  }

  lemma CutStaysNatural(c: C.Congestion, mss: int, fast: bool, lost: bool, inflight: int, resent: int, window: int)
    requires 0 <= c.cwnd && 0 <= c.incr
    ensures var d := C.Cut(c, mss, fast, lost, inflight, resent, window);
            0 <= d.cwnd && 0 <= d.incr && d.rmtWnd == c.rmtWnd
  {
  }

  /** The control block that `ikcp_flush` works on has a window, a template and a walk in range. */
  lemma FlushInputs(e: Endpoint)
    requires EndpointInv(e)
    ensures Window(e.cfg, e.cong) <= FlightLimit(e.cfg) && WalkOk(WalkFor(e))
    ensures Template(e).conv == e.cfg.conv && 0 <= Template(e).wnd < 65536
  {
  }

  lemma AdmittedInv(e: Endpoint)
    requires EndpointInv(e)
    ensures SndInv(e.cfg, Admitted(Unbounded, e))
  {
    FlushInputs(e);
    AdmitKeepsInv(e.cfg, e.snd, Window(e.cfg, e.cong), Template(e), e.clk.current, e.rtt.rto);
  }

  lemma FlushKeepsInv(e: Endpoint)
    requires EndpointInv(e)
    ensures EndpointInv(FlushState(Unbounded, e))
    ensures Forward(e, FlushState(Unbounded, e))
  {
    hide Admit, WalkAll, C.Cut, Window, Template, R.Increasing, R.Inside, S.SenderInv;
    FlushInputs(e);
    AdmittedInv(e);
    var a := Admitted(Unbounded, e);
    WalkKeepsSnd(e.cfg, a, WalkFor(e));
    AdmitMoves(e.snd, Window(e.cfg, e.cong), Template(e), e.clk.current, e.rtt.rto);
    var w := WalkAll(WalkFor(e), a.buf);
    CutStaysNatural(e.cong, e.cfg.mss, w.fasts > 0, w.timeouts > 0, W(a.nxt - a.una),
                    C.Resent(e.cfg.fastResend), Window(e.cfg, e.cong));
  }

  /** What a flush writes is well formed: known commands of this conversation, in range,
      and no larger than the MTU. */
  predicate Writable(cfg: Config, p: Packet) {
    && p.conv == cfg.conv && KnownCommand(p.cmd) && 0 <= p.frg < 256 && 0 <= p.wnd < 65536
    && 0 <= p.ts < TWO32 && Size(p) <= cfg.mtu
  }

  lemma {:induction false} AckPacketAt(t: Packet, acks: seq<R.Ack>, i: nat)
    requires i < |acks|
    ensures |AckPackets(t, acks)| == |acks| && AckPackets(t, acks)[i] == AckPacket(t, acks[i])
  {
    var n := |acks| - 1;
    if n > 0 { AckPacketAt(t, acks[..n], if i < n then i else 0); }
  }

  lemma AckCount(t: Packet, acks: seq<R.Ack>)
    ensures |AckPackets(t, acks)| == |acks|
  {
    if acks != [] { AckPacketAt(t, acks, 0); }
  }

  /** Where each packet of a flush comes from. */
  datatype Origin = FromAck(i: nat) | FromProbe | FromData(i: nat)

  predicate CameFrom(e: Endpoint, p: Packet, o: Origin) {
    match o
    case FromAck(i) => i < |e.rcv.acks| && p == AckPacket(Template(e), e.rcv.acks[i])
    case FromProbe => p == AfterAcks(Template(e), e.rcv.acks).(cmd := p.cmd) && (p.cmd == CMD_WASK || p.cmd == CMD_WINS)
    case FromData(i) => i < |Admitted(Unbounded, e).buf| && p == Resend(WalkFor(e), Admitted(Unbounded, e).buf[i]).p
                        && !ActionFor(WalkFor(e), Admitted(Unbounded, e).buf[i]).Wait?
  }

  lemma PacketOrigin(e: Endpoint, j: nat) returns (o: Origin)
    requires j < |FlushPackets(Unbounded, e)|
    ensures CameFrom(e, FlushPackets(Unbounded, e)[j], o)
  {
    var t := Template(e);
    var a := AckPackets(t, e.rcv.acks);
    var b := ProbePackets(AfterAcks(t, e.rcv.acks), Probe(e.clk, e.cong.rmtWnd));
    AckCount(t, e.rcv.acks);
    if j < |a| {
      AckPacketAt(t, e.rcv.acks, j);
      o := FromAck(j);
    } else if j < |a| + |b| {
      o := FromProbe;
    } else {
      var i := SentFrom(WalkFor(e), Admitted(Unbounded, e).buf, j - |a| - |b|);
      o := FromData(i);
    }
  }

  lemma FlushWritable(e: Endpoint, j: nat)
    requires EndpointInv(e) && j < |FlushPackets(Unbounded, e)|
    ensures Writable(e.cfg, FlushPackets(Unbounded, e)[j])
  {
    var o := PacketOrigin(e, j);
    FlushInputs(e);
    if o.FromData? {
      AdmittedInv(e);
      assert DataPacket(e.cfg, Admitted(Unbounded, e).buf[o.i].p);
    } else if o.FromProbe? && e.rcv.acks != [] {
      assert 0 <= e.rcv.acks[|e.rcv.acks| - 1].ts < TWO32;
    }
  }

  lemma FlushOutput(e: Endpoint)
    requires EndpointInv(e)
    ensures forall p :: p in FlushPackets(Unbounded, e) ==> Writable(e.cfg, p)
  {
    var ps := FlushPackets(Unbounded, e);
    forall p | p in ps ensures Writable(e.cfg, p) {
      var j :| 0 <= j < |ps| && ps[j] == p;
      FlushWritable(e, j);
    }
  }

  lemma {:induction false} FlattenHolds(ds: seq<Datagram>, k: nat, p: Packet)
    requires k < |ds| && p in ds[k]
    ensures p in Flatten(ds)
  {
    if k < |ds| - 1 { FlattenHolds(ds[..|ds| - 1], k, p); }
  }

  /** Every datagram a flush hands out fits the MTU, and together they hold exactly the
      packets written, whole and in order. */
  lemma FlushDatagrams(e: Endpoint)
    requires EndpointInv(e) && e.clk.updated
    ensures Flatten(Flush(Unbounded, e).out) == FlushPackets(Unbounded, e)
    ensures forall d :: d in Flush(Unbounded, e).out ==> d != [] && SizeAll(d) <= e.cfg.mtu
  {
    FlushOutput(e);
    PackingIsWhole(e.cfg.mtu, FlushPackets(Unbounded, e));
  }

  lemma FlushDatagramPackets(e: Endpoint, d: Datagram, p: Packet)
    requires EndpointInv(e) && d in Flush(Unbounded, e).out && p in d
    ensures e.clk.updated && p in FlushPackets(Unbounded, e)
  {
    var out := Flush(Unbounded, e).out;
    var k :| 0 <= k < |out| && out[k] == d;
    FlushDatagrams(e);
    FlattenHolds(out, k, p);
  }

  // ---------------------------------------------------------------- ikcp_update

  /** The control block on which `ikcp_update` calls `ikcp_flush`, when it does. */
  function Ticked(e: Endpoint, now: int): Endpoint {
    var ts := Reset(if e.clk.updated then e.clk.tsFlush else now, now);
    var next := W(ts + e.cfg.interval);
    var ts' := if TimeDiff(now, ts) < 0 then ts else if TimeDiff(now, next) >= 0 then W(now + e.cfg.interval) else next;
    e.(clk := e.clk.(current := now, updated := true, tsFlush := ts'))
  }

  predicate Ticks(e: Endpoint, now: int) {
    TimeDiff(now, Reset(if e.clk.updated then e.clk.tsFlush else now, now)) >= 0
  }

  lemma UpdateIs(m: Numbering, e: Endpoint, now: int)
    ensures Update(m, e, now) == if Ticks(e, now) then Flush(m, Ticked(e, now)) else Flushed(Ticked(e, now), [])
  {
    hide Flush, TimeDiff;
  }

  lemma UpdateKeepsInv(e: Endpoint, now: int)
    requires EndpointInv(e) && 0 <= now < TWO32
    ensures EndpointInv(Update(Unbounded, e, now).e)
    ensures Forward(e, Update(Unbounded, e, now).e)
  {
    TickedInv(e, now);
    UpdateIs(Unbounded, e, now);
    hide Update, Ticked, Ticks, FlushState, EndpointInv;
    FlushKeepsInv(Ticked(e, now));
  }

  lemma TickedInv(e: Endpoint, now: int)
    requires EndpointInv(e) && 0 <= now < TWO32
    ensures EndpointInv(Ticked(e, now)) && Forward(e, Ticked(e, now))
  {
    hide SndInv, RcvInv;
  }
}
