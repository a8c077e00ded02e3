/** Why the theorems on 32-bit numbers bound the age of a packet: a receiver that has been sent
    2^32 packets takes the very first of them, delivered again, for the next one. */
module StaleRun {
  import opened Word32
  import opened Wire
  import opened Endpoint
  import opened Calls
  import E = Endpoint
  import S = Sender
  import R = Receiver

  /** The packet that carries the one-segment message `data` under number `n`. */
  function Push(conv: int, n: nat, data: Bytes): Packet {
    Packet(conv, CMD_PUSH, 0, 0, 0, W(n), 0, data)
  }

  lemma PushSendable(cfg: Config, n: nat, data: Bytes)
    requires ValidConfig(cfg) && |data| < TWO32
    ensures Sendable(cfg.conv, Push(cfg.conv, n, data))
  {
  }

  /** The first message is `first`, every later one `other`. */
  function Message(first: Bytes, other: Bytes, n: nat): Bytes {
    if n == 0 then first else other
  }

  /** A packet arrives and its message is read. */
  function Round(conv: int, n: nat, data: Bytes): seq<Call> {
    [Input(EncodeAll([Push(conv, n, data)])), Recv(|data|)]
  }

  /** The first `n` packets arrive, once each and in order. */
  function Rounds(conv: int, first: Bytes, other: Bytes, n: nat): seq<Call> {
    if n == 0 then [] else Rounds(conv, first, other, n - 1) + Round(conv, n - 1, Message(first, other, n - 1))
  }

  /** The control block has read everything up to number `n`, and has sent nothing. */
  predicate ReadUpTo(e: Endpoint, n: nat) {
    && ValidConfig(e.cfg) && e.snd == S.Sender([], [], 0, 0)
    && e.rcv.buf == [] && e.rcv.queue == [] && e.rcv.nxt == W(n)
  }

  /** A packet under the next number is queued, whatever its true age. */
  lemma PacketIsNext(e: Endpoint, n: nat, p: Packet)
    requires ReadUpTo(e, n) && p.cmd == CMD_PUSH && p.frg == 0 && p.sn == W(n) && p.una == 0
    ensures var i := InputPacket(Mod32, Inputting(e, NoAck), p);
            && i.acks.NoAck? && i.e.cfg == e.cfg && i.e.snd == e.snd
            && i.e.rcv.buf == [] && i.e.rcv.queue == [p] && i.e.rcv.nxt == W(n + 1)
  {
    NextIsInWindow(n, e.cfg.rcvWnd);
    var r := e.rcv.(acks := e.rcv.acks + [R.Ack(p.sn, p.ts)]);
    assert R.Insert(Mod32, [], p) == [p] && [p][1..] == [] && [] + [p] == [p];
    var q := r.(queue := [p], nxt := Plus(Mod32, r.nxt, 1));
    assert R.Drain(Mod32, r.(buf := [p]), e.cfg.rcvWnd) == R.Drain(Mod32, q, e.cfg.rcvWnd) == q;
  }

  lemma NextIsInWindow(n: nat, wnd: int)
    requires 0 < wnd < HALF
    ensures TimeDiff(W(n), W(W(n) + wnd)) < 0 && TimeDiff(W(n), W(n)) == 0 && W(W(n) + 1) == W(n + 1)
  {
  }

  lemma InputIs(e: Endpoint, n: nat, p: Packet)
    requires ReadUpTo(e, n) && p.cmd == CMD_PUSH && p.frg == 0 && p.sn == W(n) && p.una == 0
    requires Sendable(e.cfg.conv, p)
    ensures var f := Apply(e, Input(EncodeAll([p])));
            && f.cfg == e.cfg && f.snd == e.snd
            && f.rcv.buf == [] && f.rcv.queue == [p] && f.rcv.nxt == W(n + 1)
  {
    ParsesOne(e.cfg.conv, p);
    PacketIsNext(e, n, p);
    hide EncodeAll, ParseAll, InputPacket;
    assert [p][1..] == [];
    assert InputPackets(Mod32, Inputting(e, NoAck), [p]) == InputPacket(Mod32, Inputting(e, NoAck), p);
    assert TimeDiff(0, 0) == 0;
  }

  lemma ParsesOne(conv: int, p: Packet)
    requires Sendable(conv, p)
    ensures |EncodeAll([p])| >= OVERHEAD && ParseAll(conv, EncodeAll([p])) == Parse(0, [p])
  {
    ParseOfEncode(conv, [p]);
    EncodedSize([p]);
    OneSize(p);
  }

  lemma OneSize(p: Packet)
    ensures SizeAll([p]) == OVERHEAD + |p.data|
  {
    assert [p][..0] == [];
  }

  /** A queued one-segment message is read whole. */
  lemma RecvIs(e: Endpoint, p: Packet, len: int)
    requires e.rcv.buf == [] && e.rcv.queue == [p] && p.frg == 0 && len >= |p.data|
    ensures var r := E.Recv(Mod32, e, len);
            && r.code == |p.data| && r.data == p.data
            && r.e.cfg == e.cfg && r.e.snd == e.snd && r.e.rcv == e.rcv.(queue := [])
  {
    assert [p][1..] == [];
  }

  lemma RoundReads(e: Endpoint, n: nat, data: Bytes)
    requires ReadUpTo(e, n) && |data| < TWO32
    ensures var f := Apply(e, Input(EncodeAll([Push(e.cfg.conv, n, data)])));
            f.cfg == e.cfg && ReadUpTo(Apply(f, Recv(|data|)), n + 1)
  {
    var p := Push(e.cfg.conv, n, data);
    InputIs(e, n, p);
    RecvIs(Apply(e, Input(EncodeAll([p]))), p, |data|);
  }

  lemma {:induction false} RoundsRead(cfg: Config, first: Bytes, other: Bytes, n: nat)
    requires ValidConfig(cfg) && |first| < TWO32 && |other| < TWO32
    ensures ValidCalls(Rounds(cfg.conv, first, other, n))
    ensures ReadUpTo(RunCalls(cfg, Rounds(cfg.conv, first, other, n)), n)
  {
    hide Apply, EncodeAll, ValidConfig;
    if n == 0 {
    } else {
      hide RunCalls, ReadUpTo, ValidCalls;
      RoundsRead(cfg, first, other, n - 1);
      var cs := Rounds(cfg.conv, first, other, n - 1);
      var data := Message(first, other, n - 1);
      RoundReads(RunCalls(cfg, cs), n - 1, data);
      var arrive := Input(EncodeAll([Push(cfg.conv, n - 1, data)]));
      RunOneMore(cfg, cs, arrive);
      RunOneMore(cfg, cs + [arrive], Recv(|data|));
      assert cs + [arrive] + [Recv(|data|)] == Rounds(cfg.conv, first, other, n);
    }
  }

  /** After 2^32 packets, each delivered once and read, the first datagram is delivered again,
      and the application is given its message a second time. With numbers that do not wrap, a
      receiver that far on drops the packet. */
  lemma StalePacketFoolsReceiver(cfg: Config, first: Bytes, other: Bytes)
    requires ValidConfig(cfg) && |first| < TWO32 && |other| < TWO32
    ensures var stale := Input(EncodeAll([Push(cfg.conv, 0, first)]));
            var cs := Rounds(cfg.conv, first, other, TWO32);
            && ValidCalls(cs + [stale])
            && E.Recv(Mod32, RunCalls(cfg, cs + [stale]), |first|).data == first
            && E.Recv(Mod32, RunCalls(cfg, cs + [stale]), |first|).code == |first|
    ensures var r := R.Receiver([], [], TWO32, []);
            R.ParseData(Unbounded, r, cfg.rcvWnd, Push(cfg.conv, 0, first)) == r
  {
    hide Rounds, Apply, EncodeAll, RunCalls, ValidCalls, E.Recv, ReadUpTo, ValidConfig;
    var cs := Rounds(cfg.conv, first, other, TWO32);
    var p := Push(cfg.conv, 0, first);
    RoundsRead(cfg, first, other, TWO32);
    RunOneMore(cfg, cs, Input(EncodeAll([p])));
    PushSendable(cfg, 0, first);
    assert W(0) == W(TWO32);
    InputIs(RunCalls(cfg, cs), TWO32, p);
    RecvIs(RunCalls(cfg, cs + [Input(EncodeAll([p]))]), p, |first|);
  }
}
