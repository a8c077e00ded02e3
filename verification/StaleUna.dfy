/** Why the bound on the age of a packet is half the number space: an `una` that is one number
    older than that acknowledges what was never received. */
module StaleUna {
  import opened Word32
  import opened Wire
  import opened Endpoint
  import opened Calls
  import opened Invariant
  import opened Wraparound
  import Schedule
  import E = Endpoint
  import S = Sender

  /** An `una` of any age below 2^32 is harmless with numbers that do not wrap; the 32-bit code
      drops a segment because of it exactly when it is more than 2^31 numbers old. */
  lemma StaleUnaIff(cfg: Config, s: S.Sender, age: int)
    requires SndInv(cfg, s) && s.buf != [] && 0 <= age < TWO32
    ensures S.DropBelow(Unbounded, s.buf, s.una - age) == s.buf
    ensures S.DropBelow(Mod32, WrapSegs(s.buf), W(s.una - age)) != WrapSegs(s.buf) <==> age > HALF
  {
    var buf := WrapSegs(s.buf);
    AgeOfWords(s.una, age);
    assert buf[0].p.sn == W(s.una);
    hide W, TimeDiff;
    DropsIff(buf, W(s.una - age));
  }

  lemma AgeOfWords(una: int, age: int)
    requires 0 <= age < TWO32
    ensures TimeDiff(W(una - age), W(una)) > 0 <==> age > HALF
  {
    hide W, TimeDiff;
    if age > HALF {
      WrapsOnce(una - age);
      DiffOfNear(una - age + TWO32, una);
    } else {
      DiffOfNear(una - age, una);
    }
  }

  lemma WrapsOnce(x: int)
    ensures W(x + TWO32) == W(x)
  {
  }

  lemma DropsIff(buf: seq<S.Segment>, una: int)
    requires buf != []
    ensures S.DropBelow(Mod32, buf, una) != buf <==> TimeDiff(una, buf[0].p.sn) > 0
  {
    if TimeDiff(una, buf[0].p.sn) > 0 { DropsSome(buf[1..], una); }
  }

  lemma {:induction false} DropsSome(buf: seq<S.Segment>, una: int)
    ensures |S.DropBelow(Mod32, buf, una)| <= |buf|
  {
    if buf != [] { DropsSome(buf[1..], una); }
  }

  // ---------------------------------------------------------------- a run

  /** A packet that only says what was received: everything below `n`. */
  function Received(conv: int, n: nat): Packet {
    Packet(conv, CMD_WINS, 0, 1, 0, 0, W(n), [])
  }

  /** One byte is sent. */
  function SendByte(x: Byte): seq<Call> {
    [Calls.Send(1, [x]), Calls.Flush]
  }

  function Hear(conv: int, n: nat): (c: Call)
    ensures c.Input?
  {
    Calls.Input(EncodeAll([Received(conv, n)]))
  }

  /** `n` bytes are sent, each acknowledged before the next. */
  function Exchanges(conv: int, x: Byte, n: nat): seq<Call> {
    if n == 0 then [Calls.Update(0)] else Exchanges(conv, x, n - 1) + SendByte(x) + [Hear(conv, n)]
  }

  /** Nothing waits, `n` segments have been sent, and there is room for one more. */
  predicate Idle(e: Endpoint, n: nat) {
    && ValidConfig(e.cfg) && e.clk.updated && e.snd == S.Sender([], [], W(n), W(n))
    && e.cong.cwnd >= 1 && 1 <= e.cong.rmtWnd < 65536
  }

  /** Segment `n` is on its way, with this byte. */
  predicate Busy(e: Endpoint, n: nat, x: Byte) {
    && ValidConfig(e.cfg) && e.clk.updated
    && |e.snd.buf| == 1 && e.snd.buf[0].p.sn == W(n) && e.snd.buf[0].p.data == [x]
    && e.snd == S.Sender([], e.snd.buf, W(n), W(n + 1)) && e.cong.cwnd >= 1
  }

  lemma FlushSends(e: Endpoint, n: nat, x: Byte)
    requires Idle(e.(snd := S.Sender([], [], W(n), W(n))), n) && e.snd == S.Sender([S.Chunk(0, [x])], [], W(n), W(n))
    ensures Busy(E.Flush(Mod32, e).e, n, x) && E.Flush(Mod32, e).e.cfg == e.cfg
  {
    hide Pack, FlushPackets;
    var window := Window(e.cfg, e.cong);
    var seg := NewSegment(Template(e), e.snd.queue[0], W(n), e.clk.current, e.rtt.rto);
    RoomForOne(n, window);
    assert e.snd.queue[1..] == [] && [] + [seg] == [seg];
    var s := S.Sender([], [seg], W(n), W(n + 1));
    assert Admitted(Mod32, e) == Admit(Mod32, s, window, Template(e), e.clk.current, e.rtt.rto) == s;
    FirstSend(WalkFor(e), seg);
  }

  lemma RoomForOne(n: nat, window: int)
    requires 1 <= window < HALF
    ensures TimeDiff(W(n), W(W(n) + window)) < 0 && W(W(n) + 1) == W(n + 1)
  {
    DiffOfNear(n, n + window);
    assert W(W(n) + window) == W(n + window);
  }

  lemma FirstSend(w: Walk, s: S.Segment)
    requires s.xmit == 0
    ensures var r := WalkAll(w, [s]);
            && r.fasts == 0 && r.timeouts == 0 && |r.buf| == 1
            && r.buf[0].p.sn == s.p.sn && r.buf[0].p.data == s.p.data
  {
    assert [s][..0] == [];
  }

  lemma HearPacket(e: Endpoint, n: nat, x: Byte, una: nat)
    requires Busy(e, n, x) && TimeDiff(W(una), W(n)) > 0
    ensures var i := InputPacket(Mod32, Inputting(e, NoAck), Received(e.cfg.conv, una));
            && i.acks.NoAck? && i.e.snd == S.Sender([], [], W(n + 1), W(n + 1))
            && i.e == e.(snd := i.e.snd, cong := e.cong.(rmtWnd := 1))
  {
    hide W, TimeDiff;
    assert e.snd.buf[1..] == [];
    assert S.DropBelow(Mod32, e.snd.buf, W(una)) == S.DropBelow(Mod32, [], W(una)) == [];
  }

  /** A packet that acknowledges everything, in the 32-bit comparison, empties `snd_buf`. */
  lemma HearEmpties(e: Endpoint, n: nat, x: Byte, una: nat)
    requires Busy(e, n, x) && TimeDiff(W(una), W(n)) > 0
    ensures var f := Apply(e, Hear(e.cfg.conv, una));
            f.cfg == e.cfg && f.snd == S.Sender([], [], W(n + 1), W(n + 1)) && Idle(f, n + 1)
  {
    hide EncodeAll, ParseAll, W, TimeDiff, InputPacket;
    var p := Received(e.cfg.conv, una);
    ParseOfEncode(e.cfg.conv, [p]);
    ReceivedIsLong(e.cfg.conv, una);
    HearPacket(e, n, x, una);
    assert [p][1..] == [];
    assert InputPackets(Mod32, Inputting(e, NoAck), [p]) == InputPacket(Mod32, Inputting(e, NoAck), p);
  }

  lemma ReceivedIsLong(conv: int, n: nat)
    ensures |EncodeAll([Received(conv, n)])| >= OVERHEAD
  {
    assert [Received(conv, n)][..0] == [];
  }

  lemma SendByteSends(cfg: Config, cs: seq<Call>, n: nat, x: Byte)
    requires ValidConfig(cfg) && ValidCalls(cs) && Idle(RunCalls(cfg, cs), n)
    ensures ValidCalls(cs + SendByte(x)) && Busy(RunCalls(cfg, cs + SendByte(x)), n, x)
  {
    hide RunCalls, E.Send, E.Flush, Busy;
    var send := Calls.Send(1, [x]);
    RunOneMore(cfg, cs, send);
    RunOneMore(cfg, cs + [send], Calls.Flush);
    assert cs + [send] + [Calls.Flush] == cs + SendByte(x);
    Schedule.OneQueued(RunCalls(cfg, cs), x);
    FlushSends(RunCalls(cfg, cs + [send]), n, x);
  }

  lemma FirstUpdate(cfg: Config)
    requires ValidConfig(cfg)
    ensures Idle(E.Update(Mod32, Create(cfg), 0).e, 0)
  {
    hide Pack, FlushPackets;
    var e := Create(cfg);
    assert TimeDiff(0, 0) == 0;
    UpdateIs(Mod32, e, 0);
    var t := Ticked(e, 0);
    assert Admitted(Mod32, t) == t.snd;
    assert WalkAll(WalkFor(t), []) == Walked([], [], 0, 0, false);
  }

  lemma {:induction false} ExchangesIdle(cfg: Config, x: Byte, n: nat)
    requires ValidConfig(cfg)
    ensures ValidCalls(Exchanges(cfg.conv, x, n)) && Idle(RunCalls(cfg, Exchanges(cfg.conv, x, n)), n)
  {
    hide Apply, Idle, Busy, RunCalls, Hear, ValidConfig;
    if n == 0 {
      RunOneMore(cfg, [], Calls.Update(0));
      assert [] + [Calls.Update(0)] == Exchanges(cfg.conv, x, 0);
      StartsIdle(cfg);
    } else {
      ExchangesIdle(cfg, x, n - 1);
      var cs := Exchanges(cfg.conv, x, n - 1);
      SendByteSends(cfg, cs, n - 1, x);
      RunOneMore(cfg, cs + SendByte(x), Hear(cfg.conv, n));
      OneLater(n);
      HearEmpties(RunCalls(cfg, cs + SendByte(x)), n - 1, x, n);
    }
  }

  lemma StartsIdle(cfg: Config)
    requires ValidConfig(cfg)
    ensures Idle(Apply(RunCalls(cfg, []), Calls.Update(0)), 0)
  {
    hide E.Update;
    FirstUpdate(cfg);
  }

  lemma OneLater(n: nat)
    requires n > 0
    ensures TimeDiff(W(n), W(n - 1)) > 0
  {
    DiffOfNear(n, n - 1);
  }

  /** After 2^31 + 1 bytes, each acknowledged, one more byte is on its way. Then the first packet
      the peer ever sent arrives again, which acknowledges nothing: the code takes the byte for
      received and will not send it again. */
  lemma StaleUnaLosesData(cfg: Config, x: Byte)
    requires ValidConfig(cfg)
    ensures var cs := Exchanges(cfg.conv, x, HALF + 1) + SendByte(x);
            var stale := Hear(cfg.conv, 0);
            && ValidCalls(cs) && ValidCalls(cs + [stale])
            && Busy(RunCalls(cfg, cs), HALF + 1, x)
            && RunCalls(cfg, cs + [stale]).snd.queue == [] && RunCalls(cfg, cs + [stale]).snd.buf == []
  {
    hide Apply, RunCalls, Exchanges, Hear, ValidConfig, SendByte;
    var cs := Exchanges(cfg.conv, x, HALF + 1);
    ExchangesIdle(cfg, x, HALF + 1);
    SendByteSends(cfg, cs, HALF + 1, x);
    RunOneMore(cfg, cs + SendByte(x), Hear(cfg.conv, 0));
    assert TimeDiff(W(0), W(HALF + 1)) > 0;
    HearEmpties(RunCalls(cfg, cs + SendByte(x)), HALF + 1, x, 0);
  }
}
