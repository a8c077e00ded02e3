/** The zero-window probe: while the peer has announced no room, its window is asked for at
    growing intervals, and the answer makes its free window known again. */
module Probing {
  import opened Word32
  import opened Wire
  import opened Endpoint
  import opened Invariant
  import opened Calls
  import Wrap = Wraparound
  import E = Endpoint
  import C = Congestion
  import R = Receiver
  import S = Sender
  import T = Rtt

  /** Some datagram holds a packet of this command. */
  predicate Carries(out: seq<Datagram>, cmd: int) {
    exists k :: 0 <= k < |out| && Has(out[k], cmd)
  }

  predicate Has(ps: seq<Packet>, cmd: int) {
    exists j :: 0 <= j < |ps| && ps[j].cmd == cmd
  }

  lemma HasTwo(a: seq<Packet>, b: seq<Packet>, cmd: int)
    ensures Has(a + b, cmd) <==> Has(a, cmd) || Has(b, cmd)
  {
    var c := a + b;
    if j :| 0 <= j < |a| && a[j].cmd == cmd { assert c[j].cmd == cmd; }
    if j :| 0 <= j < |b| && b[j].cmd == cmd { assert c[|a| + j].cmd == cmd; }
  }

  lemma {:induction false} FlattenHas(ds: seq<Datagram>, cmd: int)
    ensures Has(Flatten(ds), cmd) <==> Carries(ds, cmd)
  {
    if ds == [] {
    } else {
      var n := |ds| - 1;
      FlattenHas(ds[..n], cmd);
      HasTwo(Flatten(ds[..n]), ds[n], cmd);
      if Carries(ds[..n], cmd) {
        var k :| 0 <= k < n && Has(ds[..n][k], cmd);
        assert Has(ds[k], cmd);
      }
      if Carries(ds, cmd) {
        var k :| 0 <= k <= n && Has(ds[k], cmd);
        if k < n { assert Has(ds[..n][k], cmd); }
      }
    }
  }

  lemma WrapHas(ps: seq<Packet>, cmd: int)
    ensures Has(Wrap.WrapPs(ps), cmd) <==> Has(ps, cmd)
  {
    var ws := Wrap.WrapPs(ps);
    if j :| 0 <= j < |ps| && ps[j].cmd == cmd { assert ws[j].cmd == cmd; }
    if j :| 0 <= j < |ws| && ws[j].cmd == cmd { assert ps[j].cmd == cmd; }
  }

  lemma WrapCarries(ds: seq<Datagram>, cmd: int)
    ensures Carries(Wrap.WrapDs(ds), cmd) <==> Carries(ds, cmd)
  {
    var ws := Wrap.WrapDs(ds);
    forall k | 0 <= k < |ds| ensures Has(ws[k], cmd) <==> Has(ds[k], cmd) { WrapHas(ds[k], cmd); }
  }

  // ---------------------------------------------------------------- when a probe is written

  lemma {:induction false} NoCommandInAcks(t: Packet, acks: seq<R.Ack>, cmd: int)
    requires t.cmd != cmd
    ensures !Has(AckPackets(t, acks), cmd)
  {
    if acks != [] {
      var n := |acks| - 1;
      NoCommandInAcks(t, acks[..n], cmd);
      HasTwo(AckPackets(t, acks[..n]), [AckPacket(t, acks[n])], cmd);
    }
  }

  lemma ProbeCommands(t: Packet, c: Clock)
    ensures Has(ProbePackets(t, c), CMD_WASK) <==> c.askSend
    ensures Has(ProbePackets(t, c), CMD_WINS) <==> c.askTell
  {
    var ps := ProbePackets(t, c);
    if c.askSend { assert ps[0].cmd == CMD_WASK; }
    if c.askTell { assert ps[|ps| - 1].cmd == CMD_WINS; }
  }

  lemma OnlyDataWalked(e: Endpoint, cmd: int)
    requires EndpointInv(e) && cmd != CMD_PUSH
    ensures !Has(WalkAll(WalkFor(e), Admitted(Unbounded, e).buf).sent, cmd)
  {
    AdmittedInv(e);
    var buf := Admitted(Unbounded, e).buf;
    var sent := WalkAll(WalkFor(e), buf).sent;
    forall j | 0 <= j < |sent| ensures sent[j].cmd != cmd {
      var i := SentFrom(WalkFor(e), buf, j);
      assert DataPacket(e.cfg, buf[i].p);
    }
  }

  /** Which probe packets a flush writes. */
  lemma FlushCommands(e: Endpoint)
    requires EndpointInv(e)
    ensures Has(FlushPackets(Unbounded, e), CMD_WASK) <==> Probe(e.clk, e.cong.rmtWnd).askSend
    ensures Has(FlushPackets(Unbounded, e), CMD_WINS) <==> e.clk.askTell
  {
    hide EndpointInv, AckPackets, ProbePackets, WalkAll, Admitted, Template, AfterAcks, WalkFor, Has;
    var t := Template(e);
    var acks := AckPackets(t, e.rcv.acks);
    var probes := ProbePackets(AfterAcks(t, e.rcv.acks), Probe(e.clk, e.cong.rmtWnd));
    var data := WalkAll(WalkFor(e), Admitted(Unbounded, e).buf).sent;
    assert t.cmd == CMD_ACK by { TemplateIsAck(e); }
    ProbeCommands(AfterAcks(t, e.rcv.acks), Probe(e.clk, e.cong.rmtWnd));
    NoCommandInAcks(t, e.rcv.acks, CMD_WASK);
    NoCommandInAcks(t, e.rcv.acks, CMD_WINS);
    OnlyDataWalked(e, CMD_WASK);
    OnlyDataWalked(e, CMD_WINS);
    HasTwo(acks, probes, CMD_WASK);
    HasTwo(acks, probes, CMD_WINS);
    HasTwo(acks + probes, data, CMD_WASK);
    HasTwo(acks + probes, data, CMD_WINS);
  }

  lemma TemplateIsAck(e: Endpoint)
    ensures Template(e).cmd == CMD_ACK
  {
  }

  /** Which probe packets the 32-bit code hands out. */
  lemma FlushCarries(u: Endpoint)
    requires EndpointInv(u) && u.clk.updated
    ensures var out := E.Flush(Mod32, Wrap.WrapE(u)).out;
            && (Carries(out, CMD_WASK) <==> Probe(u.clk, u.cong.rmtWnd).askSend)
            && (Carries(out, CMD_WINS) <==> u.clk.askTell)
  {
    hide EndpointInv, E.Flush, FlushPackets, Probe, Carries, Has, Wrap.WrapDs, Wrap.WrapE;
    Wrap.FlushWraps(u);
    var ds := E.Flush(Unbounded, u).out;
    FlushDatagrams(u);
    FlushCommands(u);
    FlattenHas(ds, CMD_WASK);
    FlattenHas(ds, CMD_WINS);
    WrapCarries(ds, CMD_WASK);
    WrapCarries(ds, CMD_WINS);
  }

  // ---------------------------------------------------------------- over every run

  /** The timer is off or set for an interval in bounds, and no question is left over. */
  predicate ProbeOk(c: Clock) {
    && !c.askSend && (c.probeWait == 0 || PROBE_INIT <= c.probeWait <= PROBE_LIMIT)
    && 0 <= c.tsProbe < TWO32
  }

  lemma {:induction false} InputKeepsProbe(m: Numbering, i: Inputting, ps: Datagram)
    ensures InputPackets(m, i, ps).e.clk == i.e.clk.(askTell := InputPackets(m, i, ps).e.clk.askTell)
    decreases |ps|
  {
    hide S.ParseUna, S.ParseAck, R.InputPush, T.UpdateAck;
    if ps != [] { InputKeepsProbe(m, InputPacket(m, i, ps[0]), ps[1..]); }
  }

  lemma InputBytesKeepsProbe(e: Endpoint, bytes: Bytes)
    requires e.cfg.mss > 0 && ProbeOk(e.clk)
    ensures ProbeOk(InputBytes(Mod32, e, bytes).e.clk)
  {
    hide InputPackets, ParseAll, S.ParseFastAck, C.Grow;
    InputKeepsProbe(Mod32, Inputting(e, NoAck), ParseAll(e.cfg.conv, bytes).packets);
  }

  lemma FlushKeepsProbe(e: Endpoint)
    requires ProbeOk(e.clk)
    ensures ProbeOk(E.Flush(Mod32, e).e.clk)
  {
    hide Admitted, WalkAll, WalkFor, FlushPackets, Pack, C.Cut;
  }

  lemma TickKeepsProbe(u: Endpoint, now: int)
    requires ProbeOk(u.clk)
    ensures ProbeOk(Ticked(u, now).clk) && Ticked(u, now).clk.updated
    ensures Ticked(Wrap.WrapE(u), now) == Wrap.WrapE(Ticked(u, now))
  {
  }

  lemma ApplyKeepsProbe(e: Endpoint, c: Call)
    requires e.cfg.mss > 0 && ValidCall(c) && ProbeOk(e.clk)
    ensures ProbeOk(Apply(e, c).clk)
  {
    hide ProbeOk, InputBytes, E.Flush, E.Update, Ticked, Ticks;
    match c
    case Send(len, data) =>
    case Recv(len) => assert ProbeOk(Apply(e, c).clk) by { RecvKeepsProbe(e, len); }
    case Input(bytes) => InputBytesKeepsProbe(e, bytes);
    case Update(now) =>
      UpdateIs(Mod32, e, now);
      TickKeepsProbe(e, now);
      FlushKeepsProbe(Ticked(e, now));
    case Flush => FlushKeepsProbe(e);
  }

  lemma RecvKeepsProbe(e: Endpoint, len: int)
    requires ProbeOk(e.clk)
    ensures ProbeOk(E.Recv(Mod32, e, len).e.clk)
  {
    hide R.Recv;
  }

  /** Over every run the probe interval is 0, for off, or from 7 to 120 seconds. */
  lemma {:induction false} ProbeStaysBounded(cfg: Config, cs: seq<Call>)
    requires ValidConfig(cfg) && ValidCalls(cs)
    ensures ProbeOk(RunCalls(cfg, cs).clk)
  {
    hide Apply, ProbeOk;
    if cs == [] {
      assert ProbeOk(Create(cfg).clk) by { FirstProbe(cfg); }
    } else {
      var n := |cs| - 1;
      ProbeStaysBounded(cfg, cs[..n]);
      ApplyKeepsProbe(RunCalls(cfg, cs[..n]), cs[n]);
    }
  }

  lemma FirstProbe(cfg: Config)
    ensures ProbeOk(Create(cfg).clk)
  {
  }

  /** The peer has no room, and the time to ask has come. */
  predicate ProbeDue(e: Endpoint) {
    e.cong.rmtWnd == 0 && e.clk.probeWait != 0 && TimeDiff(e.clk.current, e.clk.tsProbe) >= 0
  }

  /** How the timer stands after a flush at the block's time. */
  predicate Rearmed(before: Clock, rmtWnd: int, due: bool, after: Clock) {
    if rmtWnd != 0 then after.probeWait == 0
    else if before.probeWait == 0 then
      after.probeWait == PROBE_INIT && after.tsProbe == W(before.current + PROBE_INIT)
    else if due then
      && after.probeWait == Min(before.probeWait + before.probeWait / 2, PROBE_LIMIT)
      && after.tsProbe == W(before.current + after.probeWait)
    else after.probeWait == before.probeWait && after.tsProbe == before.tsProbe
  }

  lemma ProbeRearms(e: Endpoint)
    requires ProbeOk(e.clk)
    ensures var p := Probe(e.clk, e.cong.rmtWnd);
            p.askSend == ProbeDue(e) && Rearmed(e.clk, e.cong.rmtWnd, ProbeDue(e), p)
  {
  }

  lemma FlushProbes(u: Endpoint)
    requires EndpointInv(u) && u.clk.updated && ProbeOk(u.clk)
    ensures var e := Wrap.WrapE(u); var f := E.Flush(Mod32, e);
            && (Carries(f.out, CMD_WASK) <==> ProbeDue(e))
            && Rearmed(e.clk, e.cong.rmtWnd, ProbeDue(e), f.e.clk)
  {
    hide EndpointInv, Carries, Admitted, WalkAll, Pack, FlushPackets, WalkFor;
    FlushCarries(u);
    ProbeRearms(u);
    hide Probe;
  }

  /** After any calls, whatever bytes arrived: an update that flushes asks for the peer's window
      exactly when the peer has announced none and the time to ask has come; it then waits half
      as long again, up to the limit, and otherwise leaves a running timer alone. */
  lemma ProbeSentIff(cfg: Config, cs: seq<Call>, now: int)
    requires ValidConfig(cfg) && ValidCalls(cs) && 0 <= now < TWO32 && Ticks(RunCalls(cfg, cs), now)
    ensures var e := Ticked(RunCalls(cfg, cs), now); var f := E.Update(Mod32, RunCalls(cfg, cs), now);
            && (Carries(f.out, CMD_WASK) <==> ProbeDue(e))
            && Rearmed(e.clk, e.cong.rmtWnd, ProbeDue(e), f.e.clk)
  {
    hide EndpointInv, ProbeOk, E.Flush, Carries, ProbeDue, Rearmed, E.Update, RunCalls, Wrap.WrapSnd, Wrap.WrapRcv;
    var u := CallsRun(cfg, cs);
    ProbeStaysBounded(cfg, cs);
    UpdateIs(Mod32, RunCalls(cfg, cs), now);
    TickedInv(u, now);
    TickKeepsProbe(u, now);
    FlushProbes(Ticked(u, now));
  }

  // ---------------------------------------------------------------- the answer

  /** The free window, in the 16 bits of its field. */
  function FreeWindow(r: R.Receiver, wnd: int): int {
    (if |r.queue| < wnd then wnd - |r.queue| else 0) % 65536
  }

  /** Every packet of a flush announces the free window. */
  lemma AllAnnounce(e: Endpoint, j: nat)
    requires j < |FlushPackets(Unbounded, e)|
    ensures FlushPackets(Unbounded, e)[j].wnd == FreeWindow(e.rcv, e.cfg.rcvWnd)
  {
    hide FlushPackets, Admitted;
    var o := PacketOrigin(e, j);
  }

  lemma DatagramsAnnounce(u: Endpoint, d: Datagram)
    requires EndpointInv(u) && d in E.Flush(Mod32, Wrap.WrapE(u)).out
    ensures d != [] && forall q :: q in d ==> q.wnd == FreeWindow(u.rcv, u.cfg.rcvWnd)
  {
    hide EndpointInv, E.Flush, FlushPackets, Wrap.WrapE, FreeWindow;
    Wrap.FlushWraps(u);
    var ds := E.Flush(Unbounded, u).out;
    var ws := Wrap.WrapDs(ds);
    var k :| 0 <= k < |ws| && ws[k] == d;
    assert ds[k] in ds;
    FlushIsUpdated(u, ds[k]);
    FlushDatagrams(u);
    forall q | q in d ensures q.wnd == FreeWindow(u.rcv, u.cfg.rcvWnd) {
      var j :| 0 <= j < |d| && d[j] == q;
      FlushDatagramPackets(u, ds[k], ds[k][j]);
      var i :| 0 <= i < |FlushPackets(Unbounded, u)| && FlushPackets(Unbounded, u)[i] == ds[k][j];
      AllAnnounce(u, i);
    }
  }

  lemma FlushIsUpdated(u: Endpoint, d: Datagram)
    requires d in E.Flush(Unbounded, u).out
    ensures u.clk.updated
  {
  }

  /** The window the sender knows is the one in the packet that came last. */
  lemma {:induction false} LastAnnounced(m: Numbering, i: Inputting, ps: Datagram)
    requires ps != []
    ensures InputPackets(m, i, ps).e.cong.rmtWnd == ps[|ps| - 1].wnd
    decreases |ps|
  {
    if |ps| > 1 { LastAnnounced(m, InputPacket(m, i, ps[0]), ps[1..]); } else { assert ps[1..] == []; }
  }

  lemma InputLearnsWindow(m: Numbering, e: Endpoint, ps: Datagram)
    requires ps != [] && e.cfg.mss > 0
    ensures E.Input(m, e, ps).cong.rmtWnd == ps[|ps| - 1].wnd
  {
    hide InputPackets, S.ParseFastAck;
    InputKeepsConfig(m, Inputting(e, NoAck), ps);
    LastAnnounced(m, Inputting(e, NoAck), ps);
  }

  lemma AskedToTell(e: Endpoint, p: Packet)
    requires e.cfg.mss > 0 && Sendable(e.cfg.conv, p) && p.cmd == CMD_WASK
    ensures InputBytes(Mod32, e, EncodeAll([p])).e.clk == e.clk.(askTell := true)
  {
    hide S.ParseUna, S.ParseFastAck, C.Grow, EncodeAll, ParseAll;
    ParseOfEncode(e.cfg.conv, [p]);
    OneIsLong(p);
    assert [p][1..] == [];
    assert InputPackets(Mod32, Inputting(e, NoAck), [p]) == InputPacket(Mod32, Inputting(e, NoAck), p);
  }

  lemma OneIsLong(p: Packet)
    ensures |EncodeAll([p])| >= OVERHEAD
  {
    assert [p][..0] == [];
  }

  /** After any calls: a flush that follows the arrival of a probe answers it, and whatever arrives
      of that flush, at whichever end, makes the free window known there, in 16 bits. */
  lemma WindowComesBack(cfg: Config, cs: seq<Call>, p: Packet, peer: Endpoint, d: Datagram)
    requires ValidConfig(cfg) && ValidCalls(cs) && RunCalls(cfg, cs).clk.updated
    requires Sendable(cfg.conv, p) && p.cmd == CMD_WASK && peer.cfg.mss > 0
    ensures var c := Calls.Input(EncodeAll([p]));
            ValidCalls(cs + [c]) && Carries(E.Flush(Mod32, RunCalls(cfg, cs + [c])).out, CMD_WINS)
    ensures var e := RunCalls(cfg, cs + [Calls.Input(EncodeAll([p]))]);
            d in E.Flush(Mod32, e).out ==>
              E.Input(Mod32, peer, d).cong.rmtWnd == FreeWindow(e.rcv, cfg.rcvWnd)
  {
    hide EndpointInv, E.Flush, E.Input, RunCalls, InputBytes, Carries, Wrap.WrapSnd, EncodeAll, FreeWindow;
    var c := Calls.Input(EncodeAll([p]));
    RunOneMore(cfg, cs, c);
    AskedToTell(RunCalls(cfg, cs), p);
    var u := CallsRun(cfg, cs + [c]);
    FlushCarries(u);
    assert FreeWindow(Wrap.WrapRcv(u.rcv), cfg.rcvWnd) == FreeWindow(u.rcv, cfg.rcvWnd) by {
      SameRoom(u.rcv, cfg.rcvWnd);
    }
    if d in E.Flush(Mod32, Wrap.WrapE(u)).out {
      DatagramsAnnounce(u, d);
      InputLearnsWindow(Mod32, peer, d);
    }
  }

  lemma SameRoom(r: R.Receiver, wnd: int)
    ensures FreeWindow(Wrap.WrapRcv(r), wnd) == FreeWindow(r, wnd)
  {
  }

  // ---------------------------------------------------------------- a window that opens again

  /** A receive asks for the window to be told exactly when it has made room in a full queue. */
  lemma RecvAsks(e: Endpoint, len: int)
    ensures var f := E.Recv(Mod32, e, len).e;
            f.clk.askTell <==> e.clk.askTell || (|e.rcv.queue| >= e.cfg.rcvWnd && |f.rcv.queue| < e.cfg.rcvWnd)
    ensures var f := E.Recv(Mod32, e, len).e; f.clk == e.clk.(askTell := f.clk.askTell)
  {
    hide R.Drain, R.MergeData, R.PeekSize;
  }

  /** After any calls: when the application reads from a full queue, the next flush tells the peer
      about the window that has opened, unasked; after any other receive it does so only if the
      peer has asked. */
  lemma OpenedIsTold(cfg: Config, cs: seq<Call>, len: int)
    requires ValidConfig(cfg) && ValidCalls(cs) && RunCalls(cfg, cs).clk.updated
    ensures var c := Calls.Recv(len);
            && ValidCalls(cs + [c])
            && var e := RunCalls(cfg, cs); var f := RunCalls(cfg, cs + [c]);
               (Carries(E.Flush(Mod32, f).out, CMD_WINS)
                <==> e.clk.askTell || (|e.rcv.queue| >= cfg.rcvWnd && |f.rcv.queue| < cfg.rcvWnd))
  {
    hide EndpointInv, E.Flush, RunCalls, Carries, Wrap.WrapSnd, Wrap.WrapRcv, E.Recv;
    var c := Calls.Recv(len);
    RunOneMore(cfg, cs, c);
    RecvAsks(RunCalls(cfg, cs), len);
    var u := CallsRun(cfg, cs + [c]);
    FlushCarries(u);
  }

  lemma FlushClears(e: Endpoint)
    requires e.clk.updated
    ensures var f := E.Flush(Mod32, e).e; !f.clk.askTell && !f.clk.askSend && f.clk.updated
  {
    hide Admitted, WalkAll, WalkFor, FlushPackets, Pack, C.Cut;
  }

  /** After any calls: a flush has answered all that was asked, so that one right after it tells
      nothing again. */
  lemma ToldOnce(cfg: Config, cs: seq<Call>)
    requires ValidConfig(cfg) && ValidCalls(cs) && RunCalls(cfg, cs).clk.updated
    ensures ValidCalls(cs + [Calls.Flush])
    ensures !Carries(E.Flush(Mod32, RunCalls(cfg, cs + [Calls.Flush])).out, CMD_WINS)
  {
    hide EndpointInv, E.Flush, RunCalls, Carries, Wrap.WrapSnd, Wrap.WrapRcv;
    RunOneMore(cfg, cs, Calls.Flush);
    FlushClears(RunCalls(cfg, cs));
    var u := CallsRun(cfg, cs + [Calls.Flush]);
    FlushCarries(u);
  }
}
