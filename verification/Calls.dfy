/** One control block under any sequence of API calls, with any bytes arriving: what the
    32-bit state keeps. */
module Calls {
  import opened Word32
  import opened Wire
  import opened Endpoint
  import opened Invariant
  import opened Wraparound
  import E = Endpoint
  import S = Sender
  import R = Receiver
  import C = Congestion
  import T = Rtt

  datatype Call = Send(len: int, data: Bytes) | Recv(len: int) | Input(bytes: Bytes) | Update(now: int) | Flush

  predicate ValidCall(c: Call) {
    (c.Send? ==> c.len <= |c.data|) && (c.Update? ==> 0 <= c.now < TWO32)
  }

  function Apply(e: Endpoint, c: Call): Endpoint
    requires e.cfg.mss > 0 && ValidCall(c)
  {
    match c
    case Send(len, data) => E.Send(e, len, data).e
    case Recv(len) => E.Recv(Mod32, e, len).e
    case Input(bytes) => InputBytes(Mod32, e, bytes).e
    case Update(now) => E.Update(Mod32, e, now).e
    case Flush => E.Flush(Mod32, e).e
  }

  predicate ValidCalls(cs: seq<Call>) {
    forall i :: 0 <= i < |cs| ==> ValidCall(cs[i])
  }

  lemma ApplyKeepsConfig(e: Endpoint, c: Call)
    requires e.cfg.mss > 0 && ValidCall(c)
    ensures Apply(e, c).cfg == e.cfg
  {
    if c.Input? { InputKeepsConfig(Mod32, Inputting(e, NoAck), ParseAll(e.cfg.conv, c.bytes).packets); }
  }

  function RunCalls(cfg: Config, cs: seq<Call>): (e: Endpoint)
    requires ValidConfig(cfg) && ValidCalls(cs)
    ensures e.cfg == cfg
  {
    if cs == [] then Create(cfg)
    else
      var n := |cs| - 1;
      var e := RunCalls(cfg, cs[..n]);
      ApplyKeepsConfig(e, cs[n]);
      Apply(e, cs[n])
  }

  /** One more call. */
  lemma RunOneMore(cfg: Config, cs: seq<Call>, c: Call)
    requires ValidConfig(cfg) && ValidCalls(cs) && ValidCall(c)
    ensures ValidCalls(cs + [c]) && RunCalls(cfg, cs + [c]) == Apply(RunCalls(cfg, cs), c)
  {
    assert (cs + [c])[..|cs|] == cs;
  }

  // ---------------------------------------------------------------- the 32-bit invariants

  /** `snd_buf` in the order of the wrapping numbers, from `snd_una` to before `snd_nxt`. */
  predicate SenderOk(cfg: Config, s: S.Sender) {
    && |s.buf| <= TimeDiff(s.nxt, s.una) <= Min(cfg.sndWnd, 65535)
    && s.una == (if s.buf == [] then s.nxt else s.buf[0].p.sn)
    && (forall i :: 0 <= i < |s.buf| ==> TimeDiff(s.buf[i].p.sn, s.una) >= 0 && TimeDiff(s.buf[i].p.sn, s.nxt) < 0)
    && (forall i, j :: 0 <= i < j < |s.buf| ==> TimeDiff(s.buf[i].p.sn, s.buf[j].p.sn) < 0)
  }

  /** `rcv_buf` sorted, without duplicates and inside the window; both lists within `rcv_wnd`;
      and nothing left behind that could have been moved on. */
  predicate ReceiverOk(cfg: Config, r: R.Receiver) {
    && |r.buf| <= cfg.rcvWnd && |r.queue| <= cfg.rcvWnd
    && (forall i :: 0 <= i < |r.buf| ==>
        TimeDiff(r.buf[i].sn, r.nxt) >= 0 && TimeDiff(r.buf[i].sn, r.nxt + cfg.rcvWnd) < 0)
    && (forall i, j :: 0 <= i < j < |r.buf| ==> TimeDiff(r.buf[i].sn, r.buf[j].sn) < 0)
    && (r.buf != [] && r.buf[0].sn == r.nxt ==> |r.queue| == cfg.rcvWnd)
  }

  lemma SenderOkOfInv(cfg: Config, s: S.Sender)
    requires ValidConfig(cfg) && SndInv(cfg, s)
    ensures SenderOk(cfg, WrapSnd(s))
  {
    DiffOfNear(s.nxt, s.una);
    S.InFlightBound(s.buf, s.una, s.nxt);
    var c := WrapSnd(s);
    TimeDiffOfWords(c.nxt, c.una, s.nxt, s.una);
    forall i | 0 <= i < |c.buf| ensures TimeDiff(c.buf[i].p.sn, c.una) >= 0 && TimeDiff(c.buf[i].p.sn, c.nxt) < 0 {
      DiffOfNear(s.buf[i].p.sn, s.una);
      DiffOfNear(s.buf[i].p.sn, s.nxt);
    }
    forall i, j | 0 <= i < j < |c.buf| ensures TimeDiff(c.buf[i].p.sn, c.buf[j].p.sn) < 0 {
      DiffOfNear(s.buf[i].p.sn, s.buf[j].p.sn);
    }
  }

  lemma TimeDiffOfWords(c: int, d: int, a: int, b: int)
    requires c == W(a) && d == W(b) && Near(a, b)
    ensures TimeDiff(c, d) == a - b
  {
    DiffOfNear(a, b);
  }

  lemma TimeDiffOfSum(a: int, b: int, k: int)
    ensures TimeDiff(a, W(b) + k) == TimeDiff(a, W(b + k))
  {
    SameWord(a - (W(b) + k), a - W(b + k), b / TWO32 - (b + k) / TWO32);
  }

  /** Words are numbers up to multiples of 2^32. */
  lemma SameWord(x: int, y: int, q: int)
    requires x == y + TWO32 * q
    ensures W(x) == W(y)
  {
  }

  lemma InWindowOfInv(sn: int, nxt: int, wnd: int)
    requires 0 < wnd < HALF && nxt <= sn < nxt + wnd
    ensures TimeDiff(W(sn), W(nxt)) >= 0 && TimeDiff(W(sn), W(nxt) + wnd) < 0
    ensures W(sn) == W(nxt) <==> sn == nxt
  {
    hide W, TimeDiff;
    DiffOfNear(sn, nxt);
    DiffOfNear(sn, nxt + wnd);
    WordsOfNearDiffer(sn, nxt);
    TimeDiffOfSum(W(sn), nxt, wnd);
  }

  lemma ReceiverOkOfInv(cfg: Config, r: R.Receiver)
    requires ValidConfig(cfg) && RcvInv(cfg, r)
    ensures ReceiverOk(cfg, WrapRcv(r))
  {
    R.WindowBound(r.buf, r.nxt, r.nxt + cfg.rcvWnd);
    var c := WrapRcv(r);
    forall i | 0 <= i < |c.buf|
      ensures TimeDiff(c.buf[i].sn, c.nxt) >= 0 && TimeDiff(c.buf[i].sn, c.nxt + cfg.rcvWnd) < 0
    {
      InWindowOfInv(r.buf[i].sn, r.nxt, cfg.rcvWnd);
    }
    if r.buf != [] { InWindowOfInv(r.buf[0].sn, r.nxt, cfg.rcvWnd); }
    forall i, j | 0 <= i < j < |c.buf| ensures TimeDiff(c.buf[i].sn, c.buf[j].sn) < 0 {
      DiffOfNear(r.buf[i].sn, r.buf[j].sn);
    }
  }

  // ---------------------------------------------------------------- congestion accounting

  /** The settings under which the 32-bit window arithmetic cannot overflow. */
  predicate WindowFits(cfg: Config) {
    cfg.mss <= 65535 && C.CutFits(cfg.mss, cfg.fastResend, FlightLimit(cfg))
  }

  predicate CongInv(cfg: Config, c: C.Congestion)
    requires cfg.mss > 0
  {
    C.Accounted(c, cfg.mss) && 0 <= c.rmtWnd < 65536
  }

  lemma {:induction false} InputKeepsWindow(m: Numbering, i: Inputting, ps: Datagram)
    requires forall p :: p in ps ==> 0 <= p.wnd < 65536
    requires i.e.cfg.mss > 0 && CongInv(i.e.cfg, i.e.cong)
    ensures var j := InputPackets(m, i, ps); j.e.cfg == i.e.cfg && CongInv(i.e.cfg, j.e.cong)
    decreases |ps|
  {
    if ps != [] {
      assert ps[0] in ps;
      InputKeepsWindow(m, InputPacket(m, i, ps[0]), ps[1..]);
    }
  }

  lemma InputKeepsAccount(e: Endpoint, bytes: Bytes)
    requires e.cfg.mss > 0 && WindowFits(e.cfg) && CongInv(e.cfg, e.cong)
    ensures CongInv(e.cfg, InputBytes(Mod32, e, bytes).e.cong)
  {
    if |bytes| >= OVERHEAD {
      var parse := ParseAll(e.cfg.conv, bytes);
      InputKeepsWindow(Mod32, Inputting(e, NoAck), parse.packets);
      var i := InputPackets(Mod32, Inputting(e, NoAck), parse.packets);
      C.GrowKeepsAccount(i.e.cong, e.cfg.mss);
    }
  }

  lemma FlushKeepsAccount(u: Endpoint)
    requires EndpointInv(u) && WindowFits(u.cfg) && CongInv(u.cfg, u.cong)
    ensures CongInv(u.cfg, E.Flush(Unbounded, u).e.cong)
  {
    hide Admit, WalkAll, C.Cut, C.CutFits, C.Accounted, Window;
    AdmittedInv(u);
    var a := Admitted(Unbounded, u);
    var w := WalkAll(WalkFor(u), a.buf);
    assert W(a.nxt - a.una) == a.nxt - a.una;
    C.CutKeepsAccount(u.cong, u.cfg.mss, w.fasts > 0, w.timeouts > 0, a.nxt - a.una, u.cfg.fastResend,
                      Window(u.cfg, u.cong), FlightLimit(u.cfg));
  }

  lemma UpdateKeepsAccount(u: Endpoint, now: int)
    requires EndpointInv(u) && WindowFits(u.cfg) && CongInv(u.cfg, u.cong) && 0 <= now < TWO32
    ensures CongInv(u.cfg, E.Update(Unbounded, u, now).e.cong)
  {
    assert EndpointInv(Ticked(u, now));
    UpdateIs(Unbounded, u, now);
    if Ticks(u, now) { FlushKeepsAccount(Ticked(u, now)); }
  }

  // ---------------------------------------------------------------- runs of calls

  /** `u` is the unbounded state behind the 32-bit state `e`. */
  predicate Behind(u: Endpoint, e: Endpoint) {
    EndpointInv(u) && e == WrapE(u)
  }

  /** Every call has an unbounded reading, which keeps the invariant and never goes back. */
  lemma CallStep(u: Endpoint, c: Call) returns (v: Endpoint)
    requires EndpointInv(u) && ValidCall(c)
    ensures Behind(v, Apply(WrapE(u), c)) && Forward(u, v)
    ensures v.snd.una <= u.snd.nxt
  {
    match c
    case Send(len, data) =>
      SendKeepsInv(u, len, data);
      v := E.Send(u, len, data).e;
    case Recv(len) =>
      RecvStep(u, len);
      v := E.Recv(Unbounded, u, len).e;
    case Input(bytes) =>
      v := AnyBytes(u, bytes);
    case Update(now) =>
      UpdateStep(u, now);
      v := E.Update(Unbounded, u, now).e;
    case Flush =>
      FlushStep(u);
      v := E.Flush(Unbounded, u).e;
  }

  lemma RecvStep(u: Endpoint, len: int)
    requires EndpointInv(u)
    ensures var v := E.Recv(Unbounded, u, len).e;
            EndpointInv(v) && E.Recv(Mod32, WrapE(u), len).e == WrapE(v) && Forward(u, v) && v.snd == u.snd
  {
    RecvKeepsInv(u, len);
    RecvForward(u, len);
    RecvWraps(u.rcv, u.cfg.rcvWnd, len);
    hide R.Recv, EndpointInv;
  }

  lemma UpdateStep(u: Endpoint, now: int)
    requires EndpointInv(u) && 0 <= now < TWO32
    ensures var v := E.Update(Unbounded, u, now).e;
            EndpointInv(v) && E.Update(Mod32, WrapE(u), now).e == WrapE(v) && Forward(u, v) && v.snd.una == u.snd.una
  {
    hide E.Update, EndpointInv, WrapE;
    UpdateKeepsInv(u, now);
    UpdateWraps(u, now);
    UpdateKeepsUna(u, now);
  }

  lemma FlushStep(u: Endpoint)
    requires EndpointInv(u)
    ensures var v := E.Flush(Unbounded, u).e;
            EndpointInv(v) && E.Flush(Mod32, WrapE(u)).e == WrapE(v) && Forward(u, v) && v.snd.una == u.snd.una
  {
    hide FlushState, EndpointInv, WrapE;
    if u.clk.updated { FlushKeepsInv(u); }
    FlushWraps(u);
    FlushKeepsUna(u);
  }

  lemma RecvForward(u: Endpoint, len: int)
    ensures u.rcv.nxt <= E.Recv(Unbounded, u, len).e.rcv.nxt
  {
    var rest := if len < 0 then u.rcv.queue else u.rcv.queue[R.MergeCount(u.rcv.queue)..];
    R.DrainMoves(u.rcv.(queue := rest), u.cfg.rcvWnd);
  }

  lemma FlushKeepsUna(u: Endpoint)
    ensures E.Flush(Unbounded, u).e.snd.una == u.snd.una
  {
    AdmitMoves(u.snd, Window(u.cfg, u.cong), Template(u), u.clk.current, u.rtt.rto);
  }

  lemma UpdateKeepsUna(u: Endpoint, now: int)
    ensures E.Update(Unbounded, u, now).e.snd.una == u.snd.una
  {
    UpdateIs(Unbounded, u, now);
    FlushKeepsUna(Ticked(u, now));
  }

  lemma {:induction false} CallsRun(cfg: Config, cs: seq<Call>) returns (u: Endpoint)
    requires ValidConfig(cfg) && ValidCalls(cs)
    ensures Behind(u, RunCalls(cfg, cs)) && u.cfg == cfg
  {
    if cs == [] {
      u := Create(cfg);
      CreateInv(cfg);
      assert WrapSegs([]) == [] && WrapPs([]) == [] && WrapAcks([]) == [];
    } else {
      var v := CallsRun(cfg, cs[..|cs| - 1]);
      u := CallStep(v, cs[|cs| - 1]);
    }
  }

  /** After any calls, whatever bytes arrived: the sender's and the receiver's lists are in
      order and within their windows, and the retransmission timeout is in bounds. */
  lemma StateStaysOk(cfg: Config, cs: seq<Call>)
    requires ValidConfig(cfg) && ValidCalls(cs)
    ensures var e := RunCalls(cfg, cs);
            SenderOk(cfg, e.snd) && ReceiverOk(cfg, e.rcv) && 30 <= e.rtt.rto <= T.RTO_MAX
  {
    var u := CallsRun(cfg, cs);
    SenderOkOfInv(cfg, u.snd);
    ReceiverOkOfInv(cfg, u.rcv);
  }

  /** No call, whatever it is given, moves `snd_una` backwards, or past what was `snd_nxt`. */
  lemma NothingGoesBack(cfg: Config, cs: seq<Call>, c: Call)
    requires ValidConfig(cfg) && ValidCalls(cs) && ValidCall(c)
    ensures var e := RunCalls(cfg, cs);
            var f := Apply(e, c);
            0 <= TimeDiff(f.snd.una, e.snd.una) <= TimeDiff(e.snd.nxt, e.snd.una)
  {
    var u := CallsRun(cfg, cs);
    var v := CallStep(u, c);
    DiffOfNear(v.snd.una, u.snd.una);
    DiffOfNear(u.snd.nxt, u.snd.una);
  }

  /** One call under the accounting invariant. */
  lemma CallKeepsAccount(u: Endpoint, c: Call)
    requires EndpointInv(u) && ValidCall(c) && WindowFits(u.cfg) && CongInv(u.cfg, u.cong)
    ensures CongInv(u.cfg, Apply(WrapE(u), c).cong)
  {
    hide FlushState, E.Update, InputBytes, C.Accounted;
    match c
    case Send(len, data) =>
    case Recv(len) =>
    case Input(bytes) => InputKeepsAccount(WrapE(u), bytes);
    case Update(now) => UpdateWraps(u, now); UpdateKeepsAccount(u, now);
    case Flush => FlushWraps(u); if u.clk.updated { FlushKeepsAccount(u); }
  }

  /** Congestion accounting over every run: `ssthresh` is at least 2 and `cwnd` is exactly
      `incr / mss`, for every MTU up to 65559 and windows whose cut fits a word. */
  lemma {:induction false} WindowStaysAccounted(cfg: Config, cs: seq<Call>)
    requires ValidConfig(cfg) && ValidCalls(cs) && WindowFits(cfg)
    ensures var c := RunCalls(cfg, cs).cong; c.ssthresh >= 2 && c.cwnd == c.incr / cfg.mss
    ensures CongInv(cfg, RunCalls(cfg, cs).cong)
  {
    if cs != [] {
      var n := |cs| - 1;
      WindowStaysAccounted(cfg, cs[..n]);
      var u := CallsRun(cfg, cs[..n]);
      CallKeepsAccount(u, cs[n]);
    } else {
      C.QuotientIs(0, cfg.mss, 0);
    }
  }
}
