/** What a flush does, told by the states before and after it and by the packets it hands out:
    which segments are sent, first, again for a timeout or again because they were overtaken, when
    each is due next, and what becomes of the congestion window. */
module FlushLaws {
  import opened Word32
  import opened Wire
  import opened Endpoint
  import opened Invariant
  import opened Calls
  import opened Wraparound
  import E = Endpoint
  import C = Congestion
  import R = Receiver
  import S = Sender
  import Laws = InputLaws
  import Wake = WakeUp

  // ---------------------------------------------------------------- why a segment is sent

  predicate TimedOut(s: S.Segment, now: int) {
    s.xmit != 0 && TimeDiff(now, s.resendts) >= 0
  }

  /** How many later acks it takes; fast resend that is off takes more than there can be. */
  function FastLimit(cfg: Config): int {
    if cfg.fastResend > 0 then cfg.fastResend else 0xffff_ffff
  }

  predicate Overtaken(cfg: Config, s: S.Segment, now: int) {
    s.xmit != 0 && TimeDiff(now, s.resendts) < 0 && s.fastack >= FastLimit(cfg)
  }

  predicate Sent(cfg: Config, s: S.Segment, now: int) {
    s.xmit == 0 || TimeDiff(now, s.resendts) >= 0 || s.fastack >= FastLimit(cfg)
  }

  /** The free window, in the 16 bits of its field. */
  function FreeWindow(e: Endpoint): int {
    (if |e.rcv.queue| < e.cfg.rcvWnd then e.cfg.rcvWnd - |e.rcv.queue| else 0) % 65536
  }

  /** How much a timeout adds to the timeout of a segment. */
  function Increment(e: Endpoint): int {
    if e.cfg.noDelay then e.rtt.rto / 2 else e.rtt.rto
  }

  /** What segment `s` is after a flush of `e`. */
  predicate Flushes(e: Endpoint, s: S.Segment, t: S.Segment) {
    var now := e.clk.current;
    && t.p == (if Sent(e.cfg, s, now) then s.p.(ts := now, wnd := FreeWindow(e), una := e.rcv.nxt) else s.p)
    && (if s.xmit == 0 then
          && t.xmit == 1 && t.rto == e.rtt.rto && t.fastack == s.fastack
          && t.resendts == W(now + e.rtt.rto + (if e.cfg.noDelay then 0 else e.rtt.rto / 8))
        else if TimedOut(s, now) then
          && t.xmit == W(s.xmit + 1) && t.rto == W(s.rto + Increment(e)) && t.fastack == s.fastack
          && t.resendts == W(now + t.rto)
        else if Overtaken(e.cfg, s, now) then
          && t.xmit == W(s.xmit + 1) && t.rto == s.rto && t.fastack == 0
          && t.resendts == W(now + s.rto)
        else t.xmit == s.xmit && t.rto == s.rto && t.fastack == s.fastack && t.resendts == s.resendts)
  }

  lemma ResendFlushes(e: Endpoint, s: S.Segment)
    ensures Flushes(e, s, Resend(WalkFor(e), s))
    ensures ActionFor(WalkFor(e), s).Wait? <==> !Sent(e.cfg, s, e.clk.current)
    ensures ActionFor(WalkFor(e), s).Timeout? <==> TimedOut(s, e.clk.current)
    ensures ActionFor(WalkFor(e), s).Fast? <==> Overtaken(e.cfg, s, e.clk.current)
  {
    hide TimeDiff;
  }

  // ---------------------------------------------------------------- admission

  /** The limit on segments in flight: the peer's window and the sender's own and, unless that is
      turned off, the congestion window. */
  function SendLimit(e: Endpoint): int {
    var w := if e.cong.rmtWnd < e.cfg.sndWnd then e.cong.rmtWnd else e.cfg.sndWnd;
    if !e.cfg.noCwnd && e.cong.cwnd < w then e.cong.cwnd else w
  }

  /** `sn` is still inside the limit. */
  predicate Inside(e: Endpoint, sn: int) {
    TimeDiff(sn, W(e.snd.una + SendLimit(e))) < 0
  }

  /** The segment made of a queued chunk. */
  function Numbered(e: Endpoint, c: S.Chunk, sn: int): S.Segment {
    S.Segment(Packet(e.cfg.conv, CMD_PUSH, c.frg, FreeWindow(e), e.clk.current, sn, e.rcv.nxt, c.data),
              e.clk.current, e.rtt.rto, 0, 0)
  }

  /** The first `k` queued chunks are numbered on, each inside the limit, and no more fit. */
  predicate Admits(e: Endpoint, k: nat, a: S.Sender) {
    && k <= |e.snd.queue| && |a.buf| == |e.snd.buf| + k
    && a.queue == e.snd.queue[k..] && a.una == e.snd.una && a.nxt == W(e.snd.nxt + k)
    && (forall i :: 0 <= i < |e.snd.buf| ==> a.buf[i] == e.snd.buf[i])
    && (forall j :: 0 <= j < k ==> TakenAt(e, a, j))
    && (a.queue == [] || !Inside(e, a.nxt))
  }

  predicate TakenAt(e: Endpoint, a: S.Sender, j: nat) {
    && j < |e.snd.queue| && |e.snd.buf| + j < |a.buf|
    && a.buf[|e.snd.buf| + j] == Numbered(e, e.snd.queue[j], W(e.snd.nxt + j))
    && Inside(e, W(e.snd.nxt + j))
  }

  lemma {:induction false} AdmitAdmits(e: Endpoint) returns (k: nat)
    requires 0 <= e.snd.nxt < TWO32
    ensures Admits(e, k, Admitted(Mod32, e))
    decreases |e.snd.queue|
  {
    hide TimeDiff;
    WindowIs(e);
    if Inside(e, e.snd.nxt) && e.snd.queue != [] {
      var seg := Numbered(e, e.snd.queue[0], e.snd.nxt);
      var s := S.Sender(e.snd.queue[1..], e.snd.buf + [seg], e.snd.una, W(e.snd.nxt + 1));
      var e1 := e.(snd := s);
      assert NewSegment(Template(e), e.snd.queue[0], e.snd.nxt, e.clk.current, e.rtt.rto) == seg;
      var l := AdmitAdmits(e1);
      assert Admitted(Mod32, e) == Admitted(Mod32, e1);
      k := l + 1;
      AdmitsMore(e, e1, l, Admitted(Mod32, e));
    } else {
      k := 0;
      assert e.snd.queue[0..] == e.snd.queue;
      assert W(e.snd.nxt) == e.snd.nxt;
    }
  }

  lemma WindowIs(e: Endpoint)
    ensures Window(e.cfg, e.cong) == SendLimit(e)
  {
  }

  lemma AdmitsMore(e: Endpoint, e1: Endpoint, l: nat, a: S.Sender)
    requires e.snd.queue != [] && 0 <= e.snd.nxt < TWO32 && Inside(e, e.snd.nxt)
    requires e1 == e.(snd := S.Sender(e.snd.queue[1..], e.snd.buf + [Numbered(e, e.snd.queue[0], e.snd.nxt)],
                                      e.snd.una, W(e.snd.nxt + 1)))
    requires Admits(e1, l, a)
    ensures Admits(e, l + 1, a)
  {
    hide Inside, W, Numbered, TakenAt;
    WordSum(e.snd.nxt, l);
    assert e.snd.queue[1..][l..] == e.snd.queue[l + 1..];
    SameLimit(e, e1, a.nxt);
    forall j | 0 <= j < l + 1 ensures TakenAt(e, a, j) {
      if j == 0 { FirstTaken(e, e1, l, a); } else { TakenLater(e, e1, a, j - 1); }
    }
    forall i | 0 <= i < |e.snd.buf| ensures a.buf[i] == e.snd.buf[i] { assert a.buf[i] == e1.snd.buf[i]; }
  }

  lemma FirstTaken(e: Endpoint, e1: Endpoint, l: nat, a: S.Sender)
    requires e.snd.queue != [] && 0 <= e.snd.nxt < TWO32 && Inside(e, e.snd.nxt)
    requires e1.snd.buf == e.snd.buf + [Numbered(e, e.snd.queue[0], e.snd.nxt)] && Admits(e1, l, a)
    ensures TakenAt(e, a, 0)
  {
    hide Inside, Numbered, W, TakenAt;
    WordIs(e.snd.nxt);
    assert a.buf[|e.snd.buf|] == e1.snd.buf[|e.snd.buf|];
    assert TakenAt(e, a, 0) by { TakenIs(e, a, 0); }
  }

  lemma TakenIs(e: Endpoint, a: S.Sender, j: nat)
    requires j < |e.snd.queue| && |e.snd.buf| + j < |a.buf|
    requires a.buf[|e.snd.buf| + j] == Numbered(e, e.snd.queue[j], W(e.snd.nxt + j)) && Inside(e, W(e.snd.nxt + j))
    ensures TakenAt(e, a, j)
  {
  }

  lemma TakenLater(e: Endpoint, e1: Endpoint, a: S.Sender, j: nat)
    requires e.snd.queue != []
    requires e1 == e.(snd := S.Sender(e.snd.queue[1..], e.snd.buf + [Numbered(e, e.snd.queue[0], e.snd.nxt)],
                                      e.snd.una, W(e.snd.nxt + 1)))
    requires TakenAt(e1, a, j)
    ensures TakenAt(e, a, j + 1)
  {
    hide Inside, Numbered, W;
    WordSum(e.snd.nxt, j);
    SameLimit(e, e1, W(e1.snd.nxt + j));
    SameNumbered(e, e1, e.snd.queue[j + 1], W(e.snd.nxt + (j + 1)));
  }

  lemma WordSum(x: int, j: int)
    ensures W(W(x + 1) + j) == W(x + (j + 1))
  {
  }

  lemma WordIs(x: int)
    requires 0 <= x < TWO32
    ensures W(x + 0) == W(x) == x
  {
  }

  lemma SameNumbered(e: Endpoint, e1: Endpoint, c: S.Chunk, sn: int)
    requires e1 == e.(snd := e1.snd)
    ensures Numbered(e1, c, sn) == Numbered(e, c, sn)
  {
  }

  lemma SameLimit(e: Endpoint, e1: Endpoint, sn: int)
    requires e1.cfg == e.cfg && e1.cong == e.cong && e1.snd.una == e.snd.una
    ensures Inside(e1, sn) == Inside(e, sn)
  {
  }

  // ---------------------------------------------------------------- the state after a flush

  lemma FlushedBuf(e: Endpoint)
    requires e.clk.updated
    ensures var f := E.Flush(Mod32, e).e; var a := Admitted(Mod32, e);
            && f.snd.queue == a.queue && f.snd.una == a.una && f.snd.nxt == a.nxt && f.rcv == e.rcv.(acks := [])
            && f.cfg == e.cfg && f.rtt == e.rtt && f.clk.updated && f.clk.current == e.clk.current
            && |f.snd.buf| == |a.buf|
            && forall i :: 0 <= i < |a.buf| ==> f.snd.buf[i] == Resend(WalkFor(e), a.buf[i])
  {
    hide Admit, WalkAll, C.Cut, Pack, FlushPackets, Resend, WalkFor;
    var a := Admitted(Mod32, e);
    forall i | 0 <= i < |a.buf| ensures WalkAll(WalkFor(e), a.buf).buf[i] == Resend(WalkFor(e), a.buf[i]) {
      WalkAt(WalkFor(e), a.buf, i);
    }
  }

  /** The `j`-th queued chunk was inside the limit, numbered on and sent. */
  predicate NewAt(e: Endpoint, j: nat, t: S.Segment) {
    && j < |e.snd.queue| && Flushes(e, Numbered(e, e.snd.queue[j], W(e.snd.nxt + j)), t)
    && Inside(e, W(e.snd.nxt + j))
  }

  /** The segments in flight before the flush, and then those it takes from the queue: as many as
      the limit leaves room for, sent at once. */
  lemma FlushSegments(e: Endpoint) returns (k: nat)
    requires e.clk.updated && 0 <= e.snd.nxt < TWO32
    ensures var f := E.Flush(Mod32, e).e;
            && k <= |e.snd.queue| && |f.snd.buf| == |e.snd.buf| + k && f.snd.queue == e.snd.queue[k..]
            && f.snd.una == e.snd.una && f.snd.nxt == W(e.snd.nxt + k)
            && (forall i :: 0 <= i < |e.snd.buf| ==> Flushes(e, e.snd.buf[i], f.snd.buf[i]))
            && (forall i :: |e.snd.buf| <= i < |f.snd.buf| ==> NewAt(e, i - |e.snd.buf|, f.snd.buf[i]))
            && (f.snd.queue == [] || !Inside(e, f.snd.nxt))
    ensures k > 0 ==> Inside(e, e.snd.nxt)
  {
    hide Resend, ActionFor, WalkFor, E.Flush, Admitted, Inside, Numbered, Flushes, W;
    k := AdmitAdmits(e);
    FlushedBuf(e);
    var a := Admitted(Mod32, e);
    forall i | 0 <= i < |a.buf| ensures Flushes(e, a.buf[i], E.Flush(Mod32, e).e.snd.buf[i]) {
      ResendFlushes(e, a.buf[i]);
    }
    forall i | |e.snd.buf| <= i < |a.buf| ensures NewAt(e, i - |e.snd.buf|, E.Flush(Mod32, e).e.snd.buf[i]) {
      assert TakenAt(e, a, i - |e.snd.buf|);
    }
    WordIs(e.snd.nxt);
    if k > 0 { assert TakenAt(e, a, 0); }
  }

  // ---------------------------------------------------------------- the window and the counts

  predicate AnyTimedOut(buf: seq<S.Segment>, now: int) {
    exists i :: 0 <= i < |buf| && TimedOut(buf[i], now)
  }

  predicate AnyOvertaken(cfg: Config, buf: seq<S.Segment>, now: int) {
    exists i :: 0 <= i < |buf| && Overtaken(cfg, buf[i], now)
  }

  function CountTimedOut(buf: seq<S.Segment>, now: int): nat {
    if buf == [] then 0
    else CountTimedOut(buf[..|buf| - 1], now) + (if TimedOut(buf[|buf| - 1], now) then 1 else 0)
  }

  lemma {:induction false} WalkCounts(e: Endpoint, buf: seq<S.Segment>)
    ensures var r := WalkAll(WalkFor(e), buf); var now := e.clk.current;
            && r.timeouts == CountTimedOut(buf, now)
            && (r.timeouts > 0 <==> AnyTimedOut(buf, now))
            && (r.fasts > 0 <==> AnyOvertaken(e.cfg, buf, now))
            && (r.dead <==> exists i :: 0 <= i < |buf| && Dies(e, buf[i]))
  {
    hide Resend, ActionFor, WalkFor, TimedOut, Overtaken, Sent, Dies;
    if buf != [] {
      var n := |buf| - 1;
      WalkCounts(e, buf[..n]);
      ResendFlushes(e, buf[n]);
      DiesIff(e, buf[n]);
      AnySplits(e, buf);
    }
  }

  /** The segment is sent for the twentieth time, or more often. */
  predicate Dies(e: Endpoint, s: S.Segment) {
    Sent(e.cfg, s, e.clk.current) && W(s.xmit + 1) >= 20
  }

  lemma DiesIff(e: Endpoint, s: S.Segment)
    ensures Dies(e, s) <==> !ActionFor(WalkFor(e), s).Wait? && Resend(WalkFor(e), s).xmit >= DEAD_LINK
  {
    ResendFlushes(e, s);
    hide TimeDiff;
  }

  lemma AnySplits(e: Endpoint, buf: seq<S.Segment>)
    requires buf != []
    ensures var n := |buf| - 1; var now := e.clk.current;
            && (AnyTimedOut(buf, now) <==> AnyTimedOut(buf[..n], now) || TimedOut(buf[n], now))
            && (AnyOvertaken(e.cfg, buf, now) <==> AnyOvertaken(e.cfg, buf[..n], now) || Overtaken(e.cfg, buf[n], now))
            && ((exists i :: 0 <= i < |buf| && Dies(e, buf[i]))
                <==> (exists i :: 0 <= i < n && Dies(e, buf[..n][i])) || Dies(e, buf[n]))
  {
    hide TimedOut, Overtaken, Dies;
    var n := |buf| - 1;
    var now := e.clk.current;
    assert forall i :: 0 <= i < n ==> buf[..n][i] == buf[i];
    if i :| 0 <= i < n && TimedOut(buf[..n][i], now) { assert TimedOut(buf[i], now); }
    if i :| 0 <= i < n && Overtaken(e.cfg, buf[..n][i], now) { assert Overtaken(e.cfg, buf[i], now); }
    if i :| 0 <= i < n && Dies(e, buf[..n][i]) { assert Dies(e, buf[i]); }
  }

  /** Segments that are new in the buffer have not timed out and were not overtaken. */
  lemma {:induction false} NewAreQuiet(cfg: Config, buf: seq<S.Segment>, more: seq<S.Segment>, now: int)
    requires |buf| <= |more| && forall i :: 0 <= i < |buf| ==> more[i] == buf[i]
    requires forall i :: |buf| <= i < |more| ==> more[i].xmit == 0
    ensures CountTimedOut(more, now) == CountTimedOut(buf, now)
    ensures AnyTimedOut(more, now) <==> AnyTimedOut(buf, now)
    ensures AnyOvertaken(cfg, more, now) <==> AnyOvertaken(cfg, buf, now)
    decreases |more|
  {
    if i :| 0 <= i < |buf| && TimedOut(buf[i], now) { assert TimedOut(more[i], now); }
    if i :| 0 <= i < |buf| && Overtaken(cfg, buf[i], now) { assert Overtaken(cfg, more[i], now); }
    if |more| > |buf| {
      NewAreQuiet(cfg, buf, more[..|more| - 1], now);
    } else {
      assert more == buf;
    }
  }

  lemma NewAreAlive(e: Endpoint, buf: seq<S.Segment>, more: seq<S.Segment>)
    requires |buf| <= |more| && forall i :: 0 <= i < |buf| ==> more[i] == buf[i]
    requires forall i :: |buf| <= i < |more| ==> more[i].xmit == 0
    ensures (exists i :: 0 <= i < |more| && Dies(e, more[i])) <==> exists i :: 0 <= i < |buf| && Dies(e, buf[i])
  {
    if i :| 0 <= i < |buf| && Dies(e, buf[i]) { assert Dies(e, more[i]); }
    assert forall i :: |buf| <= i < |more| ==> !Dies(e, more[i]);
  }

  /** The congestion record after a flush that leaves `inflight` segments in flight. */
  predicate Cuts(e: Endpoint, inflight: int, d: C.Congestion) {
    var c := e.cong;
    var now := e.clk.current;
    && d.rmtWnd == c.rmtWnd
    && (if AnyTimedOut(e.snd.buf, now) then
          d.ssthresh == Max(2, SendLimit(e) / 2) && d.cwnd == 1 && d.incr == W(e.cfg.mss)
        else if AnyOvertaken(e.cfg, e.snd.buf, now) then
          && d.ssthresh == Max(2, inflight / 2) && d.cwnd == Max(1, W(d.ssthresh + FastLimit(e.cfg)))
          && d.incr == W(d.cwnd * e.cfg.mss)
        else
          && d.ssthresh == c.ssthresh && d.cwnd == Max(1, c.cwnd)
          && d.incr == if c.cwnd >= 1 then c.incr else W(e.cfg.mss))
  }

  lemma CutIs(c: C.Congestion, mss: int, fast: bool, lost: bool, inflight: int, limit: int, window: int)
    ensures var d := C.Cut(c, mss, fast, lost, inflight, limit, window);
            && d.rmtWnd == c.rmtWnd
            && (lost ==> d.ssthresh == Max(2, window / 2) && d.cwnd == 1 && d.incr == W(mss))
            && (!lost && fast ==>
                  && d.ssthresh == Max(2, inflight / 2) && d.cwnd == Max(1, W(d.ssthresh + limit))
                  && d.incr == W(d.cwnd * mss))
            && (!lost && !fast ==>
                  && d.ssthresh == c.ssthresh && d.cwnd == Max(1, c.cwnd)
                  && d.incr == if c.cwnd >= 1 then c.incr else W(mss))
  {
    assert 1 * mss == mss;
  }

  /** A timeout closes the window to one segment and halves the threshold from the limit; a fast
      resend alone halves it from what is in flight, and sets the window that many segments above
      it as acks overtook. The transmissions for a timeout are counted, and a segment sent for
      the twentieth time marks the link as dead. */
  lemma FlushCuts(e: Endpoint)
    requires e.clk.updated && 0 <= e.snd.nxt < TWO32
    ensures var f := E.Flush(Mod32, e).e; Cuts(e, W(f.snd.nxt - f.snd.una), f.cong)
    ensures var f := E.Flush(Mod32, e).e;
            && f.xmit == W(e.xmit + CountTimedOut(e.snd.buf, e.clk.current))
            && (f.dead <==> e.dead || exists i :: 0 <= i < |e.snd.buf| && Dies(e, e.snd.buf[i]))
  {
    hide WalkAll, WalkFor, Admit, C.Cut, Pack, FlushPackets, TimedOut, Overtaken, Dies, CountTimedOut,
         AnyTimedOut, AnyOvertaken;
    var k := AdmitAdmits(e);
    var a := Admitted(Mod32, e);
    NewUnsent(e, k, a);
    NewAreQuiet(e.cfg, e.snd.buf, a.buf, e.clk.current);
    NewAreAlive(e, e.snd.buf, a.buf);
    WalkCounts(e, a.buf);
    WindowIs(e);
    var w := WalkAll(WalkFor(e), a.buf);
    CutIs(e.cong, e.cfg.mss, w.fasts > 0, w.timeouts > 0, W(a.nxt - a.una), FastLimit(e.cfg), SendLimit(e));
  }

  lemma NewUnsent(e: Endpoint, k: nat, a: S.Sender)
    requires Admits(e, k, a)
    ensures |e.snd.buf| <= |a.buf| && forall i :: 0 <= i < |e.snd.buf| ==> a.buf[i] == e.snd.buf[i]
    ensures forall i :: |e.snd.buf| <= i < |a.buf| ==> a.buf[i].xmit == 0
  {
    hide Inside;
    forall i | |e.snd.buf| <= i < |a.buf| ensures a.buf[i].xmit == 0 {
      assert TakenAt(e, a, i - |e.snd.buf|);
    }
  }

  // ---------------------------------------------------------------- timeouts in a row

  /** `ikcp_flush` at each of these times. */
  function FlushAll(e: Endpoint, ts: seq<int>): Endpoint {
    if ts == [] then e
    else
      var d := FlushAll(e, ts[..|ts| - 1]);
      E.Flush(Mod32, d.(clk := d.clk.(current := ts[|ts| - 1]))).e
  }

  /** At how many of the times segment `i` had timed out. */
  function Timeouts(e: Endpoint, ts: seq<int>, i: nat): nat {
    if ts == [] then 0
    else
      var n := |ts| - 1;
      var buf := FlushAll(e, ts[..n]).snd.buf;
      Timeouts(e, ts[..n], i) + (if i < |buf| && TimedOut(buf[i], ts[n]) then 1 else 0)
  }

  /** A timeout that `k` increments were added to. */
  function Backed(rto: int, k: nat, inc: int): int {
    W(rto + k * inc)
  }

  /** Segment `i` is in flight, with `k` increments added to its timeout. */
  predicate InFlight(d: Endpoint, i: nat, xmit: int, rto: int, k: nat, inc: int) {
    && d.clk.updated && 0 <= d.snd.nxt < TWO32 && Increment(d) == inc && i < |d.snd.buf|
    && 0 < d.snd.buf[i].xmit <= xmit && d.snd.buf[i].rto == Backed(rto, k, inc)
  }

  /** Over any flushes with no datagram in between, each timeout adds the same increment to the
      timeout of a segment, and nothing else changes it. */
  lemma {:induction false} BacksOff(e: Endpoint, ts: seq<int>, i: nat)
    requires e.clk.updated && 0 <= e.snd.nxt < TWO32 && i < |e.snd.buf|
    requires 0 < e.snd.buf[i].xmit && e.snd.buf[i].xmit + |ts| < TWO32 && 0 <= e.snd.buf[i].rto < TWO32
    ensures InFlight(FlushAll(e, ts), i, e.snd.buf[i].xmit + |ts|, e.snd.buf[i].rto, Timeouts(e, ts, i), Increment(e))
  {
    hide E.Flush, TimedOut, W, Increment, InFlight;
    var s := e.snd.buf[i];
    if ts == [] {
      StartsInFlight(e, i);
    } else {
      var n := |ts| - 1;
      BacksOff(e, ts[..n], i);
      FlushOnce(FlushAll(e, ts[..n]), ts[n], i, s.xmit + n, s.rto, Timeouts(e, ts[..n], i), Increment(e));
      StillIn(FlushAll(e, ts[..n]), i, s.xmit + n, s.rto, Timeouts(e, ts[..n], i), Increment(e));
    }
  }

  lemma StartsInFlight(e: Endpoint, i: nat)
    requires e.clk.updated && 0 <= e.snd.nxt < TWO32 && i < |e.snd.buf|
    requires 0 < e.snd.buf[i].xmit && 0 <= e.snd.buf[i].rto < TWO32
    ensures InFlight(e, i, e.snd.buf[i].xmit, e.snd.buf[i].rto, 0, Increment(e))
  {
    assert 0 * Increment(e) == 0;
  }

  lemma StillIn(d: Endpoint, i: nat, xmit: int, rto: int, k: nat, inc: int)
    requires InFlight(d, i, xmit, rto, k, inc)
    ensures i < |d.snd.buf|
  {
  }

  lemma FlushOnce(d: Endpoint, now: int, i: nat, xmit: int, rto: int, k: nat, inc: int)
    requires InFlight(d, i, xmit, rto, k, inc) && xmit + 1 < TWO32
    ensures InFlight(E.Flush(Mod32, d.(clk := d.clk.(current := now))).e, i, xmit + 1, rto,
                     k + if TimedOut(d.snd.buf[i], now) then 1 else 0, inc)
  {
    hide E.Flush, Flushes, TimedOut, Inside, Backed;
    var e := d.(clk := d.clk.(current := now));
    var l := FlushSegments(e);
    FlushedBuf(e);
    OneTimeout(e, e.snd.buf[i], E.Flush(Mod32, e).e.snd.buf[i], rto, k, inc);
  }

  lemma OneTimeout(e: Endpoint, s: S.Segment, t: S.Segment, rto: int, k: nat, inc: int)
    requires Flushes(e, s, t) && 0 < s.xmit && s.xmit + 1 < TWO32
    requires s.rto == Backed(rto, k, inc) && inc == Increment(e)
    ensures s.xmit <= t.xmit <= s.xmit + 1
    ensures t.rto == Backed(rto, k + if TimedOut(s, e.clk.current) then 1 else 0, inc)
  {
    hide TimeDiff, W, Backed;
    OnceMore(rto, k, inc);
    WordIs(s.xmit + 1);
    hide Increment;
  }

  lemma OnceMore(rto: int, k: nat, inc: int)
    ensures W(Backed(rto, k, inc) + inc) == Backed(rto, k + 1, inc)
  {
    hide W;
    assert (k + 1) * inc == k * inc + inc;
    WordAdd(rto + k * inc, inc);
  }

  lemma WordAdd(x: int, y: int)
    ensures W(W(x) + y) == W(x + y)
  {
  }

  // ---------------------------------------------------------------- the packets of a flush

  /** What is handed out is what is written. */
  lemma OutIsWritten(u: Endpoint)
    requires EndpointInv(u) && u.clk.updated
    ensures Flatten(E.Flush(Mod32, WrapE(u)).out) == FlushPackets(Mod32, WrapE(u))
  {
    hide EndpointInv, FlushPackets, Pack, WrapE, FlushState;
    FlushOutput(u);
    FlushPacketsWrap(u);
    var ps := FlushPackets(Unbounded, u);
    forall p | p in WrapPs(ps) ensures Size(p) <= u.cfg.mtu {
      var j :| 0 <= j < |ps| && WrapPs(ps)[j] == p;
      assert ps[j] in ps;
      WritableFits(u, ps[j]);
    }
    FlushOut(u);
    PackingIsWhole(u.cfg.mtu, WrapPs(ps));
  }

  lemma WritableFits(u: Endpoint, p: Packet)
    requires EndpointInv(u) && Writable(u.cfg, p)
    ensures Size(WrapP(p)) <= u.cfg.mtu && u.cfg.mtu >= 0
  {
  }

  lemma FlushOut(u: Endpoint)
    requires EndpointInv(u) && u.clk.updated
    ensures E.Flush(Mod32, WrapE(u)).out == Pack(u.cfg.mtu, FlushPackets(Mod32, WrapE(u))) && u.cfg.mtu >= 0
  {
    hide FlushPackets, Pack, FlushState;
  }

  /** Every segment that is sent again is written as it stands after the walk, and nothing else. */
  lemma {:induction false} WalkWrites(w: Walk, buf: seq<S.Segment>)
    ensures forall i :: 0 <= i < |buf| && !ActionFor(w, buf[i]).Wait? ==> Resend(w, buf[i]).p in WalkAll(w, buf).sent
    ensures forall q :: q in WalkAll(w, buf).sent ==>
              exists i :: 0 <= i < |buf| && !ActionFor(w, buf[i]).Wait? && q == Resend(w, buf[i]).p
  {
    hide ActionFor, Resend;
    if buf != [] {
      var n := |buf| - 1;
      WalkWrites(w, buf[..n]);
      assert forall i :: 0 <= i < n ==> buf[..n][i] == buf[i];
    }
  }

  /** The parts of what a flush writes: acks, probes and data. */
  lemma Parts(e: Endpoint, q: Packet)
    ensures q in FlushPackets(Mod32, e) <==>
              || q in AckPackets(Template(e), e.rcv.acks)
              || q in ProbePackets(AfterAcks(Template(e), e.rcv.acks), Probe(e.clk, e.cong.rmtWnd))
              || q in WalkAll(WalkFor(e), Admitted(Mod32, e).buf).sent
  {
  }

  /** The packet that acks `a`. */
  function OwedAck(e: Endpoint, a: R.Ack): Packet {
    Packet(e.cfg.conv, CMD_ACK, 0, FreeWindow(e), a.ts, a.sn, e.rcv.nxt, [])
  }

  lemma AcksAre(e: Endpoint)
    ensures var a := AckPackets(Template(e), e.rcv.acks);
            && |a| == |e.rcv.acks|
            && forall k :: 0 <= k < |a| ==>
                 a[k] == OwedAck(e, e.rcv.acks[k])
  {
    AckCount(Template(e), e.rcv.acks);
    forall k | 0 <= k < |e.rcv.acks|
      ensures AckPackets(Template(e), e.rcv.acks)[k]
           == OwedAck(e, e.rcv.acks[k])
    {
      AckPacketAt(Template(e), e.rcv.acks, k);
    }
  }

  /** A flush begins with the acks that are owed, each echoing the time stamp of its packet. */
  lemma FlushAcks(u: Endpoint)
    requires EndpointInv(u) && u.clk.updated
    ensures var e := WrapE(u); var out := Flatten(E.Flush(Mod32, e).out);
            && |out| >= |e.rcv.acks|
            && forall k :: 0 <= k < |e.rcv.acks| ==>
                 out[k] == OwedAck(e, e.rcv.acks[k])
  {
    hide EndpointInv, E.Flush, AckPackets, ProbePackets, WalkAll, Template, FreeWindow;
    OutIsWritten(u);
    AcksAre(WrapE(u));
  }

  /** Every packet of a flush tells the free window and the number expected next. */
  predicate Header(e: Endpoint, q: Packet) {
    && q.conv == e.cfg.conv && q.wnd == FreeWindow(e) && q.una == e.rcv.nxt
    && (q.cmd == CMD_PUSH ==> q.ts == e.clk.current)
  }

  lemma FlushHeaders(u: Endpoint, q: Packet)
    requires EndpointInv(u) && u.clk.updated && q in Flatten(E.Flush(Mod32, WrapE(u)).out)
    ensures Header(WrapE(u), q)
  {
    hide EndpointInv, E.Flush, WrapE, AckPackets, FreeWindow, Template, AfterAcks, ActionFor, Resend, Admitted, Header;
    var e := WrapE(u);
    OutIsWritten(u);
    Parts(e, q);
    if q in WalkAll(WalkFor(e), Admitted(Mod32, e).buf).sent {
      WalkWrites(WalkFor(e), Admitted(Mod32, e).buf);
      var i :| 0 <= i < |Admitted(Mod32, e).buf| && !ActionFor(WalkFor(e), Admitted(Mod32, e).buf[i]).Wait?
               && q == Resend(WalkFor(e), Admitted(Mod32, e).buf[i]).p;
      ResendHeader(u, i);
    } else if q in AckPackets(Template(e), e.rcv.acks) {
      AcksAre(e);
      var k :| 0 <= k < |e.rcv.acks| && AckPackets(Template(e), e.rcv.acks)[k] == q;
      AckHeader(e, e.rcv.acks[k]);
    } else {
      ProbeHeader(e, q);
    }
  }

  lemma AckHeader(e: Endpoint, a: R.Ack)
    ensures Header(e, Packet(e.cfg.conv, CMD_ACK, 0, FreeWindow(e), a.ts, a.sn, e.rcv.nxt, []))
  {
  }

  lemma ProbeHeader(e: Endpoint, q: Packet)
    requires q in ProbePackets(AfterAcks(Template(e), e.rcv.acks), Probe(e.clk, e.cong.rmtWnd))
    ensures Header(e, q)
  {
  }

  /** The segments of the buffer are data packets of the conversation, also in 32 bits. */
  lemma AdmittedData(u: Endpoint, i: nat)
    requires EndpointInv(u) && i < |Admitted(Mod32, WrapE(u)).buf|
    ensures var p := Admitted(Mod32, WrapE(u)).buf[i].p; p.conv == u.cfg.conv && p.cmd == CMD_PUSH
  {
    hide Admit, Inside, Numbered;
    var e := WrapE(u);
    var a := Admitted(Mod32, e);
    var k := AdmitAdmits(e);
    if i < |e.snd.buf| {
      assert a.buf[i] == e.snd.buf[i] && DataPacket(u.cfg, u.snd.buf[i].p);
    } else {
      assert TakenAt(e, a, i - |e.snd.buf|);
      NumberedData(e, e.snd.queue[i - |e.snd.buf|], W(e.snd.nxt + (i - |e.snd.buf|)));
    }
  }

  lemma NumberedData(e: Endpoint, c: S.Chunk, sn: int)
    ensures Numbered(e, c, sn).p.conv == e.cfg.conv && Numbered(e, c, sn).p.cmd == CMD_PUSH
  {
  }

  lemma ResendHeader(u: Endpoint, i: nat)
    requires EndpointInv(u) && i < |Admitted(Mod32, WrapE(u)).buf|
    requires var e := WrapE(u); !ActionFor(WalkFor(e), Admitted(Mod32, e).buf[i]).Wait?
    ensures var e := WrapE(u); var p := Resend(WalkFor(e), Admitted(Mod32, e).buf[i]).p;
            Header(e, p) && p.cmd == CMD_PUSH && p.sn == Admitted(Mod32, e).buf[i].p.sn
  {
    hide EndpointInv, Admitted, WrapSnd, WrapRcv;
    AdmittedData(u, i);
    ResendFlushes(WrapE(u), Admitted(Mod32, WrapE(u)).buf[i]);
    hide ActionFor, Resend;
  }

  // ---------------------------------------------------------------- over every run

  /** The flush writes a data packet numbered `sn`. */
  predicate Writes(out: seq<Packet>, sn: int) {
    exists q :: q in out && q.cmd == CMD_PUSH && q.sn == sn
  }

  /** The data packets of a flush, by place in the buffer it leaves. */
  lemma DataWritten(u: Endpoint, i: nat)
    requires EndpointInv(u) && u.clk.updated && i < |E.Flush(Mod32, WrapE(u)).e.snd.buf|
    requires var buf := E.Flush(Mod32, WrapE(u)).e.snd.buf;
             forall j, k :: 0 <= j < k < |buf| ==> buf[j].p.sn != buf[k].p.sn
    ensures var e := WrapE(u); var f := E.Flush(Mod32, e);
            && |e.snd.buf| <= |f.e.snd.buf|
            && (Writes(Flatten(f.out), f.e.snd.buf[i].p.sn)
                <==> i >= |e.snd.buf| || Sent(e.cfg, e.snd.buf[i], e.clk.current))
            && (Writes(Flatten(f.out), f.e.snd.buf[i].p.sn) ==> f.e.snd.buf[i].p in Flatten(f.out))
  {
    hide EndpointInv, E.Flush, WrapE, FlushPackets, ActionFor, Resend, Admitted, WalkAll, WalkFor, Sent, Writes,
         AckPackets, ProbePackets, Flatten;
    var e := WrapE(u);
    var a := Admitted(Mod32, e);
    var f := E.Flush(Mod32, e);
    WrapKeeps(u);
    FlushedBuf(e);
    var k := AdmitAdmits(e);
    OutIsWritten(u);
    SentAt(e, k, a, i);
    WalkWrites(WalkFor(e), a.buf);
    if !ActionFor(WalkFor(e), a.buf[i]).Wait? {
      ResendHeader(u, i);
      Parts(e, f.e.snd.buf[i].p);
      assert Writes(Flatten(f.out), f.e.snd.buf[i].p.sn) by { WritesOne(Flatten(f.out), f.e.snd.buf[i].p); }
    }
    if Writes(Flatten(f.out), f.e.snd.buf[i].p.sn) {
      var q := WrittenOne(Flatten(f.out), f.e.snd.buf[i].p.sn);
      Parts(e, q);
      NoDataBefore(e, q);
      var j :| 0 <= j < |a.buf| && !ActionFor(WalkFor(e), a.buf[j]).Wait? && q == Resend(WalkFor(e), a.buf[j]).p;
      assert f.e.snd.buf[j].p == q;
      assert i == j;
    }
  }

  lemma WrapKeeps(u: Endpoint)
    ensures 0 <= WrapE(u).snd.nxt < TWO32 && WrapE(u).clk == u.clk && WrapE(u).cfg == u.cfg
  {
  }

  lemma WritesOne(out: seq<Packet>, q: Packet)
    requires q in out && q.cmd == CMD_PUSH
    ensures Writes(out, q.sn)
  {
  }

  lemma WrittenOne(out: seq<Packet>, sn: int) returns (q: Packet)
    requires Writes(out, sn)
    ensures q in out && q.cmd == CMD_PUSH && q.sn == sn
  {
    q :| q in out && q.cmd == CMD_PUSH && q.sn == sn;
  }

  lemma SentAt(e: Endpoint, k: nat, a: S.Sender, i: nat)
    requires Admits(e, k, a) && i < |a.buf|
    ensures |e.snd.buf| <= |a.buf|
    ensures !ActionFor(WalkFor(e), a.buf[i]).Wait? <==> i >= |e.snd.buf| || Sent(e.cfg, e.snd.buf[i], e.clk.current)
  {
    hide Inside;
    NewUnsent(e, k, a);
    ResendFlushes(e, a.buf[i]);
    hide ActionFor, WalkFor;
  }

  lemma NoDataBefore(e: Endpoint, q: Packet)
    requires q.cmd == CMD_PUSH
    ensures q !in AckPackets(Template(e), e.rcv.acks)
    ensures q !in ProbePackets(AfterAcks(Template(e), e.rcv.acks), Probe(e.clk, e.cong.rmtWnd))
  {
    AcksAre(e);
    hide Probe, AfterAcks, AckPackets, Template, FreeWindow;
  }

  /** After any calls, whatever bytes arrived: a flush writes a segment that is in flight exactly
      when it has not been sent yet, its time has come or as many acks as it takes have overtaken
      it; and it writes every segment it takes from the queue. */
  lemma WrittenIff(cfg: Config, cs: seq<Call>, i: nat)
    requires ValidConfig(cfg) && ValidCalls(cs) && RunCalls(cfg, cs).clk.updated
    requires i < |E.Flush(Mod32, RunCalls(cfg, cs)).e.snd.buf|
    ensures var e := RunCalls(cfg, cs); var f := E.Flush(Mod32, e);
            && |e.snd.buf| <= |f.e.snd.buf|
            && (Writes(Flatten(f.out), f.e.snd.buf[i].p.sn)
                <==> i >= |e.snd.buf| || Sent(cfg, e.snd.buf[i], e.clk.current))
            && (Writes(Flatten(f.out), f.e.snd.buf[i].p.sn) ==> f.e.snd.buf[i].p in Flatten(f.out))
  {
    hide RunCalls, EndpointInv, E.Flush, WrapE, Flatten, Writes, Sent, SenderOk;
    var u := CallsRun(cfg, cs);
    WrapKeeps(u);
    RunOneMore(cfg, cs, Calls.Flush);
    StateStaysOk(cfg, cs + [Calls.Flush]);
    Distinct(cfg, RunCalls(cfg, cs + [Calls.Flush]).snd);
    DataWritten(u, i);
  }

  lemma Distinct(cfg: Config, s: S.Sender)
    requires SenderOk(cfg, s)
    ensures forall j, k :: 0 <= j < k < |s.buf| ==> s.buf[j].p.sn != s.buf[k].p.sn
  {
    assert TimeDiff(0, 0) == 0;
    forall j, k | 0 <= j < k < |s.buf| ensures s.buf[j].p.sn != s.buf[k].p.sn {
      assert TimeDiff(s.buf[j].p.sn, s.buf[k].p.sn) < 0;
    }
  }

  /** After any calls, every packet of a flush carries the free window and `rcv_nxt`. */
  lemma HeadersTell(cfg: Config, cs: seq<Call>, q: Packet)
    requires ValidConfig(cfg) && ValidCalls(cs) && RunCalls(cfg, cs).clk.updated
    requires q in Flatten(E.Flush(Mod32, RunCalls(cfg, cs)).out)
    ensures var e := RunCalls(cfg, cs);
            && q.conv == cfg.conv && q.una == e.rcv.nxt
            && q.wnd == (if |e.rcv.queue| < cfg.rcvWnd then cfg.rcvWnd - |e.rcv.queue| else 0) % 65536
            && (q.cmd == CMD_PUSH ==> q.ts == e.clk.current)
  {
    hide RunCalls, EndpointInv, E.Flush, WrapE, Flatten;
    var u := CallsRun(cfg, cs);
    WrapKeeps(u);
    FlushHeaders(u, q);
  }

  /** After any calls: a data packet that arrives below the end of the window, new or not, is acked
      by the next flush with its own number and time stamp. */
  lemma AckEchoes(cfg: Config, cs: seq<Call>, p: Packet)
    requires ValidConfig(cfg) && ValidCalls(cs) && RunCalls(cfg, cs).clk.updated
    requires Sendable(cfg.conv, p) && p.cmd == CMD_PUSH
    requires TimeDiff(p.sn, W(RunCalls(cfg, cs).rcv.nxt + cfg.rcvWnd)) < 0
    ensures var c := Calls.Input(EncodeAll([p]));
            && ValidCalls(cs + [c])
            && var e := RunCalls(cfg, cs + [c]);
               Packet(cfg.conv, CMD_ACK, 0, FreeWindow(e), p.ts, p.sn, e.rcv.nxt, [])
               in Flatten(E.Flush(Mod32, e).out)
  {
    hide RunCalls, EndpointInv, E.Flush, WrapSnd, WrapRcv, Flatten, EncodeAll, InputBytes, TimeDiff, FreeWindow;
    var c := Calls.Input(EncodeAll([p]));
    Laws.PushIsOwed(RunCalls(cfg, cs), p);
    Laws.InputKeepsUpdated(RunCalls(cfg, cs), EncodeAll([p]));
    RunOneMore(cfg, cs, c);
    var e := RunCalls(cfg, cs + [c]);
    var u := CallsRun(cfg, cs + [c]);
    WrapKeeps(u);
    FlushAcks(u);
    var k := |e.rcv.acks| - 1;
    assert e.rcv.acks[k] == R.Ack(p.sn, p.ts);
    assert Flatten(E.Flush(Mod32, e).out)[k] in Flatten(E.Flush(Mod32, e).out);
  }

  /** The laws above hold after any calls, whatever bytes arrived: what a flush makes of each segment
      in flight, that it leaves nothing queued for which there is room, and what it makes of the
      congestion window. */
  lemma FlushAfterCalls(cfg: Config, cs: seq<Call>)
    requires ValidConfig(cfg) && ValidCalls(cs) && RunCalls(cfg, cs).clk.updated
    ensures var e := RunCalls(cfg, cs); var f := E.Flush(Mod32, e).e;
            && |e.snd.buf| <= |f.snd.buf|
            && (forall i :: 0 <= i < |e.snd.buf| ==> Flushes(e, e.snd.buf[i], f.snd.buf[i]))
            && (forall i :: |e.snd.buf| <= i < |f.snd.buf| ==> NewAt(e, i - |e.snd.buf|, f.snd.buf[i]))
            && (f.snd.queue == [] || !Inside(e, f.snd.nxt))
            && Cuts(e, W(f.snd.nxt - f.snd.una), f.cong)
  {
    hide RunCalls, EndpointInv, E.Flush, WrapE, Flushes, NewAt, Inside, Cuts;
    var u := CallsRun(cfg, cs);
    WrapKeeps(u);
    var k := FlushSegments(RunCalls(cfg, cs));
    FlushCuts(RunCalls(cfg, cs));
  }

  /** A new block starts with a congestion window of 0: whatever was sent before it, the first
      flush hands out no data, and only then opens the window to one segment, with a threshold of 2
      and a remote window taken to be 32. */
  lemma FirstFlushIsEmpty(cfg: Config, len: int, data: Bytes, now: int)
    requires ValidConfig(cfg) && !cfg.noCwnd && len <= |data| && 0 <= now < TWO32
    ensures var cs := [Calls.Send(len, data), Calls.Update(now)];
            && ValidCalls(cs) && RunCalls(cfg, cs).snd.buf == []
            && RunCalls(cfg, cs).cong == C.Congestion(1, 2, cfg.mss, 32)
  {
    hide RunCalls, E.Update, S.Send, E.Flush, Flushes, NewAt, Cuts;
    var send, update := Calls.Send(len, data), Calls.Update(now);
    RunOneMore(cfg, [], send);
    RunOneMore(cfg, [send], update);
    assert [] + [send] == [send] && [send] + [update] == [send, update];
    NoCalls(cfg);
    var e := RunCalls(cfg, [send]);
    Wake.UpdateFlushesIff(Mod32, e, now);
    var t := e.(clk := e.clk.(current := now, updated := true, tsFlush := Wake.NextFlush(e, now)));
    var k := FlushSegments(t);
    FlushCuts(t);
    ClosedWindow(t);
  }

  lemma ClosedWindow(t: Endpoint)
    requires ValidConfig(t.cfg) && !t.cfg.noCwnd && t.cong == Create(t.cfg).cong
    requires t.snd.una == 0 && t.snd.nxt == 0 && t.snd.buf == []
    ensures !Inside(t, 0)
    ensures forall i, d :: Cuts(t, i, d) ==> d == C.Congestion(1, 2, t.cfg.mss, 32)
  {
    assert TimeDiff(0, 0) == 0 && W(t.cfg.mss) == t.cfg.mss;
  }

  lemma NoCalls(cfg: Config)
    requires ValidConfig(cfg)
    ensures RunCalls(cfg, []) == Create(cfg)
  {
  }
}
