/** `ikcp_check` against `ikcp_update`: skipping the calls that `ikcp_check` says are not
    needed changes nothing. */
module Schedule {
  import opened Word32
  import opened Wire
  import opened Endpoint
  import opened Invariant
  import E = Endpoint
  import Runs = Calls
  import S = Sender
  import T = Rtt
  import Wrap = Wraparound

  /** `t` lies in [now, until) on the wrapping clock. */
  predicate Before(now: int, t: int, until: int) {
    0 <= t < TWO32 && W(t - now) < W(until - now)
  }

  function AtTime(e: Endpoint, t: int): Endpoint {
    e.(clk := e.clk.(current := t))
  }

  predicate Words(e: Endpoint, now: int) {
    ValidConfig(e.cfg) && 0 <= now < TWO32 && 0 <= e.clk.tsFlush < TWO32
  }

  /** When `ikcp_check` asks to wait, the flush is due at least that much later, and within
      10 seconds. */
  lemma WaitIsShort(e: Endpoint, now: int)
    requires Words(e, now) && Check(e, now) != now
    ensures e.clk.updated && -10000 <= TimeDiff(now, e.clk.tsFlush) < 0
    ensures 0 < W(Check(e, now) - now) <= TimeDiff(e.clk.tsFlush, now) <= 10000
    ensures W(Check(e, now) - now) <= e.cfg.interval
  {
    TimeZero(now);
    Opposite(now, e.clk.tsFlush);
    SoonestPositive(e.snd.buf, now);
    hide TimeDiff, SoonestResend, W;
    var s := SoonestResend(e.snd.buf, now);
    Offset(now, Min(Min(s.ms, TimeDiff(e.clk.tsFlush, now)), e.cfg.interval));
  }

  lemma TimeZero(now: int)
    ensures TimeDiff(now, now) == 0
  {
  }

  lemma Offset(now: int, k: int)
    requires 0 <= k <= 10000
    ensures W(W(now + k) - now) == k
  {
  }

  lemma {:induction false} SoonestPositive(buf: seq<S.Segment>, now: int)
    ensures var s := SoonestResend(buf, now); s.In? ==> 0 < s.ms <= 0x7fff_ffff
  {
    if buf != [] { SoonestPositive(buf[..|buf| - 1], now); }
  }

  /** Calling `ikcp_update` before the time `ikcp_check` names sets the clock and nothing else. */
  lemma QuietUntilCheck(m: Numbering, e: Endpoint, now: int, t: int)
    requires Words(e, now) && Before(now, t, Check(e, now))
    ensures Update(m, e, t) == Flushed(AtTime(e, t), [])
  {
    assert Check(e, now) != now by { assert W(now - now) == 0; }
    WaitIsShort(e, now);
    TimeBetween(now, t, e.clk.tsFlush);
    NotYet(m, e, t);
  }

  lemma TimeBetween(now: int, t: int, due: int)
    requires 0 <= t < TWO32 && 0 <= due < TWO32
    requires W(t - now) < TimeDiff(due, now) <= 10000
    ensures -10000 <= TimeDiff(t, due) < 0
  {
    var d, f := W(t - now), TimeDiff(due, now);
    Rebase(now, t, d);
    Rebase(now, due, f);
    DiffOfNear(now + d, now + f);
  }

  /** A time named relative to another. */
  lemma Rebase(now: int, t: int, d: int)
    requires 0 <= t < TWO32 && W(d) == W(t - now)
    ensures t == W(now + d)
  {
    var k := (t - now) / TWO32 - d / TWO32;
    assert t - now - d == k * TWO32;
    assert (now + d) + k * TWO32 == t;
    AddWraps(now + d, k);
  }

  lemma AddWraps(x: int, k: int)
    ensures W(x + k * TWO32) == W(x)
  {
    var y := x + k * TWO32;
    assert y - W(y) == TWO32 * (y / TWO32) && x - W(x) == TWO32 * (x / TWO32);
  }

  lemma NotYet(m: Numbering, e: Endpoint, t: int)
    requires e.clk.updated && -10000 <= TimeDiff(t, e.clk.tsFlush) < 0
    ensures Update(m, e, t) == Flushed(AtTime(e, t), [])
  {
  }

  function Poll(m: Numbering, e: Endpoint, ts: seq<int>): Flushed {
    if ts == [] then Flushed(e, [])
    else
      var f := Poll(m, e, ts[..|ts| - 1]);
      var g := Update(m, f.e, ts[|ts| - 1]);
      Flushed(g.e, f.out + g.out)
  }

  /** Polling any number of times before that moment hands out nothing and leaves the
      control block as one clock setting would. */
  lemma {:induction false} PollingIsQuiet(m: Numbering, e: Endpoint, now: int, ts: seq<int>)
    requires Words(e, now) && forall i :: 0 <= i < |ts| ==> Before(now, ts[i], Check(e, now))
    ensures Poll(m, e, ts) == Flushed(if ts == [] then e else AtTime(e, ts[|ts| - 1]), [])
  {
    if ts != [] {
      var n := |ts| - 1;
      PollingIsQuiet(m, e, now, ts[..n]);
      var f := Poll(m, e, ts[..n]).e;
      CheckIgnoresClock(e, f, now);
      hide Check, Update;
      QuietUntilCheck(m, f, now, ts[n]);
    }
  }

  lemma CheckIgnoresClock(e: Endpoint, f: Endpoint, now: int)
    requires f == e || f == AtTime(e, f.clk.current)
    ensures Check(f, now) == Check(e, now)
  {
    hide SoonestResend, TimeDiff;
  }

  // ---------------------------------------------------------------- after a flush

  /** The retransmission time a walk gives the segment can be told from the present: its
      timeout has not outgrown 31 bits, and one left waiting is not exactly half the clock
      away. */
  predicate Timely(w: Walk, s: S.Segment) {
    match ActionFor(w, s)
    case First => true
    case Timeout => 0 < W(s.rto + (if w.noDelay then w.rto / 2 else w.rto)) < HALF
    case Fast => 0 < W(s.rto) < HALF
    case Wait => W(s.resendts - w.now) != HALF
  }

  lemma ResendIsLater(w: Walk, s: S.Segment)
    requires 30 <= w.rto <= T.RTO_MAX && 0 <= w.rtoMin <= w.rto && 0 <= w.now < TWO32
    ensures TimeDiff(Resend(w, s).resendts, w.now) > 0 <==> Timely(w, s)
  {
    hide TimeDiff;
    match ActionFor(w, s)
    case First => LaterBy(w.now, w.rto + w.rtoMin);
    case Timeout => LaterBy(w.now, W(s.rto + (if w.noDelay then w.rto / 2 else w.rto)));
    case Fast => LaterBy(w.now, s.rto);
    case Wait => Opposite(w.now, s.resendts);
  }

  lemma Opposite(a: int, b: int)
    ensures W(a - b) == if W(b - a) == 0 then 0 else TWO32 - W(b - a)
    ensures TimeDiff(a, b) == if W(b - a) == HALF then -HALF else -TimeDiff(b, a)
    ensures W(b - a) == HALF ==> TimeDiff(b, a) == -HALF
  {
    var x := b - a;
    assert x == TWO32 * (x / TWO32) + W(x);
    assert -x == TWO32 * (-(x / TWO32) - 1) + (TWO32 - W(x));
    AddWraps(TWO32 - W(x), -(x / TWO32) - 1);
    AddWraps(0, -(x / TWO32));
  }

  lemma LaterBy(now: int, k: int)
    ensures TimeDiff(W(now + k), now) > 0 <==> 0 < W(k) < HALF
  {
    assert W(W(now + k) - now) == W(k);
  }

  lemma {:induction false} SoonestIsDue(buf: seq<S.Segment>, now: int)
    ensures SoonestResend(buf, now).In? <==> forall i :: 0 <= i < |buf| ==> TimeDiff(buf[i].resendts, now) > 0
  {
    if buf != [] {
      var n := |buf| - 1;
      SoonestIsDue(buf[..n], now);
      if forall i :: 0 <= i < |buf| ==> TimeDiff(buf[i].resendts, now) > 0 {
        assert forall i :: 0 <= i < n ==> buf[..n][i] == buf[i];
      } else {
        var i :| 0 <= i < |buf| && TimeDiff(buf[i].resendts, now) <= 0;
        if i < n { assert buf[..n][i] == buf[i]; }
      }
    }
  }

  /** The flush schedule right after a tick: the next one is 1 to `interval` ms away. */
  lemma NextFlush(e: Endpoint, now: int)
    requires Words(e, now) && Ticks(e, now)
    ensures var t := Ticked(e, now).clk.tsFlush;
            0 <= t < TWO32 && 0 < TimeDiff(t, now) <= e.cfg.interval && TimeDiff(now, t) == -TimeDiff(t, now)
  {
    var d := NextIs(e, now);
    NearNow(now, d);
    hide Ticked, TimeDiff, W;
  }

  lemma NearNow(now: int, d: int)
    requires 0 <= now < TWO32 && 0 < d <= 5000
    ensures TimeDiff(W(now + d), now) == d && TimeDiff(now, W(now + d)) == -d
  {
    DiffOfNear(now + d, now);
    DiffOfNear(now, now + d);
  }

  lemma NextIs(e: Endpoint, now: int) returns (d: int)
    requires Words(e, now) && Ticks(e, now)
    ensures 0 < d <= e.cfg.interval && Ticked(e, now).clk.tsFlush == W(now + d)
  {
    var ts := Reset(if e.clk.updated then e.clk.tsFlush else now, now);
    var k := e.cfg.interval;
    SlapIsShort(e, now);
    d := k - TimeDiff(now, ts);
    Advance(now, ts, k);
    if d <= 0 { d := k; }
  }

  lemma Advance(now: int, ts: int, k: int)
    requires 0 <= ts < TWO32 && 0 <= now < TWO32 && 0 <= TimeDiff(now, ts) < 10000 && 0 <= k <= 5000
    ensures var d := k - TimeDiff(now, ts); W(ts + k) == W(now + d) && TimeDiff(now, W(ts + k)) == -d
  {
    hide TimeDiff, W;
    var slap := TimeDiff(now, ts);
    SlapBack(now, ts);
    AddInside(now - slap, k);
    DiffOfNear(now, now - slap + k);
    WordIsItself(now);
  }

  lemma WordIsItself(x: Word)
    ensures W(x) == x
  {
  }

  lemma AddInside(x: int, k: int)
    ensures W(W(x) + k) == W(x + k)
  {
  }

  lemma SlapBack(now: int, ts: int)
    requires 0 <= ts < TWO32
    ensures ts == W(now - TimeDiff(now, ts))
  {
    var d := now - TimeDiff(now, ts);
    assert W(TimeDiff(now, ts)) == W(now - ts);
    var k := (now - ts - TimeDiff(now, ts)) / TWO32;
    assert now - ts - TimeDiff(now, ts) == TWO32 * k;
    AddWraps(ts, k);
  }

  lemma SlapIsShort(e: Endpoint, now: int)
    requires Words(e, now) && Ticks(e, now)
    ensures var ts := Reset(if e.clk.updated then e.clk.tsFlush else now, now);
            0 <= TimeDiff(now, ts) < 10000 && 0 <= ts < TWO32
  {
    assert TimeDiff(now, now) == 0;
  }

  /** The segments that were in `snd_buf` when the update came. */
  predicate AllTimely(e: Endpoint, now: int) {
    forall i :: 0 <= i < |e.snd.buf| ==> Timely(WalkFor(Ticked(e, now)), e.snd.buf[i])
  }

  lemma AdmittedTimely(e: Endpoint)
    ensures (forall i :: 0 <= i < |Admitted(Unbounded, e).buf| ==> Timely(WalkFor(e), Admitted(Unbounded, e).buf[i]))
       <==> (forall i :: 0 <= i < |e.snd.buf| ==> Timely(WalkFor(e), e.snd.buf[i]))
  {
    var a := Admitted(Unbounded, e).buf;
    var w, t := Window(e.cfg, e.cong), Template(e);
    AdmitMoves(e.snd, w, t, e.clk.current, e.rtt.rto);
    forall i | |e.snd.buf| <= i < |a| ensures Timely(WalkFor(e), a[i]) {
      AdmitNumbers(e.snd, w, t, e.clk.current, e.rtt.rto, i - |e.snd.buf|);
    }
    assert forall i :: 0 <= i < |e.snd.buf| ==> a[i] == e.snd.buf[i];
  }

  lemma FlushedSegments(e: Endpoint)
    requires 30 <= e.rtt.rto <= T.RTO_MAX && 0 <= e.clk.current < TWO32
    ensures (forall i :: 0 <= i < |FlushState(Unbounded, e).snd.buf| ==>
               TimeDiff(FlushState(Unbounded, e).snd.buf[i].resendts, e.clk.current) > 0)
       <==> (forall i :: 0 <= i < |e.snd.buf| ==> Timely(WalkFor(e), e.snd.buf[i]))
  {
    var a := Admitted(Unbounded, e).buf;
    var w := WalkFor(e);
    var b := FlushState(Unbounded, e).snd.buf;
    forall i | 0 <= i < |a| ensures TimeDiff(b[i].resendts, w.now) > 0 <==> Timely(w, a[i]) {
      WalkAt(w, a, i);
      ResendIsLater(w, a[i]);
    }
    AdmittedTimely(e);
  }

  /** What `ikcp_check` answers when the next flush is `due` ms away. */
  lemma CheckWhenDue(f: Endpoint, now: int, due: int)
    requires f.clk.updated && 0 <= now < TWO32 && 0 < due == TimeDiff(f.clk.tsFlush, now) <= f.cfg.interval <= 5000
    requires TimeDiff(now, f.clk.tsFlush) == -due
    ensures SoonestResend(f.snd.buf, now).Due? ==> Check(f, now) == now
    ensures SoonestResend(f.snd.buf, now).In? ==> 0 < W(Check(f, now) - now) <= f.cfg.interval
  {
    assert Reset(f.clk.tsFlush, now) == f.clk.tsFlush;
    SoonestPositive(f.snd.buf, now);
    var s := SoonestResend(f.snd.buf, now);
    if s.In? { Offset(now, Min(Min(s.ms, due), f.cfg.interval)); }
  }

  /** Right after an update that flushed, `ikcp_check` names a time 1 to `interval` ms away
      exactly when every segment that was in flight is timely; otherwise it asks to be called
      again at once. */
  lemma CheckAfterUpdate(e: Endpoint, now: int)
    requires Words(e, now) && Ticks(e, now) && 30 <= e.rtt.rto <= T.RTO_MAX
    ensures var c := Check(Update(Unbounded, e, now).e, now);
            && (AllTimely(e, now) ==> 0 < W(c - now) <= e.cfg.interval)
            && (!AllTimely(e, now) ==> c == now)
  {
    hide FlushState, SoonestResend, Pack, FlushPackets;
    var t := Ticked(e, now);
    UpdateIs(Unbounded, e, now);
    NextFlush(e, now);
    FlushedSegments(t);
    var f := FlushState(Unbounded, t);
    SoonestIsDue(f.snd.buf, now);
    ScheduleKept(t);
    CheckWhenDue(f, now, TimeDiff(t.clk.tsFlush, now));
  }

  lemma ScheduleKept(e: Endpoint)
    ensures var f := FlushState(Unbounded, e);
            f.clk.tsFlush == e.clk.tsFlush && f.clk.updated == e.clk.updated && f.cfg == e.cfg
  {
  }

  /** `ikcp_check` does not look at sequence numbers, so the same holds of the 32-bit code. */
  lemma CheckIgnoresNumbers(e: Endpoint, now: int)
    ensures Check(Wrap.WrapE(e), now) == Check(e, now)
  {
    SoonestIgnoresNumbers(e.snd.buf, now);
  }

  lemma {:induction false} SoonestIgnoresNumbers(buf: seq<S.Segment>, now: int)
    ensures SoonestResend(Wrap.WrapSegs(buf), now) == SoonestResend(buf, now)
  {
    if buf != [] {
      var n := |buf| - 1;
      assert Wrap.WrapSegs(buf)[..n] == Wrap.WrapSegs(buf[..n]);
      SoonestIgnoresNumbers(buf[..n], now);
    }
  }

  lemma InRange(u: Endpoint, now: int)
    requires EndpointInv(u) && 0 <= now < TWO32
    ensures 30 <= u.rtt.rto <= T.RTO_MAX && Words(u, now)
  {
  }

  lemma CheckWhenWrapped(u: Endpoint, now: int)
    requires EndpointInv(u) && 0 <= now < TWO32 && Ticks(u, now)
    ensures var c := Check(Update(Mod32, Wrap.WrapE(u), now).e, now);
            && (AllTimely(u, now) ==> 0 < W(c - now) <= u.cfg.interval)
            && (!AllTimely(u, now) ==> c == now)
  {
    hide Update, Check, EndpointInv, Wrap.WrapE, AllTimely, Ticks, W, Words;
    InRange(u, now);
    Wrap.UpdateWraps(u, now);
    CheckIgnoresNumbers(Update(Unbounded, u, now).e, now);
    CheckAfterUpdate(u, now);
  }

  /** Whether a segment is timely does not depend on its numbers. */
  lemma TimelyIgnoresNumbers(u: Endpoint, now: int)
    ensures AllTimely(Wrap.WrapE(u), now) <==> AllTimely(u, now)
    ensures Ticks(Wrap.WrapE(u), now) <==> Ticks(u, now)
  {
    var e := Wrap.WrapE(u);
    var w, v := WalkFor(Ticked(u, now)), WalkFor(Ticked(e, now));
    forall i | 0 <= i < |u.snd.buf| ensures Timely(w, u.snd.buf[i]) <==> Timely(v, e.snd.buf[i]) {
      assert e.snd.buf[i] == Wrap.WrapSeg(u.snd.buf[i]);
    }
  }

  /** The same of the 32-bit code after any API calls, whatever bytes arrived. */
  lemma CheckAfterUpdate32(cfg: Config, cs: seq<Runs.Call>, now: int)
    requires ValidConfig(cfg) && Runs.ValidCalls(cs) && 0 <= now < TWO32 && Ticks(Runs.RunCalls(cfg, cs), now)
    ensures var e := Runs.RunCalls(cfg, cs); var c := Check(Update(Mod32, e, now).e, now);
            && (AllTimely(e, now) ==> 0 < W(c - now) <= cfg.interval)
            && (!AllTimely(e, now) ==> c == now)
  {
    hide Update, Check, EndpointInv, Wrap.WrapE, AllTimely, Ticks, Runs.RunCalls, W, Runs.ValidCalls, ValidConfig;
    var u := Runs.CallsRun(cfg, cs);
    TimelyIgnoresNumbers(u, now);
    CheckWhenWrapped(u, now);
  }

  /** And after any API calls, polling before the time that `ikcp_check` names hands out nothing
      and only sets the clock. */
  lemma PollingIsQuiet32(cfg: Config, cs: seq<Runs.Call>, now: int, ts: seq<int>)
    requires ValidConfig(cfg) && Runs.ValidCalls(cs) && 0 <= now < TWO32
    requires forall i :: 0 <= i < |ts| ==> Before(now, ts[i], Check(Runs.RunCalls(cfg, cs), now))
    ensures var e := Runs.RunCalls(cfg, cs);
            Poll(Mod32, e, ts) == Flushed(if ts == [] then e else AtTime(e, ts[|ts| - 1]), [])
  {
    var u := Runs.CallsRun(cfg, cs);
    assert Words(Runs.RunCalls(cfg, cs), now);
    PollingIsQuiet(Mod32, Runs.RunCalls(cfg, cs), now, ts);
  }

  // ---------------------------------------------------------------- a segment half the clock away

  /** When a segment first sent at time 0 is due to be sent again. */
  function DueTime(cfg: Config): int {
    if cfg.noDelay then 200 else 225
  }

  /** The clock jumping to half its range away from that time is enough: the segment is neither
      due nor in the future, and `ikcp_check` answers at once, whatever the interval. */
  lemma UntimelyReachable(cfg: Config, x: Byte)
    requires ValidConfig(cfg) && cfg.noCwnd
    ensures var cs := [Runs.Send(1, [x]), Runs.Update(0)]; var now := DueTime(cfg) + HALF;
            && Runs.ValidCalls(cs)
            && Ticks(Runs.RunCalls(cfg, cs), now) && !AllTimely(Runs.RunCalls(cfg, cs), now)
            && Check(Update(Mod32, Runs.RunCalls(cfg, cs), now).e, now) == now
  {
    var cs := [Runs.Send(1, [x]), Runs.Update(0)];
    var now := DueTime(cfg) + HALF;
    var e := OneSent(cfg, x);
    HalfAway(e, now);
    hide Runs.RunCalls, Ticks, AllTimely, Update, Check;
    CheckAfterUpdate32(cfg, cs, now);
  }

  lemma HalfAway(e: Endpoint, now: int)
    requires ValidConfig(e.cfg) && e.clk.updated && e.clk.tsFlush == e.cfg.interval
    requires |e.snd.buf| == 1 && e.snd.buf[0].xmit == 1 && e.snd.buf[0].fastack == 0
    requires 200 <= e.snd.buf[0].resendts <= 225 && now == e.snd.buf[0].resendts + HALF
    ensures Ticks(e, now) && !AllTimely(e, now)
  {
    var s := e.snd.buf[0];
    assert TimeDiff(now, s.resendts) == -HALF && W(s.resendts - now) == HALF;
    assert !Timely(WalkFor(Ticked(e, now)), s);
  }

  lemma OneSent(cfg: Config, x: Byte) returns (e: Endpoint)
    requires ValidConfig(cfg) && cfg.noCwnd
    ensures var cs := [Runs.Send(1, [x]), Runs.Update(0)];
            Runs.ValidCalls(cs) && e == Runs.RunCalls(cfg, cs)
    ensures e.clk.updated && e.clk.tsFlush == cfg.interval && e.cfg == cfg
    ensures |e.snd.buf| == 1 && e.snd.buf[0].xmit == 1 && e.snd.buf[0].fastack == 0
    ensures e.snd.buf[0].resendts == DueTime(cfg)
  {
    Runs.RunOneMore(cfg, [], Runs.Send(1, [x]));
    Runs.RunOneMore(cfg, [Runs.Send(1, [x])], Runs.Update(0));
    assert [] + [Runs.Send(1, [x])] == [Runs.Send(1, [x])];
    assert [Runs.Send(1, [x])] + [Runs.Update(0)] == [Runs.Send(1, [x]), Runs.Update(0)];
    assert Runs.RunCalls(cfg, []) == Create(cfg);
    OneQueued(Create(cfg), x);
    hide Runs.RunCalls, Update, E.Send;
    e := FirstFlush(E.Send(Create(cfg), 1, [x]).e, S.Chunk(0, [x]));
  }

  lemma OneQueued(e: Endpoint, x: Byte)
    requires e.cfg.mss > 1 && e.snd.queue == []
    ensures E.Send(e, 1, [x]).e == e.(snd := e.snd.(queue := [S.Chunk(0, [x])]))
  {
    assert [x][..1] == [x] && S.Fragments(e.cfg.mss, e.cfg.stream, [], 0) == [];
    assert S.Fragments(e.cfg.mss, e.cfg.stream, [x], 1) == [S.Chunk(0, [x])];
  }

  lemma FirstFlush(a: Endpoint, c: S.Chunk) returns (e: Endpoint)
    requires ValidConfig(a.cfg) && a.cfg.noCwnd && a == Create(a.cfg).(snd := S.Sender([c], [], 0, 0))
    ensures e == Update(Mod32, a, 0).e
    ensures e.clk.updated && e.clk.tsFlush == a.cfg.interval && e.cfg == a.cfg
    ensures |e.snd.buf| == 1 && e.snd.buf[0].xmit == 1 && e.snd.buf[0].fastack == 0
    ensures e.snd.buf[0].resendts == DueTime(a.cfg)
  {
    hide Ticked, Ticks, FlushState, Pack, FlushPackets, Admitted, Resend, Update, Template, WalkAll, Window;
    FirstTick(a, c);
    UpdateIs(Mod32, a, 0);
    var t := Ticked(a, 0);
    e := Update(Mod32, a, 0).e;
    assert e == FlushState(Mod32, t);
    FlushedBuf(t);
    var seg := NewSegment(Template(t), c, 0, 0, 200);
    assert Admitted(Mod32, t).buf == [seg] by { OneAdmitted(t, c); }
    FirstTime(WalkFor(t), seg);
    OneWalked(WalkFor(t), seg);
  }

  lemma FirstTick(a: Endpoint, c: S.Chunk)
    requires ValidConfig(a.cfg) && a.cfg.noCwnd && a == Create(a.cfg).(snd := S.Sender([c], [], 0, 0))
    ensures var t := Ticked(a, 0);
            && t.clk.updated && t.clk.tsFlush == a.cfg.interval && t.clk.current == 0
            && t.rtt.rto == 200 && t.cfg == a.cfg && t.snd == a.snd && 0 < Window(t.cfg, t.cong) < HALF
    ensures Ticks(a, 0)
  {
    assert TimeDiff(0, 0) == 0;
    assert TimeDiff(0, W(a.cfg.interval)) == -a.cfg.interval;
  }

  lemma OneWalked(w: Walk, s: S.Segment)
    ensures WalkAll(w, [s]).buf == [Resend(w, s)]
  {
    assert [s][..0] == [];
  }

  lemma OneAdmitted(t: Endpoint, c: S.Chunk)
    requires t.snd == S.Sender([c], [], 0, 0) && t.clk.current == 0 && t.rtt.rto == 200
    requires 0 < Window(t.cfg, t.cong) < HALF
    ensures Admitted(Mod32, t).buf == [NewSegment(Template(t), c, 0, 0, 200)]
  {
    FirstAdmitted(t.snd, Window(t.cfg, t.cong), Template(t), c);
  }

  lemma FlushedBuf(e: Endpoint)
    ensures FlushState(Mod32, e).snd.buf == WalkAll(WalkFor(e), Admitted(Mod32, e).buf).buf
    ensures FlushState(Mod32, e).clk.tsFlush == e.clk.tsFlush && FlushState(Mod32, e).clk.updated == e.clk.updated
    ensures FlushState(Mod32, e).cfg == e.cfg
  {
  }

  lemma FirstTime(w: Walk, s: S.Segment)
    requires s.xmit == 0 && s.fastack == 0 && w.now == 0 && w.rto == 200 && 0 <= w.rtoMin <= 25
    ensures Resend(w, s).xmit == 1 && Resend(w, s).fastack == 0 && Resend(w, s).resendts == 200 + w.rtoMin
  {
  }

  lemma FirstAdmitted(s: S.Sender, window: int, t: Packet, c: S.Chunk)
    requires s == S.Sender([c], [], 0, 0) && 0 < window < HALF
    ensures Admit(Mod32, s, window, t, 0, 200).buf == [NewSegment(t, c, 0, 0, 200)]
  {
    assert s.queue[1..] == [];
    assert TimeDiff(0, W(window)) < 0;
  }
}
