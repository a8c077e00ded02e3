/** When `ikcp_update` flushes and what `ikcp_check` answers, told by the times in the block
    alone. */
module WakeUp {
  import opened Word32
  import opened Endpoint
  import E = Endpoint
  import S = Sender

  /** The time of the next flush has come, or lies more than ten seconds ahead. */
  predicate FlushDue(e: Endpoint, now: int) {
    var late := TimeDiff(now, e.clk.tsFlush);
    late >= 0 || late < -10000
  }

  /** The time of the segment's next transmission is not in the future. */
  predicate ResendDue(s: S.Segment, now: int) {
    TimeDiff(s.resendts, now) <= 0
  }

  // ---------------------------------------------------------------- ikcp_check

  /** The loop over `snd_buf` finds the least of the times. */
  lemma {:induction false} SoonestIsLeast(buf: seq<S.Segment>, now: int)
    ensures var s := SoonestResend(buf, now);
            && (s.Due? <==> exists i :: 0 <= i < |buf| && ResendDue(buf[i], now))
            && (s.In? ==> 0 < s.ms && forall i :: 0 <= i < |buf| ==> s.ms <= TimeDiff(buf[i].resendts, now))
            && (s.In? ==> s.ms == 0x7fff_ffff || exists i :: 0 <= i < |buf| && s.ms == TimeDiff(buf[i].resendts, now))
  {
    hide TimeDiff;
    if buf == [] {
    } else {
      var n := |buf| - 1;
      var init := buf[..n];
      SoonestIsLeast(init, now);
      var s := SoonestResend(buf, now);
      if i :| 0 <= i < |init| && ResendDue(init[i], now) { assert ResendDue(buf[i], now); }
      if i :| 0 <= i < |buf| && ResendDue(buf[i], now) {
        if i < n { assert ResendDue(init[i], now); }
      }
      var t := SoonestResend(init, now);
      if t.In? {
        if i :| 0 <= i < |init| && t.ms == TimeDiff(init[i].resendts, now) {
          assert t.ms == TimeDiff(buf[i].resendts, now);
        }
      }
      assert forall i :: 0 <= i < n ==> init[i] == buf[i];
    }
  }

  /** `ikcp_check` says `now` exactly when there is something to do: the block was never updated, a
      flush is due or a segment is due. */
  lemma CheckSaysNowIff(e: Endpoint, now: int)
    requires ValidConfig(e.cfg) && 0 <= now < TWO32
    ensures Check(e, now) == now <==>
              || !e.clk.updated || FlushDue(e, now)
              || exists i :: 0 <= i < |e.snd.buf| && ResendDue(e.snd.buf[i], now)
  {
    hide SoonestResend, ResendDue;
    SoonestIsLeast(e.snd.buf, now);
    if e.clk.updated && !FlushDue(e, now) {
      CheckIs(e, now);
      var s := SoonestResend(e.snd.buf, now);
      if s.In? { NotNow(now, Min(Min(s.ms, TimeDiff(e.clk.tsFlush, now)), e.cfg.interval)); }
    } else if e.clk.updated {
      DueNow(e, now);
    }
  }

  /** Otherwise it names a time that lies before no segment's, not before the flush and within
      the interval, and is one of these. */
  lemma CheckNamesLeast(e: Endpoint, now: int)
    requires ValidConfig(e.cfg) && 0 <= now < TWO32 && Check(e, now) != now
    ensures var wait := W(Check(e, now) - now);
            && Check(e, now) == W(now + wait)
            && 0 < wait <= e.cfg.interval && wait <= TimeDiff(e.clk.tsFlush, now)
            && (forall i :: 0 <= i < |e.snd.buf| ==> wait <= TimeDiff(e.snd.buf[i].resendts, now))
            && (|| wait == e.cfg.interval || wait == TimeDiff(e.clk.tsFlush, now)
                || exists i :: 0 <= i < |e.snd.buf| && wait == TimeDiff(e.snd.buf[i].resendts, now))
  {
    hide SoonestResend;
    CheckSaysNowIff(e, now);
    SoonestIsLeast(e.snd.buf, now);
    CheckIs(e, now);
    var s := SoonestResend(e.snd.buf, now);
    NotNow(now, Min(Min(s.ms, TimeDiff(e.clk.tsFlush, now)), e.cfg.interval));
  }

  lemma CheckIs(e: Endpoint, now: int)
    requires ValidConfig(e.cfg) && e.clk.updated && !FlushDue(e, now)
    ensures 0 < TimeDiff(e.clk.tsFlush, now) <= 10000
    ensures var s := SoonestResend(e.snd.buf, now);
            Check(e, now) == if s.Due? then now
                             else W(now + Min(Min(s.ms, TimeDiff(e.clk.tsFlush, now)), e.cfg.interval))
  {
    OtherWay(e.clk.tsFlush, now);
    hide SoonestResend, TimeDiff, W;
  }

  lemma DueNow(e: Endpoint, now: int)
    requires FlushDue(e, now)
    ensures Check(e, now) == now
  {
    assert TimeDiff(now, now) == 0;
    hide TimeDiff, SoonestResend;
  }

  lemma OtherWay(a: int, b: int)
    requires -HALF < TimeDiff(b, a)
    ensures TimeDiff(a, b) == -TimeDiff(b, a)
  {
  }

  lemma NotNow(now: int, wait: int)
    requires 0 <= now < TWO32 && 0 < wait < HALF
    ensures W(now + wait) != now && W(W(now + wait) - now) == wait
  {
  }

  // ---------------------------------------------------------------- ikcp_update

  /** The time of the flush after the one at `now`. */
  function NextFlush(e: Endpoint, now: int): int {
    var late := TimeDiff(now, e.clk.tsFlush);
    if e.clk.updated && 0 <= late < e.cfg.interval then W(e.clk.tsFlush + e.cfg.interval)
    else W(now + e.cfg.interval)
  }

  /** `ikcp_update` flushes exactly when it is the first one or a flush is due. The next flush is
      then set an interval after the time that was due, or an interval from now if that is past;
      otherwise only the clock is set. */
  lemma UpdateFlushesIff(m: Numbering, e: Endpoint, now: int)
    requires ValidConfig(e.cfg)
    ensures E.Update(m, e, now) ==
              if !e.clk.updated || FlushDue(e, now) then
                E.Flush(m, e.(clk := e.clk.(current := now, updated := true, tsFlush := NextFlush(e, now))))
              else Flushed(e.(clk := e.clk.(current := now)), [])
  {
    hide E.Flush;
    var late := TimeDiff(now, e.clk.tsFlush);
    assert TimeDiff(now, now) == 0;
    LateBy(now, now, e.cfg.interval);
    if 0 <= late < 10000 { LateBy(now, e.clk.tsFlush, e.cfg.interval); }
    hide TimeDiff, W;
  }

  lemma LateBy(now: int, ts: int, interval: int)
    requires 0 <= TimeDiff(now, ts) < 10000 && 10 <= interval <= 5000
    ensures TimeDiff(now, W(ts + interval)) == TimeDiff(now, ts) - interval
  {
  }
}
