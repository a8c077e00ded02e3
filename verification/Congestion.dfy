/** Congestion control: window growth at the end of `ikcp_input`, and the window cuts at
    the end of `ikcp_flush`, in 32-bit unsigned arithmetic. */
module Congestion {
  import opened Word32

  const THRESH_MIN: int := 2

  datatype Congestion = Congestion(cwnd: int, ssthresh: int, incr: int, rmtWnd: int)

  /** The growth of the window when `snd_una` has advanced. */
  function Grow(c: Congestion, mss: int): Congestion
    requires mss > 0
  {
    if c.cwnd >= c.rmtWnd then c
    else
      var g := if c.cwnd < c.ssthresh then c.(cwnd := W(c.cwnd + 1), incr := W(c.incr + mss))
               else Avoid(c, mss);
      if g.cwnd > g.rmtWnd then g.(cwnd := g.rmtWnd, incr := W(g.rmtWnd * mss)) else g
  }

  function Avoid(c: Congestion, mss: int): Congestion
    requires mss > 0
  {
    var base := if c.incr < mss then mss else c.incr;
    var incr := W(base + W(mss * mss) / base + mss / 16);
    if W((c.cwnd + 1) * mss) <= incr then c.(cwnd := W(c.cwnd + 1), incr := incr) else c.(incr := incr)
  }

  /** The same growth in integers that do not wrap; the cap at the remote window has nothing to do. */
  function Grown(c: Congestion, mss: int): Congestion
    requires mss > 0
  {
    if c.cwnd >= c.rmtWnd then c
    else if c.cwnd < c.ssthresh then c.(cwnd := c.cwnd + 1, incr := c.incr + mss)
    else
      var base := Max(c.incr, mss);
      var incr := base + Share(mss, base) + mss / 16;
      c.(incr := incr, cwnd := if (c.cwnd + 1) * mss <= incr then c.cwnd + 1 else c.cwnd)
  }

  function Half(window: int): int {
    Max(THRESH_MIN, window / 2)
  }

  /** Fast retransmission, then loss, then the floor of one segment. */
  function Cut(c: Congestion, mss: int, fast: bool, lost: bool, inflight: int, resent: int, window: int): Congestion {
    var c1 := if fast then
                var cwnd := W(Half(inflight) + resent);
                c.(ssthresh := Half(inflight), cwnd := cwnd, incr := W(cwnd * mss))
              else c;
    var c2 := if lost then c1.(ssthresh := Half(window), cwnd := 1, incr := W(mss)) else c1;
    if c2.cwnd < 1 then c2.(cwnd := 1, incr := W(mss)) else c2
  }

  /** The two ways of counting the window agree. */
  predicate Accounted(c: Congestion, mss: int)
    requires mss > 0
  {
    && c.ssthresh >= THRESH_MIN
    && 0 <= c.cwnd && 0 <= c.incr && c.cwnd == c.incr / mss
  }

  lemma QuotientIs(a: int, b: int, q: int)
    requires b > 0
    ensures a / b == q <==> q * b <= a < (q + 1) * b
  {
    if q * b <= a < (q + 1) * b {
      var r := a / b;
      if r < q { Scale(r + 1, q, b); }
      if r > q { Scale(q + 1, r, b); }
    }
  }

  lemma Scale(x: int, y: int, k: int)
    requires x <= y && k >= 0
    ensures x * k <= y * k
  {
  }

  lemma QuotientBelow(a: int, b: int)
    requires a >= 0 && b > 0
    ensures 0 <= a / b && a / b * b <= a
  {
  }

  lemma CancelFactor(x: int, y: int, k: int)
    requires k > 0 && x * k <= y * k
    ensures x <= y
  {
    if x > y { Scales(y, x, k); }
  }

  lemma Scales(x: int, y: int, k: int)
    requires k > 0 && x < y
    ensures x * k < y * k
  {
    Scale(x + 1, y, k);
    assert (x + 1) * k == x * k + k;
  }

  /** What one acknowledged flight adds in congestion avoidance, apart from a sixteenth. */
  function Share(mss: int, incr: int): int
    requires incr > 0
  {
    mss * mss / incr
  }

  /** In congestion avoidance one acknowledged flight adds less than one segment. */
  lemma AvoidStep(incr: int, cwnd: int, mss: int)
    requires mss > 0 && cwnd >= 2 && cwnd * mss <= incr
    ensures incr > 0 && 0 <= Share(mss, incr) && Share(mss, incr) + mss / 16 < mss
  {
    Scale(2, cwnd, mss);
    Scale(0, mss, mss);
    var q := mss * mss / incr;
    QuotientBelow(mss * mss, incr);
    Scale(2 * mss, incr, q);
    assert (2 * q) * mss == (2 * mss) * q;
    CancelFactor(2 * q, mss, mss);
    if mss < 2 { assert q <= 0; }
  }

  lemma ScaleInto16(x: int, y: int, mss: int)
    requires 0 <= x <= y && 0 < mss <= 65535 && y <= 65536
    ensures 0 <= x * mss <= y * mss < TWO32
  {
    Scale(x, y, mss);
    Scale(mss, 65535, y);
    Scale(y, 65536, 65535);
  }

  /** The account in multiplied form: `cwnd` whole segments and less than one more. */
  predicate Between(cwnd: int, mss: int, incr: int) {
    cwnd * mss <= incr < cwnd * mss + mss
  }

  lemma BetweenIs(cwnd: int, mss: int, incr: int)
    requires mss > 0
    ensures incr / mss == cwnd <==> Between(cwnd, mss, incr)
  {
    QuotientIs(incr, mss, cwnd);
    assert (cwnd + 1) * mss == cwnd * mss + mss;
  }

  lemma SlowStartStep(cwnd: int, mss: int, incr: int)
    requires 0 < mss <= 65535 && 0 <= cwnd < 65535 && Between(cwnd, mss, incr)
    ensures Between(cwnd + 1, mss, incr + mss) && W(incr + mss) == incr + mss && W(cwnd + 1) == cwnd + 1
  {
    ScaleInto16(cwnd + 1, 65535, mss);
    assert (cwnd + 1) * mss == cwnd * mss + mss;
    assert 65535 * mss + mss <= 65536 * 65535;
  }

  lemma GrowSlowStart(c: Congestion, mss: int)
    requires 0 < mss <= 65535 && 0 <= c.rmtWnd < 65536
    requires Accounted(c, mss) && c.cwnd < c.rmtWnd && c.cwnd < c.ssthresh
    ensures Accounted(Grow(c, mss), mss) && Grow(c, mss).cwnd == c.cwnd + 1 && Grow(c, mss) == Grown(c, mss)
  {
    hide Between, Avoid;
    BetweenIs(c.cwnd, mss, c.incr);
    SlowStartStep(c.cwnd, mss, c.incr);
    BetweenIs(c.cwnd + 1, mss, c.incr + mss);
  }

  /** In congestion avoidance nothing wraps. */
  lemma AvoidFits(cwnd: int, mss: int, incr: int)
    requires 0 < mss <= 65535 && 2 <= cwnd < 65535 && 0 <= incr < cwnd * mss + mss + mss
    ensures W(mss * mss) == mss * mss && W((cwnd + 1) * mss) == cwnd * mss + mss && W(incr) == incr
  {
    ScaleInto16(cwnd + 1, 65535, mss);
    ScaleInto16(mss, 65535, mss);
    assert (cwnd + 1) * mss == cwnd * mss + mss;
    assert 65535 * mss + mss <= 65536 * 65535;
  }

  lemma AvoidIs(c: Congestion, mss: int, next: int, incr: int)
    requires 0 < mss <= c.incr && W(mss * mss) == mss * mss && W((c.cwnd + 1) * mss) == next
    requires W(c.incr + Share(mss, c.incr) + mss / 16) == incr
    ensures Avoid(c, mss) == c.(incr := incr, cwnd := if next <= incr then W(c.cwnd + 1) else c.cwnd)
  {
  }

  lemma AvoidExact(c: Congestion, mss: int) returns (incr: int)
    requires 0 < mss <= 65535 && 2 <= c.cwnd < 65535 && Between(c.cwnd, mss, c.incr)
    ensures c.incr <= incr < c.incr + mss && mss <= c.incr
    ensures incr == c.incr + Share(mss, c.incr) + mss / 16
    ensures Avoid(c, mss) == c.(incr := incr, cwnd := if c.cwnd * mss + mss <= incr then c.cwnd + 1 else c.cwnd)
  {
    hide Avoid, Share;
    Scale(2, c.cwnd, mss);
    AvoidStep(c.incr, c.cwnd, mss);
    incr := c.incr + Share(mss, c.incr) + mss / 16;
    AvoidFits(c.cwnd, mss, incr);
    AvoidIs(c, mss, c.cwnd * mss + mss, incr);
  }

  lemma GrowAvoidance(c: Congestion, mss: int)
    requires 0 < mss <= 65535 && 0 <= c.rmtWnd < 65536
    requires Accounted(c, mss) && c.ssthresh <= c.cwnd < c.rmtWnd
    ensures Accounted(Grow(c, mss), mss) && c.cwnd <= Grow(c, mss).cwnd <= c.cwnd + 1
    ensures Grow(c, mss) == Grown(c, mss)
  {
    hide Avoid, Between, Share, W;
    BetweenIs(c.cwnd, mss, c.incr);
    assert (c.cwnd + 1) * mss == c.cwnd * mss + mss;
    var incr := AvoidExact(c, mss);
    NextSegment(c.cwnd, mss, c.incr, incr);
    BetweenIs(c.cwnd, mss, incr);
    BetweenIs(c.cwnd + 1, mss, incr);
  }

  lemma NextSegment(cwnd: int, mss: int, before: int, incr: int)
    requires Between(cwnd, mss, before) && before <= incr < before + mss
    ensures if cwnd * mss + mss <= incr then Between(cwnd + 1, mss, incr) else Between(cwnd, mss, incr)
  {
    assert (cwnd + 1) * mss == cwnd * mss + mss;
  }

  /** Through slow start and congestion avoidance no sum and no product wraps, `cwnd` is
      `incr / mss`, and it stays within the remote window when it grows. */
  lemma GrowKeepsAccount(c: Congestion, mss: int)
    requires 0 < mss <= 65535 && 0 <= c.rmtWnd < 65536
    requires Accounted(c, mss)
    ensures var g := Grow(c, mss);
            && Accounted(g, mss) && g.rmtWnd == c.rmtWnd && g.ssthresh == c.ssthresh
            && c.cwnd <= g.cwnd <= Max(c.cwnd, c.rmtWnd)
    ensures Grow(c, mss) == Grown(c, mss)
  {
    if c.cwnd < c.rmtWnd {
      if c.cwnd < c.ssthresh { GrowSlowStart(c, mss); } else { GrowAvoidance(c, mss); }
    }
  }

  /** The fast-resend threshold: 0xffffffff when fast resend is off. */
  function Resent(fastResend: int): int {
    if fastResend > 0 then fastResend else 0xffff_ffff
  }

  /** The cut window, counted in bytes, fits a word. */
  predicate CutFits(mss: int, fastResend: int, wnd: int) {
    0 < mss <= 65535 && 0 <= wnd < TWO32 &&
    (fastResend > 0 ==> (Half(wnd) + fastResend) * mss < TWO32) &&
    (fastResend <= 0 ==> Half(wnd) * mss < TWO32)
  }

  lemma WholeSegments(n: int, mss: int)
    requires 0 <= n && mss > 0 && n * mss < TWO32
    ensures W(n) == n && W(n * mss) == n * mss && n * mss / mss == n
  {
    Scale(1, mss, n);
    QuotientIs(n * mss, mss, n);
  }

  /** Through fast resend and loss too. */
  lemma CutKeepsAccount(c: Congestion, mss: int, fast: bool, lost: bool, inflight: int, fastResend: int, window: int,
                        wnd: int)
    requires CutFits(mss, fastResend, wnd) && Accounted(c, mss)
    requires 0 <= inflight <= wnd
    ensures var d := Cut(c, mss, fast, lost, inflight, Resent(fastResend), window);
            Accounted(d, mss) && d.cwnd >= 1 && d.rmtWnd == c.rmtWnd
  {
    WholeSegments(1, mss);
    if fast {
      var h := Half(inflight);
      if fastResend > 0 {
        Scale(h + fastResend, Half(wnd) + fastResend, mss);
        WholeSegments(h + fastResend, mss);
      } else {
        assert W(h + 0xffff_ffff) == W(h - 1);
        Scale(h - 1, Half(wnd), mss);
        WholeSegments(h - 1, mss);
      }
    }
  }
}
