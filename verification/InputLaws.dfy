/** What a datagram does to the sending side of a control block, told by the states before and
    after it: which segments are settled and which are counted as overtaken, when the window
    grows, and what the timeout becomes. */
module InputLaws {
  import opened Word32
  import opened Wire
  import opened Endpoint
  import opened Invariant
  import opened Calls
  import E = Endpoint
  import C = Congestion
  import R = Receiver
  import S = Sender
  import T = Rtt

  // ---------------------------------------------------------------- settled segments

  /** The packet says that segment `sn` has arrived. */
  predicate Settles(p: Packet, sn: int) {
    p.una > sn || (p.cmd == CMD_ACK && p.sn == sn)
  }

  predicate Open(ps: Datagram, sn: int) {
    forall j :: 0 <= j < |ps| ==> !Settles(ps[j], sn)
  }

  lemma {:induction false} DropBelowExact(buf: seq<S.Segment>, una: int)
    requires S.Increasing(buf)
    ensures forall s :: s in S.DropBelow(Unbounded, buf, una) <==> s in buf && s.p.sn >= una
  {
    if buf != [] {
      if una > buf[0].p.sn {
        DropBelowExact(buf[1..], una);
        assert buf == [buf[0]] + buf[1..];
      } else {
        forall s | s in buf ensures s.p.sn >= una {
          var i :| 0 <= i < |buf| && buf[i] == s;
          if i > 0 { assert buf[0].p.sn < buf[i].p.sn; }
        }
      }
    }
  }

  lemma {:induction false} RemoveAckedExact(buf: seq<S.Segment>, sn: int)
    requires S.Increasing(buf)
    ensures forall s :: s in S.RemoveAcked(Unbounded, buf, sn) <==> s in buf && s.p.sn != sn
  {
    if buf != [] {
      assert buf == [buf[0]] + buf[1..];
      FirstIsLeast(buf);
      if sn > buf[0].p.sn { RemoveAckedExact(buf[1..], sn); }
    }
  }

  lemma FirstIsLeast(buf: seq<S.Segment>)
    requires S.Increasing(buf) && buf != []
    ensures forall s :: s in buf[1..] ==> buf[0].p.sn < s.p.sn
    ensures S.Increasing(buf[1..])
  {
    forall s | s in buf[1..] ensures buf[0].p.sn < s.p.sn {
      var i :| 0 <= i < |buf| - 1 && buf[1..][i] == s;
      assert buf[i + 1] == s;
    }
  }

  lemma {:induction false} BumpAt(buf: seq<S.Segment>, sn: int, i: nat)
    requires S.Increasing(buf) && i < |buf|
    ensures var b := S.BumpBefore(Unbounded, buf, sn);
            && |b| == |buf|
            && b[i] == if buf[i].p.sn < sn then buf[i].(fastack := W(buf[i].fastack + 1)) else buf[i]
    decreases i
  {
    S.BumpKeepsPackets(Unbounded, buf, sn);
    if i > 0 {
      assert buf[0].p.sn < buf[i].p.sn;
      if sn >= buf[0].p.sn {
        assert S.Increasing(buf[1..]);
        BumpAt(buf[1..], sn, i - 1);
      }
    }
  }

  lemma UnaRemoves(s: S.Sender, una: int)
    requires S.SenderInv(s)
    ensures forall g :: g in S.ParseUna(Unbounded, s, una).buf <==> g in s.buf && g.p.sn >= una
  {
    DropBelowExact(s.buf, una);
  }

  lemma AckRemoves(s: S.Sender, sn: int)
    requires S.SenderInv(s)
    ensures forall g :: g in S.ParseAck(Unbounded, s, sn).buf <==> g in s.buf && g.p.sn != sn
  {
    RemoveAckedExact(s.buf, sn);
  }

  lemma PacketRemoves(i: Inputting, p: Packet)
    requires EndpointInv(i.e) && Arrived(p)
    ensures forall g :: g in InputPacket(Unbounded, i, p).e.snd.buf <==> g in i.e.snd.buf && !Settles(p, g.p.sn)
  {
    hide S.ParseUna, S.ParseAck, R.InputPush, T.UpdateAck, RcvInv, RestInv;
    UnaRemoves(i.e.snd, p.una);
    SndAfterUna(i.e.cfg, i.e.snd, p.una);
    AckRemoves(S.ParseUna(Unbounded, i.e.snd, p.una), p.sn);
  }

  lemma {:induction false} PacketsRemove(i: Inputting, ps: Datagram)
    requires EndpointInv(i.e) && forall p :: p in ps ==> Arrived(p)
    ensures forall g :: g in InputPackets(Unbounded, i, ps).e.snd.buf <==> g in i.e.snd.buf && Open(ps, g.p.sn)
    decreases |ps|
  {
    hide EndpointInv, InputPacket, Arrived, Settles;
    if ps != [] {
      assert ps[0] in ps;
      InputPacketKeepsInv(i, ps[0]);
      PacketRemoves(i, ps[0]);
      var k := InputPacket(Unbounded, i, ps[0]);
      PacketsRemove(k, ps[1..]);
      forall sn ensures Open(ps, sn) <==> !Settles(ps[0], sn) && Open(ps[1..], sn) { OpenStep(ps, sn); }
    }
  }

  lemma OpenStep(ps: Datagram, sn: int)
    requires ps != []
    ensures Open(ps, sn) <==> !Settles(ps[0], sn) && Open(ps[1..], sn)
  {
    hide Settles;
    if Open(ps, sn) {
      assert forall j :: 0 <= j < |ps| - 1 ==> ps[1..][j] == ps[j + 1];
    }
    if Open(ps[1..], sn) {
      assert forall j :: 0 < j < |ps| ==> ps[j] == ps[1..][j - 1];
    }
  }

  // ---------------------------------------------------------------- overtaken segments

  /** `sn` is the greatest number acked, in `ps` or before. */
  predicate Greatest(a: MaxAck, before: MaxAck, ps: Datagram) {
    && (a.NoAck? <==> before.NoAck? && forall j :: 0 <= j < |ps| ==> ps[j].cmd != CMD_ACK)
    && (a.MaxAck? ==>
          && (before.MaxAck? ==> before.sn <= a.sn)
          && (forall j :: 0 <= j < |ps| && ps[j].cmd == CMD_ACK ==> ps[j].sn <= a.sn)
          && (a == before || exists j :: 0 <= j < |ps| && ps[j].cmd == CMD_ACK && ps[j].sn == a.sn))
  }

  lemma {:induction false} AcksGreatest(i: Inputting, ps: Datagram)
    ensures Greatest(InputPackets(Unbounded, i, ps).acks, i.acks, ps)
    decreases |ps|
  {
    if ps != [] {
      hide S.ParseUna, S.ParseAck, R.InputPush, T.UpdateAck;
      var k := InputPacket(Unbounded, i, ps[0]);
      AcksGreatest(k, ps[1..]);
      GreatestStep(InputPackets(Unbounded, i, ps).acks, i.acks, k.acks, ps);
    }
  }

  lemma GreatestStep(a: MaxAck, before: MaxAck, mid: MaxAck, ps: Datagram)
    requires ps != [] && Greatest(a, mid, ps[1..])
    requires mid == if ps[0].cmd == CMD_ACK then Later(Unbounded, before, ps[0].sn) else before
    ensures Greatest(a, before, ps)
  {
    assert forall j :: 0 < j < |ps| ==> ps[j] == ps[1..][j - 1];
    if a.MaxAck? && a != mid {
      var j :| 0 <= j < |ps| - 1 && ps[1..][j].cmd == CMD_ACK && ps[1..][j].sn == a.sn;
      assert ps[j + 1].cmd == CMD_ACK;
    }
  }

  /** The greatest number that is acked lies behind `sn`, and was sent. */
  predicate Overtaken(sn: int, ps: Datagram, nxt: int) {
    exists k :: 0 <= k < |ps| && ps[k].cmd == CMD_ACK && sn < ps[k].sn < nxt
                && forall j :: 0 <= j < |ps| && ps[j].cmd == CMD_ACK ==> ps[j].sn <= ps[k].sn
  }

  function Counted(s: S.Segment, ps: Datagram, nxt: int): S.Segment {
    if Overtaken(s.p.sn, ps, nxt) then s.(fastack := W(s.fastack + 1)) else s
  }

  /** The bumped buffer holds the counted segments. */
  lemma FastAckCounts(i: Inputting, ps: Datagram, g: S.Segment)
    requires S.SenderInv(i.e.snd) && Greatest(i.acks, NoAck, ps) && g in i.e.snd.buf
    ensures Counted(g, ps, i.e.snd.nxt) in FastAck(Unbounded, i).snd.buf
  {
    BumpOne(i, ps, PlaceOf(g, i.e.snd.buf));
  }

  function PlaceOf(g: S.Segment, buf: seq<S.Segment>): (i: nat)
    requires g in buf
    ensures i < |buf| && buf[i] == g
  {
    if buf[0] == g then 0 else 1 + PlaceOf(g, buf[1..])
  }

  lemma BumpOne(i: Inputting, ps: Datagram, j: nat)
    requires S.SenderInv(i.e.snd) && Greatest(i.acks, NoAck, ps) && j < |i.e.snd.buf|
    ensures |FastAck(Unbounded, i).snd.buf| == |i.e.snd.buf|
    ensures FastAck(Unbounded, i).snd.buf[j] == Counted(i.e.snd.buf[j], ps, i.e.snd.nxt)
  {
    var s := i.e.snd;
    if i.acks.MaxAck? {
      hide S.BumpBefore;
      BumpAt(s.buf, i.acks.sn, j);
      var k :| 0 <= k < |ps| && ps[k].cmd == CMD_ACK && ps[k].sn == i.acks.sn;
      OvertakenIff(s.buf[j].p.sn, ps, s.nxt, k);
    }
  }

  lemma OvertakenIff(sn: int, ps: Datagram, nxt: int, k: nat)
    requires k < |ps| && ps[k].cmd == CMD_ACK
    requires forall j :: 0 <= j < |ps| && ps[j].cmd == CMD_ACK ==> ps[j].sn <= ps[k].sn
    ensures Overtaken(sn, ps, nxt) <==> sn < ps[k].sn < nxt
  {
  }

  /** A datagram leaves in `snd_buf` exactly the segments that no packet of it settles, and has
      counted exactly those of them that its greatest ack overtakes. */
  lemma InputLeaves(e: Endpoint, ps: Datagram)
    requires EndpointInv(e) && forall p :: p in ps ==> Arrived(p)
    ensures var buf := E.Input(Unbounded, e, ps).snd.buf;
            && (forall s :: s in e.snd.buf && Open(ps, s.p.sn) ==> Counted(s, ps, e.snd.nxt) in buf)
            && (forall t :: t in buf ==>
                  exists s :: s in e.snd.buf && Open(ps, s.p.sn) && t == Counted(s, ps, e.snd.nxt))
  {
    hide Arrived, Open, Counted, InputPackets, FastAck, Greatest;
    var i := InputPackets(Unbounded, Inputting(e, NoAck), ps);
    InputPacketsKeepInv(Inputting(e, NoAck), ps);
    PacketsRemove(Inputting(e, NoAck), ps);
    AcksGreatest(Inputting(e, NoAck), ps);
    KeepsNxt(Inputting(e, NoAck), ps);
    var buf := E.Input(Unbounded, e, ps).snd.buf;
    assert buf == FastAck(Unbounded, i).snd.buf;
    forall s | s in e.snd.buf && Open(ps, s.p.sn) ensures Counted(s, ps, e.snd.nxt) in buf {
      FastAckCounts(i, ps, s);
    }
    forall t | t in buf ensures exists s :: s in e.snd.buf && Open(ps, s.p.sn) && t == Counted(s, ps, e.snd.nxt) {
      var j := PlaceOf(t, buf);
      SameCount(i);
      BumpOne(i, ps, j);
      assert i.e.snd.buf[j] in i.e.snd.buf;
    }
  }

  lemma SameCount(i: Inputting)
    ensures |FastAck(Unbounded, i).snd.buf| == |i.e.snd.buf|
  {
    if i.acks.MaxAck? { S.BumpKeepsPackets(Unbounded, i.e.snd.buf, i.acks.sn); }
  }

  lemma {:induction false} KeepsNxt(i: Inputting, ps: Datagram)
    ensures InputPackets(Unbounded, i, ps).e.snd.nxt == i.e.snd.nxt
    decreases |ps|
  {
    if ps != [] {
      hide S.DropBelow, S.RemoveAcked, R.InputPush, T.UpdateAck;
      KeepsNxt(InputPacket(Unbounded, i, ps[0]), ps[1..]);
    }
  }

  // ---------------------------------------------------------------- the congestion window

  /** The packets of a datagram change of the congestion record the announced window alone. */
  lemma {:induction false} PacketsKeepWindow(m: Numbering, i: Inputting, ps: Datagram)
    ensures InputPackets(m, i, ps).e.cong
         == i.e.cong.(rmtWnd := if ps == [] then i.e.cong.rmtWnd else ps[|ps| - 1].wnd)
    decreases |ps|
  {
    if ps != [] {
      hide S.ParseUna, S.ParseAck, R.InputPush, T.UpdateAck;
      PacketsKeepWindow(m, InputPacket(m, i, ps[0]), ps[1..]);
      if |ps| > 1 { assert ps[1..][|ps| - 2] == ps[|ps| - 1]; }
    }
  }

  /** The window after `snd_una` has moved, if it is then told `rmt`. */
  predicate Grew(c: C.Congestion, mss: int, rmt: int, d: C.Congestion) {
    && d.ssthresh == c.ssthresh && d.rmtWnd == rmt
    && (c.cwnd >= rmt ==> d.cwnd == c.cwnd && d.incr == c.incr)
    && (c.cwnd < rmt && c.cwnd < c.ssthresh ==> d.cwnd == c.cwnd + 1 && d.incr == c.incr + mss)
    && (c.cwnd < rmt && c.cwnd >= c.ssthresh ==>
          && d.incr == c.incr + mss * mss / Max(1, c.incr) + mss / 16
          && d.cwnd == c.cwnd + (if d.incr >= (c.cwnd + 1) * mss then 1 else 0))
  }

  lemma GrowthIs(c: C.Congestion, mss: int)
    requires 0 < mss <= 65535 && 0 <= c.rmtWnd < 65536 && C.Accounted(c, mss)
    ensures Grew(c, mss, c.rmtWnd, C.Grow(c, mss))
  {
    hide C.Grow;
    C.GrowKeepsAccount(c, mss);
    if c.ssthresh <= c.cwnd {
      C.BetweenIs(c.cwnd, mss, c.incr);
      C.Scale(2, c.cwnd, mss);
    }
  }

  /** What follows the packets. */
  lemma EndGrows(m: Numbering, una: int, i: Inputting)
    requires i.e.cfg.mss > 0
    ensures var f := InputEnd(m, una, i);
            f.cong == if Diff(m, f.snd.una, una) > 0 then C.Grow(i.e.cong, i.e.cfg.mss) else i.e.cong
  {
    hide C.Grow, S.BumpBefore;
  }

  lemma InputBytesWindow(e: Endpoint, bytes: Bytes)
    requires e.cfg.mss > 0
    ensures var r := InputBytes(Mod32, e, bytes); var c := r.e.cong; var d := e.cong.(rmtWnd := c.rmtWnd);
            && (r.code < 0 ==> c == d)
            && (r.code >= 0 ==> c == if TimeDiff(r.e.snd.una, e.snd.una) > 0 then C.Grow(d, e.cfg.mss) else d)
    ensures var r := InputBytes(Mod32, e, bytes); var ps := ParseAll(e.cfg.conv, bytes).packets;
            r.e.cong.rmtWnd == if |bytes| < OVERHEAD || ps == [] then e.cong.rmtWnd else ps[|ps| - 1].wnd
  {
    hide InputPackets, InputEnd, ParseAll, C.Grow;
    if |bytes| >= OVERHEAD {
      var ps := ParseAll(e.cfg.conv, bytes).packets;
      PacketsKeepWindow(Mod32, Inputting(e, NoAck), ps);
      InputKeepsConfig(Mod32, Inputting(e, NoAck), ps);
      var i := InputPackets(Mod32, Inputting(e, NoAck), ps);
      EndGrows(Mod32, e.snd.una, i);
      GrowKeepsRemote(i.e.cong, e.cfg.mss);
    }
  }

  lemma GrowKeepsRemote(c: C.Congestion, mss: int)
    requires mss > 0
    ensures C.Grow(c, mss).rmtWnd == c.rmtWnd
  {
  }

  /** After any calls with windows that fit: a datagram opens the congestion window exactly when it
      is accepted and moves `snd_una`, by one segment in slow start and by the share of
      congestion avoidance after that, below the window announced last; a malformed one
      and one that acknowledges nothing leave it alone. */
  lemma WindowGrowsIff(cfg: Config, cs: seq<Call>, bytes: Bytes)
    requires ValidConfig(cfg) && ValidCalls(cs) && WindowFits(cfg)
    ensures var e := RunCalls(cfg, cs); var r := InputBytes(Mod32, e, bytes); var c := r.e.cong;
            if r.code == 0 && r.e.snd.una != e.snd.una then Grew(e.cong, cfg.mss, c.rmtWnd, c)
            else c == e.cong.(rmtWnd := c.rmtWnd)
    ensures var e := RunCalls(cfg, cs); var ps := ParseAll(cfg.conv, bytes).packets;
            InputBytes(Mod32, e, bytes).e.cong.rmtWnd
            == if |bytes| < OVERHEAD || ps == [] then e.cong.rmtWnd else ps[|ps| - 1].wnd
  {
    hide RunCalls, InputBytes, C.Grow, C.Accounted, CongInv, ParseAll, Grew, TimeDiff;
    var e := RunCalls(cfg, cs);
    var c := Calls.Input(bytes);
    InputBytesWindow(e, bytes);
    NothingGoesBack(cfg, cs, c);
    var r := InputBytes(Mod32, e, bytes);
    MovedIff(cfg, cs, c);
    WindowStaysAccounted(cfg, cs);
    RunOneMore(cfg, cs, c);
    WindowStaysAccounted(cfg, cs + [c]);
    ForRemote(cfg, e.cong, r.e.cong);
    GrowthIs(e.cong.(rmtWnd := r.e.cong.rmtWnd), cfg.mss);
    GrewAgain(e.cong, cfg.mss, r.e.cong.rmtWnd, C.Grow(e.cong.(rmtWnd := r.e.cong.rmtWnd), cfg.mss));
    CodeSign(e, bytes);
  }

  lemma CodeSign(e: Endpoint, bytes: Bytes)
    requires e.cfg.mss > 0
    ensures InputBytes(Mod32, e, bytes).code <= 0
  {
    hide InputPackets, InputEnd, ParseAll;
  }

  lemma GrewAgain(c: C.Congestion, mss: int, rmt: int, d: C.Congestion)
    requires Grew(c.(rmtWnd := rmt), mss, rmt, d)
    ensures Grew(c, mss, rmt, d)
  {
  }

  lemma ForRemote(cfg: Config, c: C.Congestion, d: C.Congestion)
    requires cfg.mss > 0 && CongInv(cfg, c) && CongInv(cfg, d) && WindowFits(cfg)
    ensures C.Accounted(c.(rmtWnd := d.rmtWnd), cfg.mss) && 0 <= d.rmtWnd < 65536 && 0 < cfg.mss <= 65535
  {
  }

  /** `snd_una` has moved on exactly when it is another number. */
  lemma MovedIff(cfg: Config, cs: seq<Call>, c: Call)
    requires ValidConfig(cfg) && ValidCalls(cs) && ValidCall(c)
    ensures var e := RunCalls(cfg, cs); var f := Apply(e, c);
            TimeDiff(f.snd.una, e.snd.una) > 0 <==> f.snd.una != e.snd.una
  {
    hide Apply, EndpointInv;
    var u := CallsRun(cfg, cs);
    var v := CallStep(u, c);
    NothingGoesBack(cfg, cs, c);
    MovedWords(Apply(RunCalls(cfg, cs), c).snd.una, RunCalls(cfg, cs).snd.una);
  }

  lemma MovedWords(a: Word, b: Word)
    requires TimeDiff(a, b) >= 0
    ensures TimeDiff(a, b) > 0 <==> a != b
  {
  }

  // ---------------------------------------------------------------- one packet

  lemma OnePacket(e: Endpoint, p: Packet)
    requires e.cfg.mss > 0 && Sendable(e.cfg.conv, p)
    ensures var i := InputPacket(Mod32, Inputting(e, NoAck), p);
            && i.e.cfg == e.cfg
            && InputBytes(Mod32, e, EncodeAll([p])) == InputResult(0, InputEnd(Mod32, e.snd.una, i))
  {
    hide InputPacket, EncodeAll, ParseAll, InputEnd;
    ParseOfEncode(e.cfg.conv, [p]);
    OneIsLong(p);
    InputKeepsConfig(Mod32, Inputting(e, NoAck), [p]);
    assert [p][1..] == [];
    assert InputPackets(Mod32, Inputting(e, NoAck), [p]) == InputPacket(Mod32, Inputting(e, NoAck), p);
  }

  lemma OneIsLong(p: Packet)
    ensures |EncodeAll([p])| >= OVERHEAD
  {
    assert [p][..0] == [];
  }

  // ---------------------------------------------------------------- the timeout

  /** What an ack of age `r` makes of the estimates: sections 2.2 and 2.3 of RFC 6298. */
  predicate Sampled(before: T.Rtt, interval: int, minRto: int, r: int, after: T.Rtt) {
    if before.srtt == 0 then after == T.Rtt(r, r / 2, T.FirstRto(interval, minRto, r))
    else
      && after.srtt == Max(1, (7 * before.srtt + r) / 8)
      && after.rttval == (3 * before.rttval + Max(r - before.srtt, before.srtt - r)) / 4
      && after.rto == Min(T.RTO_MAX, Max(minRto, after.srtt + Max(interval, 4 * after.rttval)))
  }

  lemma AckIsSampled(e: Endpoint, p: Packet, limit: int)
    requires ValidConfig(e.cfg) && Sendable(e.cfg.conv, p) && p.cmd == CMD_ACK
    requires T.Bounded(e.rtt, limit) && TimeDiff(e.clk.current, p.ts) <= limit < 0x1000_0000
    ensures var r := TimeDiff(e.clk.current, p.ts); var f := InputBytes(Mod32, e, EncodeAll([p])).e;
            if r >= 0 then Sampled(e.rtt, e.cfg.interval, e.cfg.minRto, r, f.rtt) else f.rtt == e.rtt
  {
    hide InputBytes, EncodeAll, S.ParseUna, S.ParseAck, S.ParseFastAck, TimeDiff, C.Grow, T.UpdateAck;
    OnePacket(e, p);
    var r := TimeDiff(e.clk.current, p.ts);
    if r >= 0 { T.SampleKeepsBound(e.rtt, e.cfg.interval, e.cfg.minRto, r, limit); }
  }

  /** No ack has reached the block. */
  predicate NoAcks(conv: int, c: Call) {
    c.Input? ==> forall p :: p in ParseAll(conv, c.bytes).packets ==> p.cmd != CMD_ACK
  }

  lemma {:induction false} PacketsKeepRtt(m: Numbering, i: Inputting, ps: Datagram)
    requires forall p :: p in ps ==> p.cmd != CMD_ACK
    ensures InputPackets(m, i, ps).e.rtt == i.e.rtt
    decreases |ps|
  {
    if ps != [] {
      hide S.ParseUna, R.InputPush;
      assert ps[0] in ps;
      PacketsKeepRtt(m, InputPacket(m, i, ps[0]), ps[1..]);
    }
  }

  lemma ApplyKeepsRtt(e: Endpoint, c: Call)
    requires e.cfg.mss > 0 && ValidCall(c) && NoAcks(e.cfg.conv, c)
    ensures Apply(e, c).rtt == e.rtt
  {
    hide S.Send, R.Recv, Admitted, WalkAll, Pack, FlushPackets, InputPackets, ParseAll, C.Grow, C.Cut, S.ParseFastAck;
    if c.Input? {
      PacketsKeepRtt(Mod32, Inputting(e, NoAck), ParseAll(e.cfg.conv, c.bytes).packets);
      InputKeepsConfig(Mod32, Inputting(e, NoAck), ParseAll(e.cfg.conv, c.bytes).packets);
    }
  }

  lemma {:induction false} NoSampleYet(cfg: Config, cs: seq<Call>)
    requires ValidConfig(cfg) && ValidCalls(cs) && forall i :: 0 <= i < |cs| ==> NoAcks(cfg.conv, cs[i])
    ensures RunCalls(cfg, cs).rtt == T.Rtt(0, 0, 200)
  {
    hide Apply, NoAcks;
    if cs != [] {
      var n := |cs| - 1;
      NoSampleYet(cfg, cs[..n]);
      ApplyKeepsRtt(RunCalls(cfg, cs[..n]), cs[n]);
    }
  }

  /** Over every run: until an ack comes the timeout is 200 ms; the first one, if it echoes a time
      not in the future, sets it from that sample alone. */
  lemma FirstAckSetsTimeout(cfg: Config, cs: seq<Call>, p: Packet)
    requires ValidConfig(cfg) && ValidCalls(cs) && forall i :: 0 <= i < |cs| ==> NoAcks(cfg.conv, cs[i])
    requires Sendable(cfg.conv, p) && p.cmd == CMD_ACK
    requires 0 <= TimeDiff(RunCalls(cfg, cs).clk.current, p.ts) < 0x1000_0000
    ensures RunCalls(cfg, cs).rtt.rto == 200
    ensures var r := TimeDiff(RunCalls(cfg, cs).clk.current, p.ts);
            var f := InputBytes(Mod32, RunCalls(cfg, cs), EncodeAll([p])).e;
            && f.rtt.srtt == r && f.rtt.rttval == r / 2
            && f.rtt.rto == Min(T.RTO_MAX, Max(cfg.minRto, r + Max(cfg.interval, 4 * (r / 2))))
  {
    hide RunCalls, InputBytes, EncodeAll, TimeDiff, ParseAll, NoAcks;
    NoSampleYet(cfg, cs);
    AckIsSampled(RunCalls(cfg, cs), p, 0xfff_ffff);
  }

  // ---------------------------------------------------------------- acks owed

  /** Every data packet below the end of the window is owed an ack that echoes its time stamp, new
      or not; packets beyond it are owed none. */
  lemma PushIsOwed(e: Endpoint, p: Packet)
    requires e.cfg.mss > 0 && Sendable(e.cfg.conv, p) && p.cmd == CMD_PUSH
    ensures InputBytes(Mod32, e, EncodeAll([p])).e.rcv.acks
         == e.rcv.acks
            + (if TimeDiff(p.sn, W(e.rcv.nxt + e.cfg.rcvWnd)) < 0 then [R.Ack(p.sn, p.ts)] else [])
  {
    hide InputBytes, EncodeAll, S.ParseUna, S.ParseFastAck, TimeDiff, C.Grow, R.Insert, R.Drain;
    OnePacket(e, p);
    var r := e.rcv.(acks := e.rcv.acks + [R.Ack(p.sn, p.ts)]);
    DrainKeepsAcks(r.(buf := R.Insert(Mod32, r.buf, p)), e.cfg.rcvWnd);
    assert e.rcv.acks + [] == e.rcv.acks;
  }

  lemma {:induction false} DrainKeepsAcks(r: R.Receiver, wnd: int)
    ensures R.Drain(Mod32, r, wnd).acks == r.acks
    decreases |r.buf|
  {
    if r.buf != [] && r.buf[0].sn == r.nxt && |r.queue| < wnd {
      DrainKeepsAcks(r.(buf := r.buf[1..], queue := r.queue + [r.buf[0]], nxt := W(r.nxt + 1)), wnd);
    }
  }

  lemma {:induction false} PacketsKeepUpdated(m: Numbering, i: Inputting, ps: Datagram)
    ensures InputPackets(m, i, ps).e.clk.updated == i.e.clk.updated
    decreases |ps|
  {
    if ps != [] {
      hide S.ParseUna, S.ParseAck, R.InputPush, T.UpdateAck;
      PacketsKeepUpdated(m, InputPacket(m, i, ps[0]), ps[1..]);
    }
  }

  lemma InputKeepsUpdated(e: Endpoint, bytes: Bytes)
    requires e.cfg.mss > 0
    ensures InputBytes(Mod32, e, bytes).e.clk.updated == e.clk.updated
  {
    hide InputPackets, ParseAll, C.Grow, S.ParseFastAck;
    PacketsKeepUpdated(Mod32, Inputting(e, NoAck), ParseAll(e.cfg.conv, bytes).packets);
    InputKeepsConfig(Mod32, Inputting(e, NoAck), ParseAll(e.cfg.conv, bytes).packets);
  }
}
