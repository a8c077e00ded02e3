/** The control block `IKCPCB` with its fields, and the functions of `src/third/ikcp.cpp`
    that update them in place. Each method is proved to carry out the function of the same
    name on the block's value. */
module Kcp {
  import opened Word32
  import opened Wire
  import opened IQueue
  import opened SegmentQueues
  import opened Loops
  import E = Endpoint
  import S = Sender
  import R = Receiver
  import C = Congestion
  import T = Rtt
  import I = Invariant
  import A = AckList
  import opened Output

  /** What a walk counted, and the fields it left. */
  predicate Tallied(r: E.Walked, change: nat, lost: bool, xmit0: int, xmit: int, dead0: bool, dead: bool) {
    && change == r.fasts && lost == (r.timeouts > 0)
    && xmit == W(xmit0 + r.timeouts) && dead == (dead0 || r.dead)
  }

  lemma TallyNone(xmit: Word, dead: bool, w: E.Walk, buf: seq<S.Segment>)
    ensures Tallied(E.WalkAll(w, buf[..0]), 0, false, xmit, xmit, dead, dead)
    ensures E.WalkAll(w, buf[..0]).sent == []
  {
  }

  lemma TallyNext(r: E.Walked, r2: E.Walked, a: E.Action, died: bool, change: nat, lost: bool, xmit0: int, xmit: int,
                  dead0: bool, dead: bool)
    requires Tallied(r, change, lost, xmit0, xmit, dead0, dead)
    requires r2.timeouts == r.timeouts + (if a.Timeout? then 1 else 0)
    requires r2.fasts == r.fasts + (if a.Fast? then 1 else 0)
    requires r2.dead == (r.dead || died)
    ensures Tallied(r2, if a.Fast? then change + 1 else change, lost || a.Timeout?, xmit0,
                    if a.Timeout? then W(xmit + 1) else xmit, dead0, dead || died)
  {
    assert W(W(xmit0 + r.timeouts) + 1) == W(xmit0 + (r.timeouts + 1));
  }

  /** The walk `w` over `buf` has passed `i` segments, and left them and its counts like this. */
  ghost predicate SoFar(w: E.Walk, buf: seq<S.Segment>, i: nat, now: seq<S.Segment>, before: seq<Packet>,
                        written: seq<Packet>, change: nat, lost: bool, xmit0: int, xmit: int, dead0: bool, dead: bool)
  {
    && i <= |now| == |buf| && Walked(now, buf, w, i)
    && written == before + E.WalkAll(w, buf[..i]).sent
    && Tallied(E.WalkAll(w, buf[..i]), change, lost, xmit0, xmit, dead0, dead)
  }

  lemma SoFarNext(w: E.Walk, buf: seq<S.Segment>, i: nat, now: seq<S.Segment>, before: seq<Packet>,
                  written: seq<Packet>, change: nat, lost: bool, xmit0: int, xmit: int, dead0: bool, dead: bool)
    requires SoFar(w, buf, i, now, before, written, change, lost, xmit0, xmit, dead0, dead) && i < |buf|
    ensures |now| == |buf| && now[i] == buf[i]
    ensures var s := E.Resend(w, buf[i]);
            var a := E.ActionFor(w, buf[i]);
            SoFar(w, buf, i + 1, now[i := s], before, if a.Wait? then written + [] else written + [s.p],
                  if a.Fast? then change + 1 else change, lost || a.Timeout?,
                  xmit0, if a.Timeout? then W(xmit + 1) else xmit,
                  dead0, dead || (!a.Wait? && s.xmit >= E.DEAD_LINK))
  {
    hide E.Resend, E.ActionFor, E.WalkAll, Tallied, Walked;
    WalkedMore(now, buf, w, i);
    WalkNext(w, buf, i);
    TallyNext(E.WalkAll(w, buf[..i]), E.WalkAll(w, buf[..i + 1]), E.ActionFor(w, buf[i]),
              !E.ActionFor(w, buf[i]).Wait? && E.Resend(w, buf[i]).xmit >= E.DEAD_LINK, change, lost,
              xmit0, xmit, dead0, dead);
  }

  /** The acks and probes of a flush. */
  ghost function Control(e: E.Endpoint): seq<Packet> {
    E.AckPackets(E.Template(e), e.rcv.acks)
    + E.ProbePackets(E.AfterAcks(E.Template(e), e.rcv.acks), E.Probe(e.clk, e.cong.rmtWnd))
  }

  /** The pieces of a flush make up `Endpoint.Flush`. */
  lemma FlushIs(e: E.Endpoint, f: E.Endpoint, change: nat, lost: bool)
    requires e.clk.updated
    requires var a := E.Admitted(Mod32, e);
             var r := E.WalkAll(E.WalkFor(e), a.buf);
             && f.snd == a.(buf := r.buf) && Tallied(r, change, lost, e.xmit, f.xmit, e.dead, f.dead)
             && f.cong == C.Cut(e.cong, e.cfg.mss, change > 0, lost, W(a.nxt - a.una), C.Resent(e.cfg.fastResend),
                                E.Window(e.cfg, e.cong))
    requires f.cfg == e.cfg && f.rtt == e.rtt && f.rcv == e.rcv.(acks := [])
    requires f.clk == E.Probe(e.clk, e.cong.rmtWnd).(askSend := false, askTell := false)
    ensures f == E.Flush(Mod32, e).e
    ensures E.Flush(Mod32, e).out
         == Pack(e.cfg.mtu, Control(e) + E.WalkAll(E.WalkFor(e), E.Admitted(Mod32, e).buf).sent)
  {
  }

  /** The control block. The fields of `IKCPCB` are grouped into records by the part of the
      protocol they belong to. The four lists, with their heads and counters, are `queues`. */
  class Kcp {
    const queues: Queues
    const output: OutBuffer
    const acklist: A.AckList
    var cfg: E.Config
    var sndUna: int
    var sndNxt: int
    var rcvNxt: int
    var rtt: T.Rtt
    var cong: C.Congestion
    var clk: E.Clock
    var xmit: Word
    var dead: bool

    ghost function Snd(): S.Sender
      reads `sndUna, `sndNxt, queues`items
    {
      S.Sender(Chunks(queues.items.sndQueue), queues.items.sndBuf, sndUna, sndNxt)
    }

    ghost function Rcv(): R.Receiver
      reads `rcvNxt, acklist`acks, queues`items
    {
      R.Receiver(Packets(queues.items.rcvBuf), Packets(queues.items.rcvQueue), rcvNxt, acklist.acks)
    }

    /** The value of the control block. */
    ghost function View(): E.Endpoint
      reads `cfg, `sndUna, `sndNxt, `rcvNxt, `rtt, `cong, `clk, `xmit, `dead, acklist`acks, queues`items
    {
      E.Endpoint(cfg, Snd(), Rcv(), rtt, cong, clk, xmit, dead)
    }

    /** The lists are rings of their own, with the right counters. */
    ghost predicate Linked()
      reads queues, queues.owner.Keys`next, queues.owner.Keys`prev, queues.owner.Keys`seg
    {
      queues.Valid() && queues.Counted()
    }

    /** The output buffer has room for a datagram of the queued segments. */
    ghost predicate Roomy()
      reads `cfg, `sndUna, `sndNxt, queues`items
    {
      E.ValidConfig(cfg) && output.buffer.Length == (cfg.mtu + OVERHEAD) * 3 && Fit(Snd(), cfg.mss)
    }

    ghost predicate Valid()
      reads `cfg, `sndUna, `sndNxt, queues, queues.owner.Keys`next, queues.owner.Keys`prev, queues.owner.Keys`seg,
            acklist, acklist.acklist
    {
      Linked() && Roomy() && acklist.Valid()
    }

    constructor (config: E.Config)
      requires E.ValidConfig(config)
      ensures Valid() && View() == E.Create(config)
      ensures fresh(queues) && fresh(queues.owner.Keys) && fresh(output) && fresh(output.buffer)
      ensures fresh(acklist) && acklist.acklist == null
    {
      hide Queues.Valid, OutBuffer.Valid, Heads;
      var heads := NewHeads();
      queues := new Queues(heads);
      output := new OutBuffer(config.mtu);
      cfg := config;
      acklist := new A.AckList();
      sndUna, sndNxt, rcvNxt := 0, 0, 0;
      rtt := T.Rtt(0, 0, 200);
      cong := C.Congestion(0, 2, 0, 32);
      clk := E.Clock(0, 100, false, 0, 0, false, false);
      xmit, dead := 0, false;
    }

    // ---------------------------------------------------------------- ikcp_peeksize, ikcp_recv

    method PeekSize() returns (length: int)
      requires Linked()
      ensures length == R.PeekSize(Rcv().queue)
    {
      length := queues.PeekSize();
    }

    /** `data` is what the call copied to the caller's buffer. */
    method Recv(len: int) returns (code: int, data: Bytes)
      requires Linked()
      modifies `rcvNxt, `clk, queues, queues.owner.Keys
      ensures Linked() && fresh(queues.owner.Keys - old(queues.owner.Keys)) && Snd() == old(Snd())
      ensures E.RecvResult(code, data, View()) == E.Recv(Mod32, old(View()), len)
    {
      hide Queues.Valid, R.Recv;
      RecvWithAcks(Rcv(), cfg.rcvWnd, len);
      var tell;
      code, data, tell, rcvNxt := queues.Recv(len, rcvNxt, cfg.rcvWnd);
      if tell {
        clk := clk.(askTell := true);
      }
    }

    // ---------------------------------------------------------------- ikcp_send

    method Send(data: Bytes, len: int) returns (code: int)
      requires Valid() && len <= |data|
      modifies queues, queues.owner.Keys
      ensures Valid() && fresh(queues.owner.Keys - old(queues.owner.Keys))
      ensures E.SendResult(code, View()) == E.Send(old(View()), len, data)
    {
      hide Queues.Valid, S.Send, Fit;
      FitAfterSend(Snd(), cfg.mss, cfg.stream, len, data);
      code := queues.Send(cfg.mss, cfg.stream, data, len);
    }

    // ---------------------------------------------------------------- acknowledgements

    method UpdateAck(sample: int)
      modifies `rtt
      ensures rtt == T.UpdateAck(old(rtt), cfg.interval, cfg.minRto, sample)
    {
      if rtt.srtt == 0 {
        rtt := rtt.(srtt := sample, rttval := TruncDiv(sample, 2));
      } else {
        var delta := I32(sample - rtt.srtt);
        if delta < 0 { delta := -delta; }
        rtt := rtt.(rttval := I32(TruncDiv(I32(3 * rtt.rttval) + delta, 4)));
        rtt := rtt.(srtt := TruncDiv(I32(I32(7 * rtt.srtt) + sample), 8));
        if rtt.srtt < 1 { rtt := rtt.(srtt := 1); }
      }
      rtt := rtt.(rto := Bound(cfg.minRto, W(rtt.srtt + Max(cfg.interval, W(4 * rtt.rttval))), T.RTO_MAX));
    }

    /** `kcp->snd_buf.next`. */
    method FirstSent() returns (p: Node)
      requires Linked()
      ensures queues.Cursor(SndBuf, p, 1)
    {
      hide Queues.Valid, Queues.Cursor;
      queues.AtHead(SndBuf);
      p := queues.Forward(SndBuf, queues.heads.sndBuf, 0);
    }

    method NextSent(p: Node, ghost k: nat) returns (next: Node)
      requires Linked() && queues.Cursor(SndBuf, p, k) && k <= |queues.items.sndBuf|
      ensures queues.Cursor(SndBuf, next, k + 1)
    {
      hide Queues.Valid, Queues.Cursor;
      next := queues.Forward(SndBuf, p, k);
    }

    method ShrinkBuf()
      requires Linked()
      modifies `sndUna
      ensures Snd() == S.Shrink(old(Snd()))
    {
      hide Queues.Valid, Queues.Cursor;
      var p := FirstSent();
      if p != queues.heads.sndBuf { sndUna := p.seg.p.sn; } else { sndUna := sndNxt; }
    }

    method ParseAck(sn: int)
      requires Linked()
      modifies queues, queues.owner.Keys
      ensures Linked() && queues.owner.Keys <= old(queues.owner.Keys) && Rcv() == old(Rcv())
      ensures Snd() == if S.InFlight(Mod32, old(Snd()), sn)
                       then old(Snd()).(buf := S.RemoveAcked(Mod32, old(Snd()).buf, sn)) else old(Snd())
    {
      hide Queues.Valid, S.RemoveAcked;
      if TimeDiff(sn, sndUna) < 0 || TimeDiff(sn, sndNxt) >= 0 { return; }
      queues.ParseAck(sn);
    }

    method ParseFastAck(sn: int)
      requires Linked()
      modifies queues, queues.owner.Keys
      ensures Linked() && queues.owner == old(queues.owner) && Rcv() == old(Rcv())
      ensures Snd() == S.ParseFastAck(Mod32, old(Snd()), sn)
    {
      hide Queues.Valid, S.BumpBefore;
      if TimeDiff(sn, sndUna) < 0 || TimeDiff(sn, sndNxt) >= 0 { return; }
      queues.ParseFastAck(sn);
    }

    // ---------------------------------------------------------------- ikcp_input

    /** A segment made of the packet goes to `ikcp_parse_data`. */
    method TakeData(p: Packet)
      requires Linked()
      modifies `rcvNxt, queues, queues.owner.Keys
      ensures Linked() && fresh(queues.owner.Keys - old(queues.owner.Keys)) && Snd() == old(Snd())
      ensures Rcv() == R.ParseData(Mod32, old(Rcv()), cfg.rcvWnd, p)
    {
      hide Queues.Valid, R.ParseData, TimeDiff;
      ParseDataWithAcks(Rcv(), cfg.rcvWnd, p);
      var node := new Node(S.Segment(p, 0, 0, 0, 0));
      rcvNxt := queues.ParseData(node, rcvNxt, cfg.rcvWnd);
    }

    /** The push branch. */
    method TakePush(p: Packet)
      requires Linked() && acklist.Valid() && FitsHeader(p)
      modifies `rcvNxt, queues, queues.owner.Keys, acklist, acklist.acklist
      ensures Linked() && fresh(queues.owner.Keys - old(queues.owner.Keys)) && Snd() == old(Snd())
      ensures acklist.Valid() && (acklist.acklist == old(acklist.acklist) || fresh(acklist.acklist))
      ensures Rcv() == R.InputPush(Mod32, old(Rcv()), cfg.rcvWnd, p)
    {
      hide A.AckList.Valid, Linked, R.ParseData, TimeDiff;
      if TimeDiff(p.sn, W(rcvNxt + cfg.rcvWnd)) < 0 {
        acklist.Push(p.sn, p.ts);
        if TimeDiff(p.sn, rcvNxt) >= 0 {
          TakeData(p);
        }
      }
    }

    /** The ack branch; the caller keeps the latest ack. */
    method TakeAck(p: Packet)
      requires Linked()
      modifies `sndUna, `rtt, queues, queues.owner.Keys
      ensures Linked() && queues.owner.Keys <= old(queues.owner.Keys) && Rcv() == old(Rcv())
      ensures Snd() == S.ParseAck(Mod32, old(Snd()), p.sn)
      ensures rtt == if TimeDiff(clk.current, p.ts) >= 0
                     then T.UpdateAck(old(rtt), cfg.interval, cfg.minRto, TimeDiff(clk.current, p.ts)) else old(rtt)
    {
      hide Queues.Valid, S.RemoveAcked, T.UpdateAck, TimeDiff;
      if TimeDiff(clk.current, p.ts) >= 0 {
        UpdateAck(TimeDiff(clk.current, p.ts));
      }
      ParseAck(p.sn);
      ShrinkBuf();
    }

    method TakeUna(una: int)
      requires Linked()
      modifies `sndUna, queues, queues.owner.Keys
      ensures Linked() && queues.owner.Keys <= old(queues.owner.Keys) && Rcv() == old(Rcv())
      ensures Snd() == S.ParseUna(Mod32, old(Snd()), una)
    {
      hide Queues.Valid, S.DropBelow;
      queues.ParseUna(una);
      ShrinkBuf();
    }

    /** One turn of the loop of `ikcp_input`. */
    method TakePacket(p: Packet, latest: E.MaxAck) returns (maxack: E.MaxAck)
      requires Linked() && Fit(Snd(), cfg.mss) && acklist.Valid() && FitsHeader(p)
      modifies `cong, `sndUna, `rtt, `clk, `rcvNxt, queues, queues.owner.Keys, acklist, acklist.acklist
      ensures Linked() && Fit(Snd(), cfg.mss) && fresh(queues.owner.Keys - old(queues.owner.Keys))
      ensures acklist.Valid() && (acklist.acklist == old(acklist.acklist) || fresh(acklist.acklist))
      ensures E.Inputting(View(), maxack) == E.InputPacket(Mod32, E.Inputting(old(View()), latest), p)
    {
      hide A.AckList.Valid, S.ParseUna, S.ParseAck, R.InputPush, T.UpdateAck, Fit, Linked, Snd, Rcv;
      maxack := latest;
      cong := cong.(rmtWnd := p.wnd);
      FitAfterUna(Snd(), cfg.mss, p.una);
      TakeUna(p.una);
      if p.cmd == CMD_ACK {
        FitAfterAck(Snd(), cfg.mss, p.sn);
        TakeAck(p);
        if latest.NoAck? || TimeDiff(p.sn, latest.sn) > 0 {
          maxack := E.MaxAck(p.sn);
        }
      } else if p.cmd == CMD_PUSH {
        TakePush(p);
      } else if p.cmd == CMD_WASK {
        clk := clk.(askTell := true);
      }
    }

    /** The growth of the congestion window at the end of `ikcp_input`. */
    method GrowWindow()
      requires cfg.mss > 0
      modifies `cong
      ensures cong == C.Grow(old(cong), cfg.mss)
    {
      if cong.cwnd < cong.rmtWnd {
        var mss := cfg.mss;
        if cong.cwnd < cong.ssthresh {
          cong := cong.(cwnd := W(cong.cwnd + 1), incr := W(cong.incr + mss));
        } else {
          if cong.incr < mss { cong := cong.(incr := mss); }
          cong := cong.(incr := W(cong.incr + W(mss * mss) / cong.incr + mss / 16));
          if W((cong.cwnd + 1) * mss) <= cong.incr {
            cong := cong.(cwnd := W(cong.cwnd + 1));
          }
        }
        if cong.cwnd > cong.rmtWnd {
          cong := cong.(cwnd := cong.rmtWnd, incr := W(cong.rmtWnd * mss));
        }
      }
    }

    /** Decodes one header and checks it, in the order of the source. */
    method DecodePacket(data: Bytes) returns (r: Parsed)
      ensures r == ParseNext(cfg.conv, data)
    {
      if |data| < OVERHEAD { return Stop; }
      if Get32(data, 0) != cfg.conv { return Bad(-1); }
      var len := Get32(data, 20);
      if |data| - OVERHEAD < len { return Bad(-2); }
      if !KnownCommand(data[4]) { return Bad(-3); }
      var p := Packet(cfg.conv, data[4], data[5], Get16(data, 6), Get32(data, 8), Get32(data, 12),
                      Get32(data, 16), data[OVERHEAD..OVERHEAD + len]);
      r := Next(p, data[OVERHEAD + len..]);
    }

    /** The loop of `ikcp_input`. */
    method TakePackets(data: Bytes) returns (code: int, latest: E.MaxAck)
      requires Linked() && Fit(Snd(), cfg.mss) && acklist.Valid()
      modifies `cong, `sndUna, `rtt, `clk, `rcvNxt, queues, queues.owner.Keys, acklist, acklist.acklist
      ensures Linked() && Fit(Snd(), cfg.mss) && fresh(queues.owner.Keys - old(queues.owner.Keys))
      ensures acklist.Valid() && (acklist.acklist == old(acklist.acklist) || fresh(acklist.acklist))
      ensures code == ParseAll(cfg.conv, data).status
      ensures E.Inputting(View(), latest)
           == E.InputPackets(Mod32, E.Inputting(old(View()), E.NoAck), ParseAll(cfg.conv, data).packets)
    {
      hide A.AckList.Valid, Linked, Fit, Snd, Rcv, View, E.InputPacket;
      latest := E.NoAck;
      var rest := data;
      while true
        invariant Linked() && Fit(Snd(), cfg.mss) && fresh(queues.owner.Keys - old(queues.owner.Keys))
        invariant acklist.Valid() && (acklist.acklist == old(acklist.acklist) || fresh(acklist.acklist))
        invariant E.InputPackets(Mod32, E.Inputting(View(), latest), ParseAll(cfg.conv, rest).packets)
               == E.InputPackets(Mod32, E.Inputting(old(View()), E.NoAck), ParseAll(cfg.conv, data).packets)
        invariant ParseAll(cfg.conv, rest).status == ParseAll(cfg.conv, data).status
        decreases |rest|
      {
        var next := DecodePacket(rest);
        match next
        case Stop => return 0, latest;
        case Bad(error) => return error, latest;
        case Next(p, more) =>
          latest := TakePacket(p, latest);
          rest := more;
      }
    }

    method Input(data: Bytes) returns (code: int)
      requires Valid()
      modifies `cong, `sndUna, `rtt, `clk, `rcvNxt, queues, queues.owner.Keys, acklist, acklist.acklist
      ensures Valid() && fresh(queues.owner.Keys - old(queues.owner.Keys))
      ensures acklist.acklist == old(acklist.acklist) || fresh(acklist.acklist)
      ensures E.InputResult(code, View()) == E.InputBytes(Mod32, old(View()), data)
    {
      hide A.AckList.Valid, ParseAll, E.InputPackets, E.InputEnd, Linked, Fit, Rcv;
      if |data| < OVERHEAD { return -1; }
      var una := sndUna;
      var latest;
      code, latest := TakePackets(data);
      if code < 0 { return; }
      EndInput(una, latest);
    }

    /** What follows the loop of `ikcp_input`. */
    method EndInput(una: int, latest: E.MaxAck)
      requires Linked() && Fit(Snd(), cfg.mss) && cfg.mss > 0
      modifies `cong, queues, queues.owner.Keys
      ensures Linked() && Fit(Snd(), cfg.mss) && queues.owner == old(queues.owner)
      ensures View() == E.InputEnd(Mod32, una, E.Inputting(old(View()), latest))
    {
      hide S.ParseFastAck, C.Grow, Linked, Fit, Rcv;
      if latest.MaxAck? {
        FitAfterAck(Snd(), cfg.mss, latest.sn);
        ParseFastAck(latest.sn);
      }
      if TimeDiff(sndUna, una) > 0 { GrowWindow(); }
    }

    // ---------------------------------------------------------------- ikcp_flush

    /** The ack loop. */
    method FlushAcks(t: Packet) returns (last: Packet)
      requires output.Valid(cfg.mtu) && Size(t) <= cfg.mtu && t.data == [] && acklist.Valid()
      modifies acklist`ackcount, acklist`acks, output, output.buffer
      ensures output.Valid(cfg.mtu) && acklist.Valid() && acklist.acks == []
      ensures output.written == old(output.written) + E.AckPackets(t, old(acklist.acks))
      ensures last == E.AfterAcks(t, old(acklist.acks)) && last.data == []
    {
      hide OutBuffer.Valid;
      last := t;
      ghost var acks := acklist.acks;
      for i := 0 to acklist.ackcount
        invariant output.Valid(cfg.mtu) && acklist.Valid() && acklist.acks == acks
        invariant output.written == old(output.written) + E.AckPackets(t, acks[..i])
        invariant last == E.AfterAcks(t, acks[..i]) && last.data == []
        modifies output, output.buffer
      {
        var sn, ts := acklist.Get(i);
        last := last.(sn := sn, ts := ts);
        assert acks[..i + 1][..i] == acks[..i];
        output.PutSegment(cfg.mtu, last);
      }
      assert acks[..|acks|] == acks;
      acklist.Clear();
    }

    /** The window probe timer. */
    method UpdateProbe()
      modifies `clk
      ensures clk == E.Probe(old(clk), cong.rmtWnd)
    {
      if cong.rmtWnd == 0 {
        if clk.probeWait == 0 {
          clk := clk.(probeWait := E.PROBE_INIT);
          clk := clk.(tsProbe := W(clk.current + clk.probeWait));
        } else if TimeDiff(clk.current, clk.tsProbe) >= 0 {
          if clk.probeWait < E.PROBE_INIT { clk := clk.(probeWait := E.PROBE_INIT); }
          clk := clk.(probeWait := W(clk.probeWait + clk.probeWait / 2));
          if clk.probeWait > E.PROBE_LIMIT { clk := clk.(probeWait := E.PROBE_LIMIT); }
          clk := clk.(tsProbe := W(clk.current + clk.probeWait), askSend := true);
        }
      } else {
        clk := clk.(tsProbe := 0, probeWait := 0);
      }
    }

    /** Writes the probe packets that are asked for. */
    method FlushProbes(t: Packet)
      requires output.Valid(cfg.mtu) && Size(t) <= cfg.mtu
      modifies `clk, output, output.buffer
      ensures output.Valid(cfg.mtu) && clk == old(clk).(askSend := false, askTell := false)
      ensures output.written == old(output.written) + E.ProbePackets(t, old(clk))
    {
      hide OutBuffer.Valid;
      if clk.askSend {
        output.PutSegment(cfg.mtu, t.(cmd := CMD_WASK));
      }
      if clk.askTell {
        output.PutSegment(cfg.mtu, t.(cmd := CMD_WINS));
      }
      clk := clk.(askSend := false, askTell := false);
    }

    /** What the walk does with one segment. */
    method Retransmit(s: S.Segment, w: E.Walk) returns (seg: S.Segment, action: E.Action)
      ensures seg == E.Resend(w, s) && action == E.ActionFor(w, s)
    {
      seg, action := s, E.Wait;
      if seg.xmit == 0 {
        action := E.First;
        seg := seg.(xmit := W(seg.xmit + 1), rto := w.rto, resendts := W(w.now + w.rto + w.rtoMin));
      } else if TimeDiff(w.now, seg.resendts) >= 0 {
        action := E.Timeout;
        seg := seg.(xmit := W(seg.xmit + 1));
        if w.noDelay { seg := seg.(rto := W(seg.rto + w.rto / 2)); } else { seg := seg.(rto := W(seg.rto + w.rto)); }
        seg := seg.(resendts := W(w.now + seg.rto));
      } else if seg.fastack >= w.resent {
        action := E.Fast;
        seg := seg.(xmit := W(seg.xmit + 1), fastack := 0, resendts := W(w.now + seg.rto));
      }
      if action != E.Wait {
        seg := seg.(p := seg.p.(ts := w.now, wnd := w.wnd, una := w.una));
      }
    }
  
    /** What the walk does with one entry. */
    method WalkOne(p: Node, ghost k: nat, w: E.Walk) returns (action: E.Action)
      requires Linked() && output.Valid(cfg.mtu) && 0 < k <= |queues.items.sndBuf| && queues.Cursor(SndBuf, p, k)
      requires Size(p.seg.p) <= cfg.mtu
      modifies `xmit, `dead, output, output.buffer, queues`items, p`seg
      ensures Linked() && output.Valid(cfg.mtu) && queues.Cursor(SndBuf, p, k)
      ensures queues.items == var buf := old(queues.items).sndBuf;
                              old(queues.items).(sndBuf := buf[k - 1 := E.Resend(w, buf[k - 1])])
      ensures action == E.ActionFor(w, old(queues.items).sndBuf[k - 1])
      ensures output.written
           == old(output.written) + (if action.Wait? then [] else [queues.items.sndBuf[k - 1].p])
      ensures xmit == if action.Timeout? then W(old(xmit) + 1) else old(xmit)
      ensures dead == (old(dead) || (!action.Wait? && queues.items.sndBuf[k - 1].xmit >= E.DEAD_LINK))
    {
      hide OutBuffer.Valid, Queues.Valid, Queues.Cursor, E.Resend, E.ActionFor;
      var seg;
      seg, action := Retransmit(p.seg, w);
      ResendKeepsData(w, p.seg);
      queues.Store(SndBuf, p, k, seg);
      if action.Timeout? { xmit := W(xmit + 1); }
      if !action.Wait? {
        output.PutSegment(cfg.mtu, seg.p);
        if seg.xmit >= E.DEAD_LINK { dead := true; }
      }
    }

    /** The walk `w` over `buf` has passed `i` segments: what it has changed, written and counted. */
    ghost predicate WalkedTo(w: E.Walk, buf: seq<S.Segment>, i: nat, before: seq<Packet>, change: nat, lost: bool,
                             xmit0: int, dead0: bool)
      reads `xmit, `dead, queues`items, output`written
    {
      SoFar(w, buf, i, queues.items.sndBuf, before, output.written, change, lost, xmit0, xmit, dead0, dead)
    }

    /** One turn of the walk over `snd_buf`. */
    method WalkTurn(p: Node, w: E.Walk, ghost buf: seq<S.Segment>, ghost i: nat, ghost before: seq<Packet>,
                    change: nat, lost: bool, ghost xmit0: int, ghost dead0: bool)
      returns (next: Node, change2: nat, lost2: bool)
      requires Linked() && output.Valid(cfg.mtu) && WalkedTo(w, buf, i, before, change, lost, xmit0, dead0)
      requires i < |buf| && queues.Cursor(SndBuf, p, i + 1) && Size(buf[i].p) <= cfg.mtu
      modifies `xmit, `dead, output, output.buffer, queues`items, p`seg
      ensures Linked() && output.Valid(cfg.mtu) && WalkedTo(w, buf, i + 1, before, change2, lost2, xmit0, dead0)
      ensures queues.Cursor(SndBuf, next, i + 2) && |queues.items.sndBuf| == |buf|
      ensures queues.items == old(queues.items).(sndBuf := queues.items.sndBuf)
    {
      hide OutBuffer.Valid, Linked, Queues.Cursor, E.Resend, E.ActionFor, SoFar;
      SoFarNext(w, buf, i, queues.items.sndBuf, before, output.written, change, lost, xmit0, xmit, dead0, dead);
      var action := WalkOne(p, i + 1, w);
      change2 := if action.Fast? then change + 1 else change;
      lost2 := lost || action.Timeout?;
      next := NextSent(p, i + 1);
    }

    lemma WalkStarts(w: E.Walk)
      requires Roomy()
      ensures forall j :: 0 <= j < |queues.items.sndBuf| ==> Size(queues.items.sndBuf[j].p) <= cfg.mtu
      ensures WalkedTo(w, queues.items.sndBuf, 0, output.written, 0, false, xmit, dead)
    {
      TallyNone(xmit, dead, w, queues.items.sndBuf);
      assert forall j :: 0 <= j < |queues.items.sndBuf| ==> queues.items.sndBuf[j] in queues.items.sndBuf;
    }

    /** The walk over `snd_buf`: resends in place and writes what it resends. */
    method WalkSegments(w: E.Walk) returns (change: nat, lost: bool)
      requires Valid() && output.Valid(cfg.mtu)
      modifies `xmit, `dead, output, output.buffer, queues`items, queues.owner.Keys`seg
      ensures Linked() && output.Valid(cfg.mtu)
      ensures queues.items
           == old(queues.items).(sndBuf := E.WalkAll(w, old(queues.items).sndBuf).buf)
      ensures output.written == old(output.written) + E.WalkAll(w, old(queues.items).sndBuf).sent
      ensures Tallied(E.WalkAll(w, old(queues.items).sndBuf), change, lost, old(xmit), xmit, old(dead), dead)
    {
      hide OutBuffer.Valid, Linked, Roomy, Queues.Cursor, WalkedTo, E.WalkAll, Tallied;
      ghost var buf := queues.items.sndBuf;
      WalkStarts(w);
      change, lost := 0, false;
      ghost var i: nat := 0;
      var p := FirstSent();
      while p != queues.heads.sndBuf
        invariant i <= |buf| == |queues.items.sndBuf| && Linked() && output.Valid(cfg.mtu)
        invariant queues.Cursor(SndBuf, p, i + 1)
        invariant WalkedTo(w, buf, i, old(output.written), change, lost, old(xmit), old(dead))
        invariant queues.items == old(queues.items).(sndBuf := queues.items.sndBuf)
        decreases |buf| - i
      {
        p, change, lost := WalkTurn(p, w, buf, i, old(output.written), change, lost, old(xmit), old(dead));
        i := i + 1;
      }
      WalkEnds(w, buf, old(output.written), change, lost, old(xmit), old(dead));
    }

    lemma WalkEnds(w: E.Walk, buf: seq<S.Segment>, before: seq<Packet>, change: nat, lost: bool, xmit0: int,
                   dead0: bool)
      requires WalkedTo(w, buf, |buf|, before, change, lost, xmit0, dead0)
      ensures var r := E.WalkAll(w, buf);
              && queues.items.sndBuf == r.buf && output.written == before + r.sent
              && Tallied(r, change, lost, xmit0, xmit, dead0, dead)
    {
      assert buf[..|buf|] == buf;
      WalkedAll(queues.items.sndBuf, buf, w);
    }

    /** The window cuts at the end of `ikcp_flush`. */
    method CutWindow(change: nat, lost: bool, resent: int, window: int)
      modifies `cong
      ensures cong == C.Cut(old(cong), cfg.mss, change > 0, lost, W(sndNxt - sndUna), resent, window)
    {
      if change > 0 {
        var inflight := W(sndNxt - sndUna);
        cong := cong.(ssthresh := inflight / 2);
        if cong.ssthresh < C.THRESH_MIN { cong := cong.(ssthresh := C.THRESH_MIN); }
        cong := cong.(cwnd := W(cong.ssthresh + resent));
        cong := cong.(incr := W(cong.cwnd * cfg.mss));
      }
      if lost {
        cong := cong.(ssthresh := window / 2);
        if cong.ssthresh < C.THRESH_MIN { cong := cong.(ssthresh := C.THRESH_MIN); }
        cong := cong.(cwnd := 1, incr := W(cfg.mss));
      }
      if cong.cwnd < 1 {
        cong := cong.(cwnd := 1, incr := W(cfg.mss));
      }
    }

    method WndUnused() returns (n: int)
      requires Linked()
      ensures n == R.Unused(Rcv(), cfg.rcvWnd)
    {
      n := if queues.nrcvQue < cfg.rcvWnd then cfg.rcvWnd - queues.nrcvQue else 0;
    }

    /** The first half of `ikcp_flush`: acks and probes. */
    method FlushControl(t: Packet)
      requires output.Valid(cfg.mtu) && Size(t) <= cfg.mtu && t.data == [] && output.written == []
      requires acklist.Valid()
      modifies acklist`ackcount, acklist`acks, `clk, output, output.buffer
      ensures output.Valid(cfg.mtu) && acklist.Valid() && acklist.acks == []
      ensures clk == E.Probe(old(clk), cong.rmtWnd).(askSend := false, askTell := false)
      ensures output.written == E.AckPackets(t, old(acklist.acks))
                                + E.ProbePackets(E.AfterAcks(t, old(acklist.acks)), E.Probe(old(clk), cong.rmtWnd))
    {
      hide OutBuffer.Valid, A.AckList.Valid, E.AckPackets, E.AfterAcks, E.ProbePackets;
      var last := FlushAcks(t);
      UpdateProbe();
      FlushProbes(last);
    }

    /** The second half: admission and data. */
    method FlushData(t: Packet, w: E.Walk, window: int) returns (change: nat, lost: bool)
      requires Valid() && output.Valid(cfg.mtu)
      modifies `sndNxt, `xmit, `dead, output, output.buffer, queues, queues.owner.Keys
      ensures Valid() && output.Valid(cfg.mtu) && queues.owner.Keys <= old(queues.owner.Keys)
      ensures Rcv() == old(Rcv())
      ensures var a := E.Admit(Mod32, old(Snd()), window, t, clk.current, rtt.rto);
              var r := E.WalkAll(w, a.buf);
              && Snd() == a.(buf := r.buf) && output.written == old(output.written) + r.sent
              && Tallied(r, change, lost, old(xmit), xmit, old(dead), dead)
    {
      hide A.AckList.Valid, OutBuffer.Valid, Queues.Valid, E.WalkAll, E.Admit, Fit, Tallied;
      FitAfterAdmit(Snd(), cfg.mss, window, t, clk.current, rtt.rto);
      sndNxt := queues.AdmitSegments(sndUna, sndNxt, window, t, clk.current, rtt.rto);
      FitAfterWalk(Snd(), cfg.mss, w);
      change, lost := WalkSegments(w);
    }

    /** Everything that `ikcp_flush` writes. */
    method FlushAll(t: Packet, w: E.Walk, window: int) returns (change: nat, lost: bool)
      requires Valid() && output.Valid(cfg.mtu) && Size(t) <= cfg.mtu && t.data == [] && output.written == []
      modifies `sndNxt, `clk, `xmit, `dead, output, output.buffer, queues, queues.owner.Keys,
               acklist`ackcount, acklist`acks
      ensures Valid() && output.Valid(cfg.mtu) && queues.owner.Keys <= old(queues.owner.Keys)
      ensures Rcv() == old(Rcv()).(acks := [])
      ensures clk == E.Probe(old(clk), cong.rmtWnd).(askSend := false, askTell := false)
      ensures var a := E.Admit(Mod32, old(Snd()), window, t, old(clk).current, rtt.rto);
              var r := E.WalkAll(w, a.buf);
              && Snd() == a.(buf := r.buf) && Tallied(r, change, lost, old(xmit), xmit, old(dead), dead)
              && output.written
                 == E.AckPackets(t, old(acklist.acks))
                    + E.ProbePackets(E.AfterAcks(t, old(acklist.acks)), E.Probe(old(clk), cong.rmtWnd)) + r.sent
    {
      hide A.AckList.Valid, OutBuffer.Valid, Linked, E.WalkAll, E.Admit, E.AckPackets, Tallied, E.AfterAcks,
           E.ProbePackets, Fit;
      FlushControl(t);
      change, lost := FlushData(t, w, window);
    }

    /** The body of `ikcp_flush`, once its locals are set. */
    method FlushWith(t: Packet, w: E.Walk, window: int, resent: int) returns (out: seq<Bytes>)
      requires Valid() && clk.updated
      requires t == E.Template(View()) && w == E.WalkFor(View())
      requires window == E.Window(cfg, cong) && resent == C.Resent(cfg.fastResend)
      modifies `sndNxt, `clk, `cong, `xmit, `dead, output, output.buffer, queues, queues.owner.Keys,
               acklist`ackcount, acklist`acks
      ensures Valid() && queues.owner.Keys <= old(queues.owner.Keys)
      ensures View() == E.Flush(Mod32, old(View())).e
      ensures out == EncodeDs(E.Flush(Mod32, old(View())).out)
    {
      hide A.AckList.Valid, OutBuffer.Valid, Linked, E.WalkAll, E.Admit, E.AckPackets, Pack, EncodeDs, C.Cut, E.Flush,
           E.WalkFor, E.Window, C.Resent, Tallied, E.AfterAcks, E.ProbePackets, Fit, E.Probe;
      ghost var e := View();
      output.Begin(cfg.mtu);
      var change, lost := FlushAll(t, w, window);
      out := output.Finish(cfg.mtu);
      CutWindow(change, lost, resent, window);
      FlushIs(e, View(), change, lost);
    }

    /** `ikcp_flush`; `out` is what the output callback was given. */
    method Flush() returns (out: seq<Bytes>)
      requires Valid()
      modifies `sndNxt, `clk, `cong, `xmit, `dead, output, output.buffer, queues, queues.owner.Keys,
               acklist`ackcount, acklist`acks
      ensures Valid() && queues.owner.Keys <= old(queues.owner.Keys)
      ensures View() == E.Flush(Mod32, old(View())).e
      ensures out == EncodeDs(E.Flush(Mod32, old(View())).out)
    {
      if !clk.updated { return []; }
      var unused := WndUnused();
      var t := Packet(cfg.conv, CMD_ACK, 0, unused % 65536, 0, 0, rcvNxt, []);
      var window := Min(cfg.sndWnd, cong.rmtWnd);
      if !cfg.noCwnd { window := Min(cong.cwnd, window); }
      var resent := if cfg.fastResend > 0 then cfg.fastResend else 0xffff_ffff;
      var w := E.Walk(clk.current, rtt.rto, if cfg.noDelay then 0 else rtt.rto / 8, cfg.noDelay, resent, t.wnd,
                      rcvNxt);
      out := FlushWith(t, w, window, resent);
    }

    // ---------------------------------------------------------------- ikcp_update, ikcp_check

    /** The clock of `ikcp_update`, and whether it is time to flush. */
    method Tick(now: Word) returns (due: bool)
      modifies `clk
      ensures View() == I.Ticked(old(View()), now) && due == I.Ticks(old(View()), now)
    {
      hide TimeDiff;
      clk := clk.(current := now);
      if !clk.updated {
        clk := clk.(updated := true, tsFlush := clk.current);
      }
      var slap := TimeDiff(clk.current, clk.tsFlush);
      if slap >= 10000 || slap < -10000 {
        clk := clk.(tsFlush := clk.current);
        slap := 0;
        NoTimeAway(clk.current);
      }
      due := slap >= 0;
      if due {
        clk := clk.(tsFlush := W(clk.tsFlush + cfg.interval));
        if TimeDiff(clk.current, clk.tsFlush) >= 0 {
          clk := clk.(tsFlush := W(clk.current + cfg.interval));
        }
      }
    }

    method Update(now: Word) returns (out: seq<Bytes>)
      requires Valid()
      modifies `sndNxt, `clk, `cong, `xmit, `dead, output, output.buffer, queues, queues.owner.Keys,
               acklist`ackcount, acklist`acks
      ensures Valid() && queues.owner.Keys <= old(queues.owner.Keys)
      ensures View() == E.Update(Mod32, old(View()), now).e
      ensures out == EncodeDs(E.Update(Mod32, old(View()), now).out)
    {
      hide A.AckList.Valid, E.Flush, EncodeDs, Linked, Roomy, View, E.Update, I.Ticked, I.Ticks;
      I.UpdateIs(Mod32, View(), now);
      out := [];
      var due := Tick(now);
      if due { out := Flush(); }
    }

    /** The loop of `ikcp_check`: whether a segment is due, and how long until one is. */
    method Soonest(now: Word) returns (due: bool, tmPacket: int)
      requires Linked()
      ensures E.SoonestResend(queues.items.sndBuf, now) == if due then E.Due else E.In(tmPacket)
    {
      hide W, TimeDiff, Linked, Queues.Cursor;
      due, tmPacket := false, 0x7fff_ffff;
      ghost var buf := queues.items.sndBuf;
      ghost var i: nat := 0;
      var p := FirstSent();
      while p != queues.heads.sndBuf
        invariant i <= |buf| && queues.Cursor(SndBuf, p, i + 1)
        invariant !due && E.SoonestResend(buf[..i], now) == E.In(tmPacket)
        decreases |buf| - i
      {
        assert buf[..i + 1][..i] == buf[..i];
        var diff := TimeDiff(p.seg.resendts, now);
        if diff <= 0 {
          DueStays(buf, i + 1, now);
          due := true;
          return;
        }
        if diff < tmPacket { tmPacket := diff; }
        p := NextSent(p, i + 1);
        i := i + 1;
      }
      assert buf[..|buf|] == buf;
    }

    method Check(now: Word) returns (when: int)
      requires Linked() && E.ValidConfig(cfg)
      ensures when == E.Check(View(), now)
    {
      hide W, TimeDiff, Linked, E.SoonestResend;
      var tsFlush := clk.tsFlush;
      if !clk.updated { return now; }
      if TimeDiff(now, tsFlush) >= 10000 || TimeDiff(now, tsFlush) < -10000 { tsFlush := now; }
      if TimeDiff(now, tsFlush) >= 0 { return now; }
      var tmFlush := TimeDiff(tsFlush, now);
      var due, tmPacket := Soonest(now);
      if due { return now; }
      var minimal := if tmPacket < tmFlush then tmPacket else tmFlush;
      if minimal >= cfg.interval { minimal := cfg.interval; }
      when := W(now + minimal);
    }
  }
}
