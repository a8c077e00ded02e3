/** A whole KCP control block as a value, and its API calls as functions. The class `Kcp`
    carries out these functions with `Mod32` numbering; `Unbounded` numbering is the same
    protocol with sequence numbers that never wrap. */
module Endpoint {
  import opened Word32
  import opened Wire
  import S = Sender
  import R = Receiver
  import C = Congestion
  import T = Rtt

  const DEAD_LINK: int := 20
  const PROBE_INIT: int := 7000
  const PROBE_LIMIT: int := 120000

  datatype Config = Config(conv: int, mtu: int, mss: int, sndWnd: int, rcvWnd: int, interval: int,
                           minRto: int, noDelay: bool, fastResend: int, noCwnd: bool, stream: bool)

  /** Clock, flush schedule and window probing. */
  datatype Clock = Clock(current: int, tsFlush: int, updated: bool,
                         tsProbe: int, probeWait: int, askSend: bool, askTell: bool)

  datatype Endpoint = Endpoint(cfg: Config, snd: S.Sender, rcv: R.Receiver, rtt: T.Rtt, cong: C.Congestion,
                               clk: Clock, xmit: int, dead: bool)

  /** The settings `ikcp_create`, `ikcp_setmtu`, `ikcp_wndsize` and `ikcp_nodelay` can produce. */
  predicate ValidConfig(c: Config) {
    && 0 <= c.conv < TWO32
    && 50 <= c.mtu < HALF && c.mss == c.mtu - OVERHEAD
    && 0 < c.sndWnd < HALF && 0 < c.rcvWnd < HALF
    && 10 <= c.interval <= 5000
    && 30 <= c.minRto <= 100
    && -HALF <= c.fastResend < HALF
  }

  /** `ikcp_create` followed by the configuration calls. */
  function Create(cfg: Config): Endpoint {
    Endpoint(cfg, S.Sender([], [], 0, 0), R.Receiver([], [], 0, []), T.Rtt(0, 0, 200),
             C.Congestion(0, 2, 0, 32), Clock(0, 100, false, 0, 0, false, false), 0, false)
  }

  // ---------------------------------------------------------------- ikcp_input

  /** The locals `flag` and `maxack`. */
  datatype MaxAck = NoAck | MaxAck(sn: int)

  function Later(m: Numbering, a: MaxAck, sn: int): MaxAck {
    if a.NoAck? || Diff(m, sn, a.sn) > 0 then MaxAck(sn) else a
  }

  datatype Inputting = Inputting(e: Endpoint, acks: MaxAck)

  /** The handling of one packet in the loop of `ikcp_input`. */
  function InputPacket(m: Numbering, i: Inputting, p: Packet): Inputting {
    var e := i.e.(cong := i.e.cong.(rmtWnd := p.wnd), snd := S.ParseUna(m, i.e.snd, p.una));
    if p.cmd == CMD_ACK then
      var age := TimeDiff(e.clk.current, p.ts);
      var rtt := if age >= 0 then T.UpdateAck(e.rtt, e.cfg.interval, e.cfg.minRto, age) else e.rtt;
      Inputting(e.(rtt := rtt, snd := S.ParseAck(m, e.snd, p.sn)), Later(m, i.acks, p.sn))
    else if p.cmd == CMD_PUSH then
      i.(e := e.(rcv := R.InputPush(m, e.rcv, e.cfg.rcvWnd, p)))
    else if p.cmd == CMD_WASK then
      i.(e := e.(clk := e.clk.(askTell := true)))
    else
      i.(e := e)
  }

  function InputPackets(m: Numbering, i: Inputting, ps: Datagram): Inputting
    decreases |ps|
  {
    if ps == [] then i else InputPackets(m, InputPacket(m, i, ps[0]), ps[1..])
  }

  function FastAck(m: Numbering, i: Inputting): Endpoint {
    if i.acks.NoAck? then i.e else i.e.(snd := S.ParseFastAck(m, i.e.snd, i.acks.sn))
  }

  /** After the loop: fast acks, then window growth if `snd_una` has moved past `una`. */
  function InputEnd(m: Numbering, una: int, i: Inputting): Endpoint
    requires i.e.cfg.mss > 0
  {
    var e := FastAck(m, i);
    if Diff(m, e.snd.una, una) > 0 then e.(cong := C.Grow(e.cong, e.cfg.mss)) else e
  }

  lemma {:induction false} InputKeepsConfig(m: Numbering, i: Inputting, ps: Datagram)
    ensures InputPackets(m, i, ps).e.cfg == i.e.cfg
    decreases |ps|
  {
    if ps != [] {
      InputKeepsConfig(m, InputPacket(m, i, ps[0]), ps[1..]);
    }
  }

  /** A datagram of well-formed packets. */
  function Input(m: Numbering, e: Endpoint, ps: Datagram): Endpoint
    requires e.cfg.mss > 0
  {
    InputKeepsConfig(m, Inputting(e, NoAck), ps);
    InputEnd(m, e.snd.una, InputPackets(m, Inputting(e, NoAck), ps))
  }

  datatype InputResult = InputResult(code: int, e: Endpoint)

  /** `ikcp_input` on raw bytes: a malformed packet ends the call with an error, after the
      packets before it have taken effect. */
  function InputBytes(m: Numbering, e: Endpoint, bytes: Bytes): InputResult
    requires e.cfg.mss > 0
  {
    if |bytes| < OVERHEAD then InputResult(-1, e)
    else
      var parse := ParseAll(e.cfg.conv, bytes);
      var i := InputPackets(m, Inputting(e, NoAck), parse.packets);
      InputKeepsConfig(m, Inputting(e, NoAck), parse.packets);
      InputResult(parse.status, if parse.status < 0 then i.e else InputEnd(m, e.snd.una, i))
  }

  // ---------------------------------------------------------------- ikcp_flush

  /** The header fields shared by every packet of one flush. Only the low 16 bits of the
      free window are ever encoded. */
  function Template(e: Endpoint): Packet {
    Packet(e.cfg.conv, CMD_ACK, 0, R.Unused(e.rcv, e.cfg.rcvWnd) % 65536, 0, 0, e.rcv.nxt, [])
  }

  function AckPacket(t: Packet, a: R.Ack): Packet {
    t.(sn := a.sn, ts := a.ts)
  }

  function AckPackets(t: Packet, acks: seq<R.Ack>): seq<Packet> {
    if acks == [] then [] else AckPackets(t, acks[..|acks| - 1]) + [AckPacket(t, acks[|acks| - 1])]
  }

  /** The template keeps the number and time stamp of the last ack written. */
  function AfterAcks(t: Packet, acks: seq<R.Ack>): Packet {
    if acks == [] then t else AckPacket(t, acks[|acks| - 1])
  }

  /** The zero-window probe timer. */
  function Probe(c: Clock, rmtWnd: int): Clock {
    if rmtWnd != 0 then c.(tsProbe := 0, probeWait := 0)
    else if c.probeWait == 0 then c.(probeWait := PROBE_INIT, tsProbe := W(c.current + PROBE_INIT))
    else if TimeDiff(c.current, c.tsProbe) < 0 then c
    else
      var base := Max(c.probeWait, PROBE_INIT);
      var wait := Min(W(base + base / 2), PROBE_LIMIT);
      c.(probeWait := wait, tsProbe := W(c.current + wait), askSend := true)
  }

  function ProbePackets(t: Packet, c: Clock): seq<Packet> {
    (if c.askSend then [t.(cmd := CMD_WASK)] else []) + (if c.askTell then [t.(cmd := CMD_WINS)] else [])
  }

  /** The send window of this flush. */
  function Window(cfg: Config, c: C.Congestion): int {
    var w := Min(cfg.sndWnd, c.rmtWnd);
    if cfg.noCwnd then w else Min(c.cwnd, w)
  }

  function NewSegment(t: Packet, c: S.Chunk, sn: int, now: int, rto: int): S.Segment {
    S.Segment(t.(cmd := CMD_PUSH, frg := c.frg, ts := now, sn := sn, data := c.data), now, rto, 0, 0)
  }

  /** Moves segments from `snd_queue` to `snd_buf` while the window has room. */
  function Admit(m: Numbering, s: S.Sender, window: int, t: Packet, now: int, rto: int): S.Sender
    decreases |s.queue|
  {
    if Diff(m, s.nxt, Plus(m, s.una, window)) < 0 && s.queue != [] then
      Admit(m, s.(queue := s.queue[1..], buf := s.buf + [NewSegment(t, s.queue[0], s.nxt, now, rto)],
                  nxt := Plus(m, s.nxt, 1)), window, t, now, rto)
    else s
  }

  /** What a flush knows when it walks `snd_buf`. */
  datatype Walk = Walk(now: int, rto: int, rtoMin: int, noDelay: bool, resent: int, wnd: int, una: int)

  datatype Action = Wait | First | Timeout | Fast

  function ActionFor(w: Walk, s: S.Segment): Action {
    if s.xmit == 0 then First
    else if TimeDiff(w.now, s.resendts) >= 0 then Timeout
    else if s.fastack >= w.resent then Fast
    else Wait
  }

  function Retime(w: Walk, s: S.Segment): S.Segment {
    match ActionFor(w, s)
    case Wait => s
    case First => s.(xmit := W(s.xmit + 1), rto := w.rto, resendts := W(w.now + w.rto + w.rtoMin))
    case Timeout =>
      var rto := W(s.rto + (if w.noDelay then w.rto / 2 else w.rto));
      s.(xmit := W(s.xmit + 1), rto := rto, resendts := W(w.now + rto))
    case Fast => s.(xmit := W(s.xmit + 1), fastack := 0, resendts := W(w.now + s.rto))
  }

  /** One segment after the walk has passed it. */
  function Resend(w: Walk, s: S.Segment): S.Segment {
    if ActionFor(w, s).Wait? then s
    else
      var r := Retime(w, s);
      r.(p := r.p.(ts := w.now, wnd := w.wnd, una := w.una))
  }

  datatype Walked = Walked(buf: seq<S.Segment>, sent: seq<Packet>, timeouts: nat, fasts: nat, dead: bool)

  /** The walk over `snd_buf`: every segment, the packets written, and what happened. */
  function WalkAll(w: Walk, buf: seq<S.Segment>): (r: Walked)
    ensures |r.buf| == |buf|
  {
    if buf == [] then Walked([], [], 0, 0, false)
    else
      var r := WalkAll(w, buf[..|buf| - 1]);
      var s := buf[|buf| - 1];
      var s' := Resend(w, s);
      var a := ActionFor(w, s);
      Walked(r.buf + [s'], if a.Wait? then r.sent else r.sent + [s'.p],
             r.timeouts + (if a.Timeout? then 1 else 0), r.fasts + (if a.Fast? then 1 else 0),
             r.dead || (!a.Wait? && s'.xmit >= DEAD_LINK))
  }

  function WalkFor(e: Endpoint): Walk {
    Walk(e.clk.current, e.rtt.rto, if e.cfg.noDelay then 0 else e.rtt.rto / 8, e.cfg.noDelay,
         C.Resent(e.cfg.fastResend), Template(e).wnd, e.rcv.nxt)
  }

  datatype Flushed = Flushed(e: Endpoint, out: seq<Datagram>)

  /** The segments a flush finds in `snd_buf` once the window has been filled. */
  function Admitted(m: Numbering, e: Endpoint): S.Sender {
    Admit(m, e.snd, Window(e.cfg, e.cong), Template(e), e.clk.current, e.rtt.rto)
  }

  /** Everything a flush writes, in order: acks, probes, data. */
  function FlushPackets(m: Numbering, e: Endpoint): seq<Packet> {
    AckPackets(Template(e), e.rcv.acks)
    + ProbePackets(AfterAcks(Template(e), e.rcv.acks), Probe(e.clk, e.cong.rmtWnd))
    + WalkAll(WalkFor(e), Admitted(m, e).buf).sent
  }

  /** The control block after a flush that admitted `snd` and walked it with outcome `w`. */
  function AfterFlush(e: Endpoint, snd: S.Sender, w: Walked): Endpoint {
    e.(snd := snd.(buf := w.buf), rcv := e.rcv.(acks := []),
       clk := Probe(e.clk, e.cong.rmtWnd).(askSend := false, askTell := false),
       xmit := W(e.xmit + w.timeouts), dead := e.dead || w.dead,
       cong := C.Cut(e.cong, e.cfg.mss, w.fasts > 0, w.timeouts > 0, W(snd.nxt - snd.una),
                     C.Resent(e.cfg.fastResend), Window(e.cfg, e.cong)))
  }

  function FlushState(m: Numbering, e: Endpoint): Endpoint {
    var snd := Admitted(m, e);
    AfterFlush(e, snd, WalkAll(WalkFor(e), snd.buf))
  }

  function Flush(m: Numbering, e: Endpoint): Flushed {
    if !e.clk.updated then Flushed(e, [])
    else Flushed(FlushState(m, e), Pack(e.cfg.mtu, FlushPackets(m, e)))
  }

  // ---------------------------------------------------------------- ikcp_update, ikcp_check

  function Reset(tsFlush: int, now: int): int {
    var slap := TimeDiff(now, tsFlush);
    if slap >= 10000 || slap < -10000 then now else tsFlush
  }

  function Update(m: Numbering, e: Endpoint, now: int): Flushed {
    var ts := Reset(if e.clk.updated then e.clk.tsFlush else now, now);
    var e1 := e.(clk := e.clk.(current := now, updated := true, tsFlush := ts));
    if TimeDiff(now, ts) < 0 then Flushed(e1, [])
    else
      var next := W(ts + e.cfg.interval);
      var ts' := if TimeDiff(now, next) >= 0 then W(now + e.cfg.interval) else next;
      Flush(m, e1.(clk := e1.clk.(tsFlush := ts')))
  }

  /** The loop of `ikcp_check`: the least time to a retransmission, or None when one is due. */
  datatype Soonest = Due | In(ms: int)

  function SoonestResend(buf: seq<S.Segment>, now: int): Soonest {
    if buf == [] then In(0x7fff_ffff)
    else
      var s := SoonestResend(buf[..|buf| - 1], now);
      var diff := TimeDiff(buf[|buf| - 1].resendts, now);
      if s.Due? || diff <= 0 then Due else In(Min(diff, s.ms))
  }

  function Check(e: Endpoint, now: int): int {
    var ts := Reset(e.clk.tsFlush, now);
    if !e.clk.updated || TimeDiff(now, ts) >= 0 then now
    else
      var s := SoonestResend(e.snd.buf, now);
      if s.Due? then now else W(now + Min(Min(s.ms, TimeDiff(ts, now)), e.cfg.interval))
  }

  // ---------------------------------------------------------------- ikcp_send, ikcp_recv

  datatype SendResult = SendResult(code: int, e: Endpoint)

  function Send(e: Endpoint, len: int, data: Bytes): SendResult
    requires e.cfg.mss > 0 && len <= |data|
  {
    var s := S.Send(e.cfg.mss, e.cfg.stream, e.snd.queue, len, data);
    SendResult(s.code, e.(snd := e.snd.(queue := s.queue)))
  }

  datatype RecvResult = RecvResult(code: int, data: Bytes, e: Endpoint)

  function Recv(m: Numbering, e: Endpoint, len: int): RecvResult {
    var r := R.Recv(m, e.rcv, e.cfg.rcvWnd, len);
    RecvResult(r.code, r.data, e.(rcv := r.r, clk := e.clk.(askTell := e.clk.askTell || r.tell)))
  }
}
