/** The system as it runs: 32-bit control blocks exchanging encoded datagrams. As long as
    no delivered packet is half the number space old, it behaves like the unbounded one. */
module ByteNetwork {
  import opened Word32
  import opened Wire
  import opened Endpoint
  import opened Invariant
  import opened Wraparound
  import opened Network
  import opened Messages
  import E = Endpoint
  import S = Sender
  import R = Receiver

  datatype ByteHalf = ByteHalf(ep: Endpoint, out: seq<Bytes>, sent: seq<Bytes>, got: seq<Bytes>, given: Bytes,
                               read: Bytes)

  datatype ByteSystem = ByteSystem(left: ByteHalf, right: ByteHalf)

  function ByteStart(cfg: Config): ByteHalf {
    ByteHalf(Create(cfg), [], [], [], [], [])
  }

  /** One API call of the 32-bit code; a delivery takes any datagram the peer ever handed out. */
  function ByteAct(h: ByteHalf, peer: ByteHalf, ev: Event): ByteHalf
    requires h.ep.cfg.mss > 0 && ValidEvent(ev)
  {
    match ev
    case Send(len, data) =>
      var r := E.Send(h.ep, len, data);
      h.(ep := r.e, sent := if r.code == 0 then h.sent + [data[..len]] else h.sent,
         given := h.given + S.TakenBytes(h.ep.cfg.mss, h.ep.cfg.stream, h.ep.snd.queue, len, data))
    case Recv(len) =>
      var r := E.Recv(Mod32, h.ep, len);
      if r.code >= 0 && len >= 0 then h.(ep := r.e, got := h.got + [r.data], read := h.read + r.data)
      else h.(ep := r.e)
    case Update(now) =>
      var f := E.Update(Mod32, h.ep, now);
      h.(ep := f.e, out := h.out + EncodeDs(f.out))
    case Flush =>
      var f := E.Flush(Mod32, h.ep);
      h.(ep := f.e, out := h.out + EncodeDs(f.out))
    case Deliver(k) => if k < |peer.out| then h.(ep := InputBytes(Mod32, h.ep, peer.out[k]).e) else h
  }

  function ByteStep(s: ByteSystem, mv: Move): ByteSystem
    requires s.left.ep.cfg.mss > 0 && s.right.ep.cfg.mss > 0 && ValidMove(mv)
  {
    match mv
    case Left(ev) => s.(left := ByteAct(s.left, s.right, ev))
    case Right(ev) => s.(right := ByteAct(s.right, s.left, ev))
  }

  // ---------------------------------------------------------------- age

  /** No number in the packet lags the newest number of its kind by half the number space:
      data behind what the peer has numbered (a receive window further), acks and `una`
      behind what this end has numbered. */
  predicate Recent(h: Half, peer: Half, p: Packet) {
    && h.ep.snd.nxt - HALF <= p.una
    && (p.cmd == CMD_ACK ==> h.ep.snd.nxt - HALF <= p.sn)
    && (p.cmd == CMD_PUSH ==> peer.ep.snd.nxt + h.ep.cfg.rcvWnd - HALF <= p.sn)
  }

  predicate RecentEvent(h: Half, peer: Half, ev: Event) {
    ev.Deliver? && ev.index < |peer.out| ==>
      forall j :: 0 <= j < |peer.out[ev.index]| ==> Recent(h, peer, peer.out[ev.index][j])
  }

  predicate RecentMove(s: System, mv: Move) {
    match mv
    case Left(ev) => RecentEvent(s.left, s.right, ev)
    case Right(ev) => RecentEvent(s.right, s.left, ev)
  }

  /** Every delivery of the run is of a datagram that is recent at that moment. */
  predicate RecentRun(s: System, moves: seq<Move>)
    requires Inv(s) && ValidMoves(moves)
  {
    moves == [] ||
    (RecentRun(s, moves[..|moves| - 1]) && RecentMove(RunFrom(s, moves[..|moves| - 1]), moves[|moves| - 1]))
  }

  /** The state while `h` takes in a datagram of `peer`. */
  predicate Incoming(e: Endpoint, h: Half, peer: Half) {
    && Taking(e, h.log, peer.log, peer.ep.rcv)
    && NoLoss(peer.ep.snd, e.rcv)
    && SndInv(peer.ep.cfg, peer.ep.snd) && ValidConfig(peer.ep.cfg) && R.ReceiverInv(peer.ep.rcv, peer.ep.cfg.rcvWnd)
    && |peer.log| == peer.ep.snd.nxt && Buffered(h.log, peer.ep.rcv) && InOrder(h.log, peer.ep.rcv)
    && e.snd.nxt == h.ep.snd.nxt && e.cfg == h.ep.cfg
  }

  /** The peer's unacknowledged numbers start inside this end's window. */
  lemma PeerWithinWindow(e: Endpoint, h: Half, peer: Half)
    requires Incoming(e, h, peer)
    ensures peer.ep.snd.nxt <= e.rcv.nxt + e.cfg.rcvWnd + 65535
  {
    var s := peer.ep.snd;
    if s.una > 0 {
      assert !S.Numbered(s.buf, s.una - 1);
      assert R.Accepted(e.rcv, s.una - 1);
      if R.Holds(e.rcv.buf, s.una - 1) {
        var i :| 0 <= i < |e.rcv.buf| && e.rcv.buf[i].sn == s.una - 1;
      }
    }
  }

  lemma AckedIsNumbered(e: Endpoint, h: Half, peer: Half, sn: int)
    requires Incoming(e, h, peer) && R.Accepted(peer.ep.rcv, sn)
    ensures sn < e.snd.nxt
  {
    if R.Holds(peer.ep.rcv.buf, sn) {
      var i :| 0 <= i < |peer.ep.rcv.buf| && peer.ep.rcv.buf[i].sn == sn;
      assert Carries(h.log, peer.ep.rcv.buf[i]);
    }
  }

  /** A recent packet is readable whatever has been taken in since. */
  lemma RecentIsReadable(e: Endpoint, h: Half, peer: Half, p: Packet)
    requires Incoming(e, h, peer) && Recent(h, peer, p) && Honest(peer.log, peer.ep.rcv, p)
    ensures Readable(e, p)
    ensures p.cmd == CMD_ACK ==> e.snd.nxt - HALF <= p.sn < e.snd.nxt
  {
    PeerWithinWindow(e, h, peer);
    assert p.una <= e.snd.nxt;
    if p.cmd == CMD_ACK { AckedIsNumbered(e, h, peer, p.sn); }
  }

  lemma IncomingStep(i: Inputting, p: Packet, h: Half, peer: Half)
    requires Incoming(i.e, h, peer) && Honest(peer.log, peer.ep.rcv, p)
    ensures Incoming(InputPacket(Unbounded, i, p).e, h, peer)
  {
    InputPacketLinks(i, p, h.log, peer.log, peer.ep.rcv);
    NoLossWhenPeerGains(peer.ep.snd, i.e.rcv, InputPacket(Unbounded, i, p).e.rcv);
    AcksStep(i, p);
  }

  predicate AckRecent(i: Inputting) {
    i.acks.MaxAck? ==> i.e.snd.nxt - HALF <= i.acks.sn < i.e.snd.nxt
  }

  lemma {:induction false} RecentIsFresh(i: Inputting, ps: Datagram, h: Half, peer: Half)
    requires Incoming(i.e, h, peer) && AckRecent(i)
    requires forall j :: 0 <= j < |ps| ==> Recent(h, peer, ps[j]) && Honest(peer.log, peer.ep.rcv, ps[j])
    ensures Fresh(i, ps)
    decreases |ps|
  {
    if ps != [] {
      RecentIsReadable(i.e, h, peer, ps[0]);
      IncomingStep(i, ps[0], h, peer);
      AcksStep(i, ps[0]);
      RecentIsFresh(InputPacket(Unbounded, i, ps[0]), ps[1..], h, peer);
    }
  }

  // ---------------------------------------------------------------- refinement

  /** Every datagram handed out can be encoded and sent. */
  predicate Sent(cfg: Config, out: seq<Datagram>) {
    forall k :: 0 <= k < |out| ==> out[k] != [] && forall j :: 0 <= j < |out[k]| ==> Writable(cfg, out[k][j])
  }

  predicate Refines(c: ByteHalf, u: Half) {
    && c.ep == WrapE(u.ep)
    && |c.out| == |u.out| && (forall k :: 0 <= k < |c.out| ==> c.out[k] == EncodeAll(WrapPs(u.out[k])))
    && c.sent == u.sent && c.got == u.got && c.given == u.given && c.read == u.read
  }

  predicate Ready(x: Half, y: Half) {
    && SystemInv(x, y) && Sent(x.ep.cfg, x.out) && Sent(y.ep.cfg, y.out)
    && x.ep.cfg.conv == y.ep.cfg.conv
  }

  lemma FlushSends(e: Endpoint)
    requires EndpointInv(e)
    ensures Sent(e.cfg, E.Flush(Unbounded, e).out)
  {
    var out := E.Flush(Unbounded, e).out;
    forall k | 0 <= k < |out|
      ensures out[k] != [] && forall j :: 0 <= j < |out[k]| ==> Writable(e.cfg, out[k][j])
    {
      FlushDatagrams(e);
      assert out[k] in out;
      forall j | 0 <= j < |out[k]| ensures Writable(e.cfg, out[k][j]) {
        FlushDatagramPackets(e, out[k], out[k][j]);
        FlushOutput(e);
      }
    }
  }

  lemma WrappedOut(c: seq<Bytes>, u: seq<Datagram>, out: seq<Datagram>)
    requires |c| == |u| && forall k :: 0 <= k < |c| ==> c[k] == EncodeAll(WrapPs(u[k]))
    ensures var c2, u2 := c + EncodeDs(WrapDs(out)), u + out;
            |c2| == |u2| && forall k :: 0 <= k < |c2| ==> c2[k] == EncodeAll(WrapPs(u2[k]))
  {
  }

  lemma SentGrows(cfg: Config, a: seq<Datagram>, b: seq<Datagram>)
    requires Sent(cfg, a) && Sent(cfg, b)
    ensures Sent(cfg, a + b)
  {
  }

  lemma FlushRefines(c: ByteHalf, u: Half, p: ByteHalf)
    requires EndpointInv(u.ep) && Sent(u.ep.cfg, u.out) && Refines(c, u)
    ensures Refines(ByteAct(c, p, Flush), Record(u, E.Flush(Unbounded, u.ep)))
    ensures Sent(u.ep.cfg, Record(u, E.Flush(Unbounded, u.ep)).out)
  {
    FlushWraps(u.ep);
    FlushSends(u.ep);
    var out := E.Flush(Unbounded, u.ep).out;
    WrappedOut(c.out, u.out, out);
    SentGrows(u.ep.cfg, u.out, out);
  }

  lemma UpdateRefines(c: ByteHalf, u: Half, p: ByteHalf, now: int)
    requires EndpointInv(u.ep) && Sent(u.ep.cfg, u.out) && Refines(c, u) && 0 <= now < TWO32
    ensures Refines(ByteAct(c, p, Update(now)), Record(u, E.Update(Unbounded, u.ep, now)))
    ensures Sent(u.ep.cfg, Record(u, E.Update(Unbounded, u.ep, now)).out)
  {
    var t := Ticked(u.ep, now);
    UpdateWraps(u.ep, now);
    UpdateIs(Unbounded, u.ep, now);
    assert EndpointInv(t);
    FlushSends(t);
    var out := E.Update(Unbounded, u.ep, now).out;
    WrappedOut(c.out, u.out, out);
    SentGrows(u.ep.cfg, u.out, out);
  }

  lemma RecvRefines(c: ByteHalf, u: Half, p: ByteHalf, q: Half, len: int)
    requires EndpointInv(u.ep) && Refines(c, u)
    ensures Refines(ByteAct(c, p, Recv(len)), Act(u, q, Recv(len)))
  {
    hide R.Recv, R.MergeCount, EncodeAll;
    RecvWraps(u.ep.rcv, u.ep.cfg.rcvWnd, len);
  }

  lemma EncodedIsLong(ps: Datagram)
    requires ps != []
    ensures |EncodeAll(ps)| >= OVERHEAD
  {
  }

  /** The parser reads back what the peer's flush encoded. */
  lemma DatagramRoundTrip(cfg: Config, e: Endpoint, ps: Datagram)
    requires ValidConfig(cfg) && e.cfg.mss > 0 && e.cfg.conv == cfg.conv
    requires ps != [] && forall j :: 0 <= j < |ps| ==> Writable(cfg, ps[j])
    ensures InputBytes(Mod32, e, EncodeAll(WrapPs(ps))) == InputResult(0, Input(Mod32, e, WrapPs(ps)))
  {
    EncodedIsLong(WrapPs(ps));
    forall p | p in WrapPs(ps) ensures Sendable(cfg.conv, p) {
      var j :| 0 <= j < |ps| && WrapPs(ps)[j] == p;
      assert Writable(cfg, ps[j]);
    }
    ParseOfEncode(cfg.conv, WrapPs(ps));
  }

  lemma DeliverRefines(c: ByteHalf, u: Half, p: ByteHalf, q: Half, k: nat)
    requires Ready(u, q) && Refines(c, u) && Refines(p, q) && RecentEvent(u, q, Deliver(k))
    ensures Refines(ByteAct(c, p, Deliver(k)), Act(u, q, Deliver(k)))
  {
    if k < |q.out| {
      var ps := q.out[k];
      DatagramRoundTrip(q.ep.cfg, WrapE(u.ep), ps);
      DeliverFresh(u, q, k);
      forall x | x in ps ensures Arrived(x) {
        var j :| 0 <= j < |ps| && ps[j] == x;
        assert Honest(q.log, q.ep.rcv, ps[j]);
      }
      InputWraps(u.ep, ps);
    }
  }

  lemma DeliverFresh(u: Half, q: Half, k: nat)
    requires SystemInv(u, q) && k < |q.out| && RecentEvent(u, q, Deliver(k))
    ensures Fresh(Inputting(u.ep, NoAck), q.out[k])
  {
    var ps := q.out[k];
    assert forall j :: 0 <= j < |ps| ==> Honest(q.log, q.ep.rcv, ps[j]);
    RecentIsFresh(Inputting(u.ep, NoAck), ps, u, q);
  }

  lemma QuietOut(x: Half, y: Half, ev: Event)
    requires SystemInv(x, y) && ValidEvent(ev) && Sent(x.ep.cfg, x.out)
    ensures Sent(x.ep.cfg, Act(x, y, ev).out) && Act(x, y, ev).ep.cfg == x.ep.cfg
  {
    match ev
    case Flush => FlushSends(x.ep); SentGrows(x.ep.cfg, x.out, E.Flush(Unbounded, x.ep).out);
    case Update(now) => SentAfterUpdate(x, now);
    case Deliver(k) => if k < |y.out| { InputConsumes(x.ep, y.out[k]); }
    case Send(len, data) =>
    case Recv(len) =>
  }

  lemma SentAfterUpdate(x: Half, now: int)
    requires EndpointInv(x.ep) && Sent(x.ep.cfg, x.out) && 0 <= now < TWO32
    ensures Sent(x.ep.cfg, Record(x, E.Update(Unbounded, x.ep, now)).out)
  {
    assert EndpointInv(Ticked(x.ep, now));
    FlushSends(Ticked(x.ep, now));
    UpdateIs(Unbounded, x.ep, now);
    SentGrows(x.ep.cfg, x.out, E.Update(Unbounded, x.ep, now).out);
  }

  lemma ActKeepsReady(x: Half, y: Half, ev: Event)
    requires Ready(x, y) && ValidEvent(ev)
    ensures Ready(Act(x, y, ev), y)
  {
    ActKeepsSystem(x, y, ev);
    QuietOut(x, y, ev);
  }

  lemma ActRefines(c: ByteHalf, u: Half, p: ByteHalf, q: Half, ev: Event)
    requires Ready(u, q) && Refines(c, u) && Refines(p, q) && ValidEvent(ev) && RecentEvent(u, q, ev)
    ensures Refines(ByteAct(c, p, ev), Act(u, q, ev))
  {
    match ev
    case Send(len, data) =>
    case Recv(len) => RecvRefines(c, u, p, q, len);
    case Update(now) => UpdateRefines(c, u, p, now);
    case Flush => FlushRefines(c, u, p);
    case Deliver(k) => DeliverRefines(c, u, p, q, k);
  }

  predicate AllRefined(c: ByteSystem, u: System) {
    Ready(u.left, u.right) && Refines(c.left, u.left) && Refines(c.right, u.right)
  }

  lemma StepRefines(c: ByteSystem, u: System, mv: Move)
    requires AllRefined(c, u) && ValidMove(mv) && RecentMove(u, mv)
    ensures AllRefined(ByteStep(c, mv), Step(u, mv))
  {
    match mv
    case Left(ev) =>
      ActRefines(c.left, u.left, c.right, u.right, ev);
      ActKeepsReady(u.left, u.right, ev);
    case Right(ev) =>
      ActRefines(c.right, u.right, c.left, u.left, ev);
      ActKeepsReady(u.right, u.left, ev);
  }

  /** A run of the 32-bit system. */
  function ByteRun(a: Config, b: Config, moves: seq<Move>): (s: ByteSystem)
    requires ValidConfig(a) && ValidConfig(b) && ValidMoves(moves)
    ensures s.left.ep.cfg == a && s.right.ep.cfg == b
  {
    if moves == [] then ByteSystem(ByteStart(a), ByteStart(b))
    else
      var n := |moves| - 1;
      var s := ByteRun(a, b, moves[..n]);
      ByteStepKeepsConfig(s, moves[n]);
      ByteStep(s, moves[n])
  }

  lemma ByteStepKeepsConfig(s: ByteSystem, mv: Move)
    requires s.left.ep.cfg.mss > 0 && s.right.ep.cfg.mss > 0 && ValidMove(mv)
    ensures ByteStep(s, mv).left.ep.cfg == s.left.ep.cfg && ByteStep(s, mv).right.ep.cfg == s.right.ep.cfg
  {
    match mv
    case Left(ev) =>
      if ev.Deliver? && ev.index < |s.right.out| { InputBytesKeepsConfig(s.left.ep, s.right.out[ev.index]); }
    case Right(ev) =>
      if ev.Deliver? && ev.index < |s.left.out| { InputBytesKeepsConfig(s.right.ep, s.left.out[ev.index]); }
  }

  lemma InputBytesKeepsConfig(e: Endpoint, bytes: Bytes)
    requires e.cfg.mss > 0
    ensures InputBytes(Mod32, e, bytes).e.cfg == e.cfg
  {
    InputKeepsConfig(Mod32, Inputting(e, NoAck), ParseAll(e.cfg.conv, bytes).packets);
  }

  predicate RecentCalls(a: Config, b: Config, moves: seq<Move>)
    requires ValidConfig(a) && ValidConfig(b) && ValidMoves(moves)
  {
    StartInv(a, b);
    RecentRun(System(Start(a), Start(b)), moves)
  }

  /** The wraparound theorem: over every run in which deliveries are recent, the 32-bit
      system is at each moment the wrapped image of the unbounded one. */
  lemma {:induction false} ByteRunRefines(a: Config, b: Config, moves: seq<Move>)
    requires ValidConfig(a) && ValidConfig(b) && ValidMoves(moves) && a.conv == b.conv
    requires RecentCalls(a, b, moves)
    ensures AllRefined(ByteRun(a, b, moves), Run(a, b, moves))
  {
    StartInv(a, b);
    var s := System(Start(a), Start(b));
    if moves == [] {
      StartRefines(a);
      StartRefines(b);
    } else {
      var n := |moves| - 1;
      ByteRunRefines(a, b, moves[..n]);
      StepRefines(ByteRun(a, b, moves[..n]), RunFrom(s, moves[..n]), moves[n]);
    }
  }

  lemma StartRefines(cfg: Config)
    ensures Refines(ByteStart(cfg), Start(cfg))
  {
    assert WrapSegs([]) == [] && WrapPs([]) == [] && WrapAcks([]) == [];
  }

  /** The round trip of the 32-bit code over real datagrams: bytes read are a prefix of the
      bytes given, and outside stream mode messages received a prefix of messages sent. */
  lemma ByteRoundTrip(a: Config, b: Config, moves: seq<Move>)
    requires ValidConfig(a) && ValidConfig(b) && ValidMoves(moves) && a.conv == b.conv
    requires RecentCalls(a, b, moves)
    ensures var s := ByteRun(a, b, moves);
            && s.right.read <= s.left.given && s.left.read <= s.right.given
            && (!a.stream ==> s.right.got <= s.left.sent) && (!b.stream ==> s.left.got <= s.right.sent)
  {
    hide ByteRun, Run, RecentCalls, ValidConfig;
    ByteRunRefines(a, b, moves);
    RoundTrip(a, b, moves);
  }

  // ---------------------------------------------------------------- messages that do not fit

  /** The next message the right end is to read has more than this many bytes. */
  predicate NextExceeds(s: ByteSystem, bytes: int) {
    |s.right.got| < |s.left.sent| && |s.left.sent[|s.right.got|]| > bytes
  }

  /** The 32-bit code can read a full queue exactly when the message at its head has at most
      `rcv_wnd` full segments of data. */
  lemma ByteFullQueueReadable(a: Config, b: Config, moves: seq<Move>, len: int)
    requires ValidConfig(a) && ValidConfig(b) && ValidMoves(moves) && a.conv == b.conv && !a.stream
    requires RecentCalls(a, b, moves) && |ByteRun(a, b, moves).right.ep.rcv.queue| >= b.rcvWnd
    ensures var s := ByteRun(a, b, moves);
            && |s.right.got| < |s.left.sent|
            && (|s.left.sent[|s.right.got|]| <= len ==>
                  (E.Recv(Mod32, s.right.ep, len).code >= 0 <==>
                     |s.left.sent[|s.right.got|]| <= b.rcvWnd * a.mss))
  {
    hide ByteRun, Run, RecentCalls, ValidConfig, SystemInv, E.Recv;
    ByteRunRefines(a, b, moves);
    FullQueueReadable(a, b, moves, len);
    RightInv(Run(a, b, moves));
    RecvSameCode(Run(a, b, moves).right.ep, len);
  }

  lemma RightInv(s: System)
    requires Inv(s)
    ensures EndpointInv(s.right.ep)
  {
  }

  lemma RecvSameCode(u: Endpoint, len: int)
    requires EndpointInv(u)
    ensures E.Recv(Mod32, WrapE(u), len).code == E.Recv(Unbounded, u, len).code
  {
    RecvWraps(u.rcv, u.cfg.rcvWnd, len);
    hide R.Recv;
  }

  lemma {:induction false} RecentPrefix(a: Config, b: Config, moves: seq<Move>, later: seq<Move>)
    requires ValidConfig(a) && ValidConfig(b) && ValidMoves(moves) && ValidMoves(later)
    requires RecentCalls(a, b, moves + later)
    ensures RecentCalls(a, b, moves)
    decreases |later|
  {
    hide ValidConfig, ValidMove, RecentMove;
    if later == [] {
      assert moves + later == moves;
    } else {
      var n := |later| - 1;
      assert (moves + later)[..|moves + later| - 1] == moves + later[..n];
      RecentPrefix(a, b, moves, later[..n]);
    }
  }

  /** A message of more data than the window jams the 32-bit code too, for as long as
      deliveries are recent. */
  lemma ByteJamForever(a: Config, b: Config, moves: seq<Move>, later: seq<Move>)
    requires ValidConfig(a) && ValidConfig(b) && ValidMoves(moves) && ValidMoves(later)
    requires a.conv == b.conv && !a.stream && RecentCalls(a, b, moves + later)
    requires NextExceeds(ByteRun(a, b, moves), b.rcvWnd * a.mss)
    ensures var s := ByteRun(a, b, moves); var t := ByteRun(a, b, moves + later);
            t.right.got == s.right.got && s.left.sent <= t.left.sent
  {
    hide ByteRun, Run, RecentCalls, ValidConfig, SystemInv;
    RecentPrefix(a, b, moves, later);
    ByteRunRefines(a, b, moves);
    ByteRunRefines(a, b, moves + later);
    RunConfig(a, b, moves);
    assert a.mss > 0 by { MssPositive(a); }
    JamForever(a, b, moves, later);
  }

  lemma MssPositive(cfg: Config)
    requires ValidConfig(cfg)
    ensures cfg.mss > 0
  {
  }

  lemma RunConfig(a: Config, b: Config, moves: seq<Move>)
    requires ValidConfig(a) && ValidConfig(b) && ValidMoves(moves)
    ensures Run(a, b, moves).left.ep.cfg == a && Run(a, b, moves).right.ep.cfg == b
  {
    StartInv(a, b);
    RunKeepsConfig(System(Start(a), Start(b)), moves);
  }

  lemma OneSendIsRecent(a: Config, b: Config, ev: Event)
    requires ValidConfig(a) && ValidConfig(b) && ev.Send? && ValidEvent(ev)
    ensures RecentCalls(a, b, [Left(ev)])
  {
    hide SystemInv, ValidConfig;
    StartInv(a, b);
    var s := System(Start(a), Start(b));
    var mv := Left(ev);
    assert [mv][..|[mv]| - 1] == [] && [mv][|[mv]| - 1] == mv;
    assert RecentRun(s, []) && RecentMove(RunFrom(s, []), mv);
    assert RecentRun(s, [mv]);
  }

  /** And one send is enough for that. */
  lemma ByteJamReachable(a: Config, b: Config, data: Bytes)
    requires ValidConfig(a) && ValidConfig(b) && !a.stream
    requires b.rcvWnd * a.mss < |data| <= 255 * a.mss
    ensures var moves := [Left(Network.Send(|data|, data))];
            && RecentCalls(a, b, moves)
            && NextExceeds(ByteRun(a, b, moves), b.rcvWnd * a.mss)
  {
    hide E.Send, S.FragmentCount, RecentCalls, S.TakenBytes;
    var mv := Left(Network.Send(|data|, data));
    OneSendIsRecent(a, b, mv.ev);
    FirstSendWorks(a, data);
    assert [mv][..0] == [] && data[..|data|] == data;
    var s := ByteSystem(ByteStart(a), ByteStart(b));
    assert ByteRun(a, b, []) == s && ByteRun(a, b, [mv]) == ByteStep(s, mv);
  }

  // ---------------------------------------------------------------- the other direction

  lemma {:induction false} RecentTurned(s: System, moves: seq<Move>)
    requires Inv(s) && ValidMoves(moves)
    ensures Inv(System(s.right, s.left)) && ValidMoves(AllTurned(moves))
    ensures RecentRun(System(s.right, s.left), AllTurned(moves)) <==> RecentRun(s, moves)
  {
    hide SystemInv, Act, RecentEvent;
    RunFromTurned(s, moves);
    if moves != [] {
      var n := |moves| - 1;
      RecentTurned(s, moves[..n]);
      RunFromTurned(s, moves[..n]);
      assert AllTurned(moves)[..n] == AllTurned(moves[..n]);
    }
  }

  /** The two ends of the 32-bit system can be exchanged too. */
  lemma {:induction false} ByteRunTurned(a: Config, b: Config, moves: seq<Move>)
    requires ValidConfig(a) && ValidConfig(b) && ValidMoves(moves)
    ensures ValidMoves(AllTurned(moves)) && (RecentCalls(b, a, AllTurned(moves)) <==> RecentCalls(a, b, moves))
    ensures var t := ByteRun(a, b, moves); ByteRun(b, a, AllTurned(moves)) == ByteSystem(t.right, t.left)
  {
    hide ByteAct, RecentRun, ValidConfig;
    StartInv(a, b);
    RecentTurned(System(Start(a), Start(b)), moves);
    if moves != [] {
      var n := |moves| - 1;
      ByteRunTurned(a, b, moves[..n]);
      assert AllTurned(moves)[..n] == AllTurned(moves[..n]);
    }
  }
}
