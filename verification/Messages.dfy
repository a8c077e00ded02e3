/** End to end: what the application reads at one end is what it gave at the other. */
module Messages {
  import opened Word32
  import opened Wire
  import opened Endpoint
  import opened Invariant
  import opened Network
  import E = Endpoint
  import S = Sender
  import R = Receiver

  // ---------------------------------------------------------------- messages as chunks

  function MessageChunks(mss: int, m: Bytes): seq<S.Chunk>
    requires mss > 0
  {
    S.Fragments(mss, false, m, S.FragmentCount(mss, |m|))
  }

  function AllChunks(mss: int, ms: seq<Bytes>): seq<S.Chunk>
    requires mss > 0
  {
    if ms == [] then [] else AllChunks(mss, ms[..|ms| - 1]) + MessageChunks(mss, ms[|ms| - 1])
  }

  lemma {:induction false} AllChunksSplit(mss: int, a: seq<Bytes>, b: seq<Bytes>)
    requires mss > 0
    ensures AllChunks(mss, a + b) == AllChunks(mss, a) + AllChunks(mss, b)
  {
    hide MessageChunks;
    if b == [] {
      assert a + b == a;
    } else {
      var n := |b| - 1;
      assert (a + b)[..|a + b| - 1] == a + b[..n] && (a + b)[|a + b| - 1] == b[n];
      AllChunksSplit(mss, a, b[..n]);
    }
  }

  lemma AllChunksOne(mss: int, m: Bytes)
    requires mss > 0
    ensures AllChunks(mss, [m]) == MessageChunks(mss, m)
  {
    assert [m][..0] == [];
  }

  lemma AllChunksSnoc(mss: int, ms: seq<Bytes>, m: Bytes)
    requires mss > 0
    ensures AllChunks(mss, ms + [m]) == AllChunks(mss, ms) + MessageChunks(mss, m)
  {
    assert (ms + [m])[..|ms|] == ms;
  }

  lemma PrefixGrows<T>(a: seq<T>, b: seq<T>)
    requires a <= b && |a| < |b|
    ensures a + [b[|a|]] <= b
  {
  }

  lemma {:induction false} FragmentsLength(mss: int, stream: bool, data: Bytes, count: nat)
    requires mss > 0
    ensures |S.Fragments(mss, stream, data, count)| == count
    decreases count
  {
    if count > 0 { FragmentsLength(mss, stream, data[Min(mss, |data|)..], count - 1); }
  }

  // ---------------------------------------------------------------- reassembly

  /** The queue starts with these chunks, as far as it goes. */
  predicate Starts(queue: seq<Packet>, chunks: seq<S.Chunk>) {
    |queue| <= |chunks| && forall i :: 0 <= i < |queue| ==> S.Chunk(queue[i].frg, queue[i].data) == chunks[i]
  }

  /** Merging up to fragment number 0 puts one whole message back together. */
  lemma {:induction false} MergeRestores(queue: seq<Packet>, mss: int, m: Bytes, count: nat, rest: seq<S.Chunk>)
    requires mss > 0 && 1 <= count <= |queue| && |m| <= count * mss
    requires Starts(queue, S.Fragments(mss, false, m, count) + rest)
    ensures R.MergeCount(queue) == count && R.MergeData(queue) == m
    decreases count
  {
    var size := Min(mss, |m|);
    var tail := S.Fragments(mss, false, m[size..], count - 1);
    FirstFragment(queue, mss, m, count, rest);
    S.OneFragmentLess(mss, |m|, count);
    if count > 1 {
      MergeRestores(queue[1..], mss, m[size..], count - 1, rest);
      assert m[..size] + m[size..] == m;
    }
  }

  /** The queue starts with the first fragment, and its rest with the other fragments. */
  lemma FirstFragment(queue: seq<Packet>, mss: int, m: Bytes, count: nat, rest: seq<S.Chunk>)
    requires mss > 0 && 1 <= count && queue != []
    requires Starts(queue, S.Fragments(mss, false, m, count) + rest)
    ensures var size := Min(mss, |m|);
            && queue[0].frg == count - 1 && queue[0].data == m[..size]
            && Starts(queue[1..], S.Fragments(mss, false, m[size..], count - 1) + rest)
  {
    var size := Min(mss, |m|);
    var head := S.Chunk(count - 1, m[..size]);
    var tail := S.Fragments(mss, false, m[size..], count - 1);
    assert S.Fragments(mss, false, m, count) + rest == [head] + (tail + rest);
    assert S.Chunk(queue[0].frg, queue[0].data) == head;
    forall i | 0 <= i < |queue| - 1
      ensures S.Chunk(queue[1..][i].frg, queue[1..][i].data) == (tail + rest)[i]
    {
      assert ([head] + (tail + rest))[i + 1] == (tail + rest)[i];
    }
  }

  /** `ikcp_peeksize` finds the head message exactly when the queue has full segments enough for it. */
  lemma HeadMessage(queue: seq<Packet>, mss: int, m: Bytes, rest: seq<S.Chunk>)
    requires mss > 0 && queue != [] && Starts(queue, MessageChunks(mss, m) + rest)
    ensures |m| <= |queue| * mss ==>
              && R.PeekSize(queue) == |m| && R.MergeData(queue) == m
              && R.MergeCount(queue) == S.FragmentCount(mss, |m|) <= |queue|
    ensures |m| > |queue| * mss ==> R.PeekSize(queue) == -1
  {
    var count := S.FragmentCount(mss, |m|);
    S.CountIff(mss, |m|, |queue|);
    FragmentsLength(mss, false, m, count);
    S.CountSuffices(mss, |m|);
    assert queue[0].frg == count - 1 by {
      assert S.Chunk(queue[0].frg, queue[0].data) == MessageChunks(mss, m)[0];
    }
    if |queue| >= count {
      MergeRestores(queue, mss, m, count, rest);
    }
  }

  lemma {:induction false} MergeIsContents(queue: seq<Packet>)
    ensures R.MergeData(queue) == S.Contents(Chunks(queue[..R.MergeCount(queue)]))
  {
    if queue != [] {
      var c := Chunks([queue[0]]);
      assert c[..0] == [] && S.Contents(c) == queue[0].data;
      if queue[0].frg == 0 {
        assert queue[..1] == [queue[0]];
      } else {
        var k := R.MergeCount(queue[1..]);
        MergeIsContents(queue[1..]);
        assert Chunks(queue[..k + 1]) == c + Chunks(queue[1..][..k]);
        S.ContentsConcat(c, Chunks(queue[1..][..k]));
      }
    }
  }

  // ---------------------------------------------------------------- the invariant

  function Consumed(r: R.Receiver): int {
    r.nxt - |r.queue|
  }

  /** What was numbered and what is queued is what was given; what was taken is the front of
      what was numbered. */
  predicate Conserved(x: Half, y: Half) {
    && S.Contents(x.log + x.ep.snd.queue) == x.given
    && 0 <= Consumed(y.ep.rcv) <= |x.log| && y.taken == x.log[..Consumed(y.ep.rcv)]
    && y.read == S.Contents(y.taken)
  }

  predicate MessagesKept(x: Half, y: Half)
    requires x.ep.cfg.mss > 0
  {
    && x.log + x.ep.snd.queue == AllChunks(x.ep.cfg.mss, x.sent)
    && y.got <= x.sent && y.taken == AllChunks(x.ep.cfg.mss, y.got)
  }

  /** From sender `x` to receiver `y`. */
  predicate Delivers(x: Half, y: Half)
    requires x.ep.cfg.mss > 0
  {
    Conserved(x, y) && (!x.ep.cfg.stream ==> MessagesKept(x, y))
  }

  predicate FullInv(x: Half, y: Half) {
    SystemInv(x, y) && Delivers(x, y) && Delivers(y, x)
  }

  // ---------------------------------------------------------------- steps

  /** Flushes and deliveries leave the front and the sum unchanged. */
  lemma QuietSender(x: Half, y: Half, x': Half)
    requires x.ep.cfg.mss > 0 && Delivers(x, y) && x'.ep.cfg == x.ep.cfg
    requires x.log <= x'.log && x'.log + x'.ep.snd.queue == x.log + x.ep.snd.queue
    requires x'.given == x.given && x'.sent == x.sent
    ensures Delivers(x', y)
  {
    assert x'.log[..Consumed(y.ep.rcv)] == x.log[..Consumed(y.ep.rcv)];
  }

  lemma QuietReceiver(x: Half, y: Half, y': Half)
    requires x.ep.cfg.mss > 0 && Delivers(x, y)
    requires Consumed(y'.ep.rcv) == Consumed(y.ep.rcv)
    requires y'.taken == y.taken && y'.got == y.got && y'.read == y.read
    ensures Delivers(x, y')
  {
  }

  lemma DrainKeepsConsumed(r: R.Receiver, wnd: int)
    ensures Consumed(R.Drain(Unbounded, r, wnd)) == Consumed(r)
  {
    R.DrainMoves(r, wnd);
  }

  lemma InputPacketConsumes(i: Inputting, p: Packet)
    ensures var j := InputPacket(Unbounded, i, p);
            Consumed(j.e.rcv) == Consumed(i.e.rcv) && j.e.snd.queue == i.e.snd.queue
  {
    var r1 := i.e.rcv.(acks := i.e.rcv.acks + [R.Ack(p.sn, p.ts)]);
    DrainKeepsConsumed(r1.(buf := R.Insert(Unbounded, r1.buf, p)), i.e.cfg.rcvWnd);
  }

  lemma {:induction false} InputPacketsConsume(i: Inputting, ps: Datagram)
    ensures var j := InputPackets(Unbounded, i, ps);
            Consumed(j.e.rcv) == Consumed(i.e.rcv) && j.e.snd.queue == i.e.snd.queue
    decreases |ps|
  {
    if ps != [] {
      InputPacketConsumes(i, ps[0]);
      InputPacketsConsume(InputPacket(Unbounded, i, ps[0]), ps[1..]);
    }
  }

  lemma InputConsumes(e: Endpoint, ps: Datagram)
    requires e.cfg.mss > 0
    ensures var f := Input(Unbounded, e, ps);
            Consumed(f.rcv) == Consumed(e.rcv) && f.snd.queue == e.snd.queue && f.cfg == e.cfg
  {
    InputPacketsConsume(Inputting(e, NoAck), ps);
    InputKeepsConfig(Unbounded, Inputting(e, NoAck), ps);
  }

  predicate BothDeliver(x: Half, y: Half) {
    x.ep.cfg.mss > 0 && y.ep.cfg.mss > 0 && Delivers(x, y) && Delivers(y, x)
  }

  lemma DeliverDelivers(x: Half, y: Half, ps: Datagram)
    requires BothDeliver(x, y)
    ensures BothDeliver(x.(ep := Input(Unbounded, x.ep, ps)), y)
  {
    var x' := x.(ep := Input(Unbounded, x.ep, ps));
    InputConsumes(x.ep, ps);
    QuietSender(x, y, x');
    QuietReceiver(y, x, x');
  }

  lemma CutInTwo<T>(log: seq<T>, queue: seq<T>, n: nat)
    requires n <= |queue|
    ensures (log + queue[..n]) + queue[n..] == log + queue
  {
  }

  lemma FlushDelivers(x: Half, y: Half)
    requires BothDeliver(x, y)
    ensures BothDeliver(Record(x, E.Flush(Unbounded, x.ep)), y)
  {
    RecordIs(x);
    if x.ep.clk.updated {
      var h := FlushedHalf(x);
      FlushedQueue(x);
      QuietSender(x, y, h);
      QuietReceiver(y, x, h);
    }
  }

  lemma FlushedQueue(x: Half)
    ensures var h := FlushedHalf(x);
            h.log + h.ep.snd.queue == x.log + x.ep.snd.queue && h.ep.cfg == x.ep.cfg && x.log <= h.log
  {
    AdmittedShape(x.ep);
    CutInTwo(x.log, x.ep.snd.queue, Admitted(Unbounded, x.ep).nxt - x.ep.snd.nxt);
  }

  lemma UpdateDelivers(x: Half, y: Half, now: int)
    requires BothDeliver(x, y)
    ensures BothDeliver(Record(x, E.Update(Unbounded, x.ep, now)), y)
  {
    var t := x.(ep := Ticked(x.ep, now));
    assert BothDeliver(t, y);
    RecordUpdateIs(x, now);
    FlushDelivers(t, y);
  }

  lemma ContentsGrow(log: seq<S.Chunk>, q: seq<S.Chunk>, q2: seq<S.Chunk>, more: Bytes)
    requires S.Contents(q2) == S.Contents(q) + more
    ensures S.Contents(log + q2) == S.Contents(log + q) + more
  {
    hide S.Contents;
    S.ContentsConcat(log, q);
    S.ContentsConcat(log, q2);
    assert S.Contents(log) + (S.Contents(q) + more) == S.Contents(log) + S.Contents(q) + more;
  }

  lemma SendConserves(x: Half, y: Half, len: int, data: Bytes)
    requires BothDeliver(x, y) && len <= |data|
    ensures Conserved(Act(x, y, Send(len, data)), y)
  {
    var c := x.ep.cfg;
    var q := x.ep.snd.queue;
    S.SendQueuesBytes(c.mss, c.stream, q, len, data);
    ContentsGrow(x.log, q, S.Send(c.mss, c.stream, q, len, data).queue, S.TakenBytes(c.mss, c.stream, q, len, data));
  }

  lemma SendKeepsMessages(x: Half, y: Half, len: int, data: Bytes)
    requires x.ep.cfg.mss > 0 && MessagesKept(x, y) && !x.ep.cfg.stream && len <= |data|
    ensures MessagesKept(Act(x, y, Send(len, data)), y)
  {
    var c := x.ep.cfg;
    SendQueuesMessage(c.mss, x.ep.snd.queue, len, data);
    if E.Send(x.ep, len, data).code == 0 {
      AllChunksSnoc(c.mss, x.sent, data[..len]);
      assert x.log + (x.ep.snd.queue + MessageChunks(c.mss, data[..len]))
          == x.log + x.ep.snd.queue + MessageChunks(c.mss, data[..len]);
    }
  }

  lemma SendDelivers(x: Half, y: Half, len: int, data: Bytes)
    requires BothDeliver(x, y) && len <= |data|
    ensures BothDeliver(Act(x, y, Send(len, data)), y)
  {
    SendConserves(x, y, len, data);
    if !x.ep.cfg.stream { SendKeepsMessages(x, y, len, data); }
    QuietReceiver(y, x, Act(x, y, Send(len, data)));
  }

  /** Outside stream mode a send queues one whole message, or nothing. */
  lemma SendQueuesMessage(mss: int, queue: seq<S.Chunk>, len: int, data: Bytes)
    requires mss > 0 && len <= |data|
    ensures var s := S.Send(mss, false, queue, len, data);
            if s.code == 0 then len >= 0 && s.queue == queue + MessageChunks(mss, data[..len]) else s.queue == queue
  {
  }

  /** `y` reads messages of `x`. */
  predicate Reads(x: Half, y: Half) {
    x.ep.cfg.mss > 0 && !x.ep.cfg.stream && InOrder(x.log, y.ep.rcv) && Conserved(x, y) && MessagesKept(x, y)
  }

  lemma SplitTail<T>(log: seq<T>, queue: seq<T>, taken: seq<T>, rest: seq<T>, c: nat, n: nat)
    requires log + queue == taken + rest && |taken| == c && c + n <= |log|
    ensures n <= |rest| && rest[..n] == log[c..c + n]
  {
    assert rest == (log + queue)[c..];
  }

  /** The receive queue is the front of what is left of the sent messages. */
  lemma QueueStarts(x: Half, y: Half)
    requires Reads(x, y)
    ensures Starts(y.ep.rcv.queue, AllChunks(x.ep.cfg.mss, x.sent[|y.got|..]))
  {
    hide AllChunks, S.Contents;
    var mss := x.ep.cfg.mss;
    var k := |y.got|;
    AllChunksSplit(mss, y.got, x.sent[k..]);
    assert y.got + x.sent[k..] == x.sent;
    var rest := AllChunks(mss, x.sent[k..]);
    var r := y.ep.rcv;
    SplitTail(x.log, x.ep.snd.queue, y.taken, rest, Consumed(r), |r.queue|);
    FrontOfLog(x.log, r, rest);
  }

  lemma FrontOfLog(log: seq<S.Chunk>, r: R.Receiver, rest: seq<S.Chunk>)
    requires InOrder(log, r) && 0 <= Consumed(r) <= r.nxt <= |log|
    requires |r.queue| <= |rest| && rest[..|r.queue|] == log[Consumed(r)..Consumed(r) + |r.queue|]
    ensures Starts(r.queue, rest)
  {
    forall i | 0 <= i < |r.queue| ensures S.Chunk(r.queue[i].frg, r.queue[i].data) == rest[i] {
      assert rest[i] == rest[..|r.queue|][i];
    }
  }

  lemma FrontMessage(x: Half, y: Half)
    requires Reads(x, y) && y.ep.rcv.queue != []
    ensures |y.got| < |x.sent|
    ensures AllChunks(x.ep.cfg.mss, x.sent[|y.got|..])
         == MessageChunks(x.ep.cfg.mss, x.sent[|y.got|]) + AllChunks(x.ep.cfg.mss, x.sent[|y.got| + 1..])
  {
    var k := |y.got|;
    QueueStarts(x, y);
    var m := x.sent[k];
    assert x.sent[k..] == [m] + x.sent[k + 1..];
    AllChunksSplit(x.ep.cfg.mss, [m], x.sent[k + 1..]);
    AllChunksOne(x.ep.cfg.mss, m);
  }

  /** A receive returns the next message that was sent, whole, exactly when all its
      segments are in the queue and the caller's buffer has room; the code tells what is missing. */
  lemma RecvIsNextMessage(x: Half, y: Half, len: int)
    requires Reads(x, y)
    ensures var r := E.Recv(Unbounded, y.ep, len);
            r.code >= 0 ==> |y.got| < |x.sent| && r.data == x.sent[|y.got|] && r.code == |r.data|
    ensures E.Recv(Unbounded, y.ep, len).code >= 0 <==>
              && y.ep.rcv.queue != [] && |y.got| < |x.sent|
              && |x.sent[|y.got|]| <= |y.ep.rcv.queue| * x.ep.cfg.mss
              && |x.sent[|y.got|]| <= (if len < 0 then -len else len)
    ensures var code := E.Recv(Unbounded, y.ep, len).code;
            if y.ep.rcv.queue == [] then code == -1
            else
              && |y.got| < |x.sent|
              && var size := |x.sent[|y.got|]|;
                 if size > |y.ep.rcv.queue| * x.ep.cfg.mss then code == -2
                 else if size > (if len < 0 then -len else len) then code == -3
                 else code == size
    ensures E.Recv(Unbounded, y.ep, len).code >= 0 ==>
              R.MergeCount(y.ep.rcv.queue) == S.FragmentCount(x.ep.cfg.mss, |x.sent[|y.got|]|)
  {
    hide R.MergeData, R.MergeCount, R.Drain, R.PeekSize, AllChunks, InOrder, Conserved;
    if y.ep.rcv.queue != [] {
      var k := |y.got|;
      QueueStarts(x, y);
      FrontMessage(x, y);
      HeadMessage(y.ep.rcv.queue, x.ep.cfg.mss, x.sent[k], AllChunks(x.ep.cfg.mss, x.sent[k + 1..]));
    }
  }

  lemma RecvConsumes(r: R.Receiver, wnd: int, len: int)
    ensures var v := R.Recv(Unbounded, r, wnd, len);
            Consumed(v.r) == Consumed(r) + (if v.code >= 0 && len >= 0 then R.MergeCount(r.queue) else 0)
  {
    var rest := if len < 0 then r.queue else r.queue[R.MergeCount(r.queue)..];
    DrainKeepsConsumed(r.(queue := rest), wnd);
    PeekSizeSign(r.queue);
  }

  lemma PeekSizeSign(queue: seq<Packet>)
    ensures R.PeekSize(queue) >= -1 && (queue == [] ==> R.PeekSize(queue) == -1)
  {
  }

  /** The first `k` queued packets are the next `k` chunks. */
  lemma QueueChunks(log: seq<S.Chunk>, r: R.Receiver, k: nat)
    requires InOrder(log, r) && k <= |r.queue|
    ensures log[..Consumed(r)] + Chunks(r.queue[..k]) == log[..Consumed(r) + k]
  {
    var c := Consumed(r);
    forall i | 0 <= i < k ensures Chunks(r.queue[..k])[i] == log[c + i] {
      assert S.Chunk(r.queue[i].frg, r.queue[i].data) == log[r.nxt - |r.queue| + i];
    }
  }

  lemma RecvConserves(x: Half, y: Half, len: int)
    requires y.ep.cfg.mss > 0 && InOrder(x.log, y.ep.rcv) && Conserved(x, y)
    ensures Conserved(x, Act(y, x, Recv(len)))
  {
    var r := y.ep.rcv;
    RecvConsumes(r, y.ep.cfg.rcvWnd, len);
    MergeIsContents(r.queue);
    var k := R.MergeCount(r.queue);
    S.ContentsConcat(y.taken, Chunks(r.queue[..k]));
    QueueChunks(x.log, r, k);
  }

  lemma StartsTake(queue: seq<Packet>, head: seq<S.Chunk>, rest: seq<S.Chunk>)
    requires Starts(queue, head + rest) && |head| <= |queue|
    ensures Chunks(queue[..|head|]) == head
  {
    forall i | 0 <= i < |head| ensures Chunks(queue[..|head|])[i] == head[i] {
      assert S.Chunk(queue[i].frg, queue[i].data) == (head + rest)[i];
    }
  }

  lemma RecvKeepsMessages(x: Half, y: Half, len: int)
    requires Reads(x, y) && y.ep.cfg.mss > 0
    ensures MessagesKept(x, Act(y, x, Recv(len)))
  {
    if E.Recv(Unbounded, y.ep, len).code >= 0 && len >= 0 {
      var mss := x.ep.cfg.mss;
      RecvIsNextMessage(x, y, len);
      QueueStarts(x, y);
      FrontMessage(x, y);
      var m := x.sent[|y.got|];
      FragmentsLength(mss, false, m, S.FragmentCount(mss, |m|));
      StartsTake(y.ep.rcv.queue, MessageChunks(mss, m), AllChunks(mss, x.sent[|y.got| + 1..]));
      AllChunksSnoc(mss, y.got, m);
      PrefixGrows(y.got, x.sent);
    }
  }

  lemma RecvDelivers(x: Half, y: Half, len: int)
    requires BothDeliver(x, y) && InOrder(y.log, x.ep.rcv)
    ensures BothDeliver(Act(x, y, Recv(len)), y)
  {
    RecvConserves(y, x, len);
    if !y.ep.cfg.stream { RecvKeepsMessages(y, x, len); }
    QuietSender(x, y, Act(x, y, Recv(len)));
  }

  lemma ActDelivers(x: Half, y: Half, ev: Event)
    requires BothDeliver(x, y) && InOrder(y.log, x.ep.rcv) && ValidEvent(ev)
    ensures BothDeliver(Act(x, y, ev), y)
  {
    match ev
    case Send(len, data) => SendDelivers(x, y, len, data);
    case Recv(len) => RecvDelivers(x, y, len);
    case Update(now) => UpdateDelivers(x, y, now);
    case Flush => FlushDelivers(x, y);
    case Deliver(k) => if k < |y.out| { DeliverDelivers(x, y, y.out[k]); }
  }

  lemma ActKeepsFull(x: Half, y: Half, ev: Event)
    requires FullInv(x, y) && ValidEvent(ev)
    ensures FullInv(Act(x, y, ev), y)
  {
    ActKeepsSystem(x, y, ev);
    ActDelivers(x, y, ev);
  }

  // ---------------------------------------------------------------- theorems over runs

  predicate Full(s: System) {
    FullInv(s.left, s.right)
  }

  lemma StepKeepsFull(s: System, mv: Move)
    requires Full(s) && ValidMove(mv)
    ensures Full(Step(s, mv))
  {
    match mv
    case Left(ev) => ActKeepsFull(s.left, s.right, ev);
    case Right(ev) => ActKeepsFull(s.right, s.left, ev);
  }

  lemma {:induction false} RunKeepsFull(s: System, moves: seq<Move>)
    requires Full(s) && ValidMoves(moves)
    ensures Full(RunFrom(s, moves))
  {
    hide SystemInv, Delivers, Step;
    if moves != [] {
      RunKeepsFull(s, moves[..|moves| - 1]);
      StepKeepsFull(RunFrom(s, moves[..|moves| - 1]), moves[|moves| - 1]);
    }
  }

  lemma StartFull(a: Config, b: Config)
    requires ValidConfig(a) && ValidConfig(b)
    ensures Full(System(Start(a), Start(b)))
  {
    StartInv(a, b);
  }

  /** No segment is ever lost, and what has been moved to the receive queue is exactly the
      sender's chunks 0 to `rcv_nxt` - 1, in order; in both directions. */
  lemma NothingLost(a: Config, b: Config, moves: seq<Move>)
    requires ValidConfig(a) && ValidConfig(b) && ValidMoves(moves)
    ensures var s := Run(a, b, moves);
            && (forall sn :: 0 <= sn < s.left.ep.snd.nxt ==>
                  S.Numbered(s.left.ep.snd.buf, sn) || R.Accepted(s.right.ep.rcv, sn))
            && s.right.ep.rcv.nxt <= |s.left.log| == s.left.ep.snd.nxt
            && s.right.taken + Chunks(s.right.ep.rcv.queue) == s.left.log[..s.right.ep.rcv.nxt]
    ensures var s := Run(a, b, moves);
            && (forall sn :: 0 <= sn < s.right.ep.snd.nxt ==>
                  S.Numbered(s.right.ep.snd.buf, sn) || R.Accepted(s.left.ep.rcv, sn))
            && s.left.ep.rcv.nxt <= |s.right.log| == s.right.ep.snd.nxt
            && s.left.taken + Chunks(s.left.ep.rcv.queue) == s.right.log[..s.left.ep.rcv.nxt]
  {
    StartFull(a, b);
    RunKeepsFull(System(Start(a), Start(b)), moves);
    var s := Run(a, b, moves);
    TakenThenQueued(s.left, s.right);
    TakenThenQueued(s.right, s.left);
  }

  lemma TakenThenQueued(x: Half, y: Half)
    requires FullInv(x, y)
    ensures y.taken + Chunks(y.ep.rcv.queue) == x.log[..y.ep.rcv.nxt]
  {
    assert InOrder(x.log, y.ep.rcv) && Conserved(x, y);
    hide FullInv, S.Contents;
    QueueIsNext(x.log, y.ep.rcv);
  }

  lemma QueueIsNext(log: seq<S.Chunk>, r: R.Receiver)
    requires InOrder(log, r)
    ensures log[..r.nxt - |r.queue|] + Chunks(r.queue) == log[..r.nxt]
  {
    forall i | 0 <= i < |r.queue| ensures Chunks(r.queue)[i] == log[r.nxt - |r.queue| + i] {
      assert S.Chunk(r.queue[i].frg, r.queue[i].data) == log[r.nxt - |r.queue| + i];
    }
  }

  /** Outside stream mode the messages received are a prefix of the messages sent, byte for
      byte and with their boundaries; in either mode the bytes read are a prefix of the bytes
      given. Both ends send and receive. */
  lemma RoundTrip(a: Config, b: Config, moves: seq<Move>)
    requires ValidConfig(a) && ValidConfig(b) && ValidMoves(moves)
    ensures var s := Run(a, b, moves);
            && s.right.read <= s.left.given && s.left.read <= s.right.given
            && (!a.stream ==> s.right.got <= s.left.sent) && (!b.stream ==> s.left.got <= s.right.sent)
  {
    StartFull(a, b);
    RunKeepsFull(System(Start(a), Start(b)), moves);
    RunKeepsConfig(System(Start(a), Start(b)), moves);
    var s := Run(a, b, moves);
    ReadIsPrefix(s.left, s.right);
    ReadIsPrefix(s.right, s.left);
  }

  // ---------------------------------------------------------------- the other direction

  function Turned(mv: Move): Move {
    match mv
    case Left(ev) => Right(ev)
    case Right(ev) => Left(ev)
  }

  function AllTurned(moves: seq<Move>): (r: seq<Move>)
    ensures |r| == |moves| && forall i :: 0 <= i < |r| ==> r[i] == Turned(moves[i])
  {
    seq(|moves|, i requires 0 <= i < |moves| => Turned(moves[i]))
  }

  lemma {:induction false} RunFromTurned(s: System, moves: seq<Move>)
    requires Inv(s) && ValidMoves(moves)
    ensures Inv(System(s.right, s.left)) && ValidMoves(AllTurned(moves))
    ensures var t := RunFrom(s, moves);
            RunFrom(System(s.right, s.left), AllTurned(moves)) == System(t.right, t.left)
  {
    hide SystemInv, Act;
    assert Inv(System(s.right, s.left)) by { InvTurned(s); }
    if moves != [] {
      var n := |moves| - 1;
      RunFromTurned(s, moves[..n]);
      assert AllTurned(moves)[..n] == AllTurned(moves[..n]);
    }
  }

  lemma InvTurned(s: System)
    requires Inv(s)
    ensures Inv(System(s.right, s.left))
  {
  }

  /** Nothing distinguishes the two ends: a run with the ends exchanged is the run exchanged, so
      that every statement about what goes from left to right also holds from right to left. */
  lemma RunTurned(a: Config, b: Config, moves: seq<Move>)
    requires ValidConfig(a) && ValidConfig(b) && ValidMoves(moves)
    ensures ValidMoves(AllTurned(moves))
    ensures var t := Run(a, b, moves); Run(b, a, AllTurned(moves)) == System(t.right, t.left)
  {
    StartInv(a, b);
    RunFromTurned(System(Start(a), Start(b)), moves);
  }

  lemma ReadIsPrefix(x: Half, y: Half)
    requires FullInv(x, y)
    ensures y.read <= x.given
  {
    var c := Consumed(y.ep.rcv);
    var all := x.log + x.ep.snd.queue;
    assert all == all[..c] + all[c..] && all[..c] == y.taken;
    S.ContentsConcat(all[..c], all[c..]);
  }

  lemma ActKeepsConfig(h: Half, peer: Half, ev: Event)
    requires h.ep.cfg.mss > 0 && ValidEvent(ev)
    ensures Act(h, peer, ev).ep.cfg == h.ep.cfg
  {
    hide Input, R.Recv, S.Send, S.TakenBytes, Admitted, WalkAll, Pack, FlushPackets;
    if ev.Deliver? && ev.index < |peer.out| { InputConsumes(h.ep, peer.out[ev.index]); }
  }

  lemma StepKeepsConfig(s: System, mv: Move)
    requires Inv(s) && ValidMove(mv)
    ensures Step(s, mv).left.ep.cfg == s.left.ep.cfg && Step(s, mv).right.ep.cfg == s.right.ep.cfg
  {
    assert s.left.ep.cfg.mss > 0 && s.right.ep.cfg.mss > 0;
    hide Act, SystemInv;
    match mv
    case Left(ev) => ActKeepsConfig(s.left, s.right, ev);
    case Right(ev) => ActKeepsConfig(s.right, s.left, ev);
  }

  lemma {:induction false} RunKeepsConfig(s: System, moves: seq<Move>)
    requires Inv(s) && ValidMoves(moves)
    ensures RunFrom(s, moves).left.ep.cfg == s.left.ep.cfg && RunFrom(s, moves).right.ep.cfg == s.right.ep.cfg
  {
    if moves != [] {
      RunKeepsConfig(s, moves[..|moves| - 1]);
      StepKeepsConfig(RunFrom(s, moves[..|moves| - 1]), moves[|moves| - 1]);
    }
  }

  lemma FullHalfReadable(x: Half, y: Half, len: int)
    requires FullInv(x, y) && !x.ep.cfg.stream && |y.ep.rcv.queue| >= y.ep.cfg.rcvWnd
    ensures |y.got| < |x.sent|
    ensures |x.sent[|y.got|]| <= len ==>
              (E.Recv(Unbounded, y.ep, len).code >= 0 <==>
                 |x.sent[|y.got|]| <= y.ep.cfg.rcvWnd * x.ep.cfg.mss)
  {
    FrontMessage(x, y);
    RecvIsNextMessage(x, y, len);
    assert |y.ep.rcv.queue| == y.ep.cfg.rcvWnd;
  }

  /** The next message the right end is to read does not fit its window, in full segments. */
  predicate Jammed(s: System) {
    && s.left.ep.cfg.mss > 0 && !s.left.ep.cfg.stream && |s.right.got| < |s.left.sent|
    && |s.left.sent[|s.right.got|]| > s.right.ep.cfg.rcvWnd * s.left.ep.cfg.mss
  }

  /** Nothing but a receive at the right end changes what it has got. */
  lemma OthersGetNothing(s: System, mv: Move)
    requires Inv(s) && ValidMove(mv)
    ensures !(mv.Right? && mv.ev.Recv?) ==> Step(s, mv).right.got == s.right.got
    ensures s.left.sent <= Step(s, mv).left.sent
  {
  }

  lemma JamStep(s: System, mv: Move)
    requires Full(s) && Jammed(s) && ValidMove(mv)
    ensures Step(s, mv).right.got == s.right.got
    ensures s.left.sent <= Step(s, mv).left.sent
    ensures mv.Right? && mv.ev.Recv? ==> E.Recv(Unbounded, s.right.ep, mv.ev.len).code < 0
  {
    OthersGetNothing(s, mv);
    if mv.Right? && mv.ev.Recv? {
      RecvIsNextMessage(s.left, s.right, mv.ev.len);
      S.Scaled(|s.right.ep.rcv.queue|, s.right.ep.cfg.rcvWnd, s.left.ep.cfg.mss);
    }
  }

  lemma {:induction false} StaysJammed(s: System, moves: seq<Move>)
    requires Full(s) && Jammed(s) && ValidMoves(moves)
    ensures Full(RunFrom(s, moves)) && Jammed(RunFrom(s, moves))
    ensures RunFrom(s, moves).right.got == s.right.got && s.left.sent <= RunFrom(s, moves).left.sent
  {
    hide SystemInv, Delivers, Step;
    if moves != [] {
      var n := |moves| - 1;
      StaysJammed(s, moves[..n]);
      var t := RunFrom(s, moves[..n]);
      JamStep(t, moves[n]);
      StepKeepsFull(t, moves[n]);
      StepKeepsConfig(t, moves[n]);
    }
  }

  /** In every run, a full receive queue can be read exactly when the message at its head has at
      most `rcv_wnd` full segments of data. */
  lemma FullQueueReadable(a: Config, b: Config, moves: seq<Move>, len: int)
    requires ValidConfig(a) && ValidConfig(b) && ValidMoves(moves) && !a.stream
    requires |Run(a, b, moves).right.ep.rcv.queue| >= b.rcvWnd
    ensures var s := Run(a, b, moves);
            && |s.right.got| < |s.left.sent|
            && (|s.left.sent[|s.right.got|]| <= len ==>
                  (E.Recv(Unbounded, s.right.ep, len).code >= 0 <==>
                     |s.left.sent[|s.right.got|]| <= b.rcvWnd * a.mss))
  {
    var start := System(Start(a), Start(b));
    StartFull(a, b);
    RunKeepsFull(start, moves);
    RunKeepsConfig(start, moves);
    var s := Run(a, b, moves);
    FullHalfReadable(s.left, s.right, len);
  }

  lemma {:induction false} RunInTwo(s: System, first: seq<Move>, later: seq<Move>)
    requires Inv(s) && ValidMoves(first) && ValidMoves(later)
    ensures RunFrom(s, first + later) == RunFrom(RunFrom(s, first), later)
  {
    hide SystemInv, Step, ValidMove;
    if later == [] {
      assert first + later == first;
    } else {
      var n := |later| - 1;
      RunInTwo(s, first, later[..n]);
      assert (first + later)[..|first + later| - 1] == first + later[..n];
    }
  }

  /** In every run, such a message jams the receiver for good once it is the next to be read: no
      receive returns anything again, whatever the two ends and the network do later. */
  lemma JamForever(a: Config, b: Config, moves: seq<Move>, later: seq<Move>)
    requires ValidConfig(a) && ValidConfig(b) && ValidMoves(moves) && ValidMoves(later)
    requires Jammed(Run(a, b, moves))
    ensures var s := Run(a, b, moves); var t := Run(a, b, moves + later);
            t.right.got == s.right.got && s.left.sent <= t.left.sent
  {
    var start := System(Start(a), Start(b));
    StartFull(a, b);
    RunKeepsFull(start, moves);
    RunInTwo(start, moves, later);
    StaysJammed(Run(a, b, moves), later);
  }

  /** Every message of more data than the peer's window of full segments does it, if it is the first. */
  lemma JamReachable(a: Config, b: Config, data: Bytes)
    requires ValidConfig(a) && ValidConfig(b) && !a.stream
    requires b.rcvWnd * a.mss < |data| <= 255 * a.mss
    ensures var s := Run(a, b, [Left(Network.Send(|data|, data))]);
            Full(s) && Jammed(s)
  {
    hide E.Send, FullInv, S.TakenBytes;
    var mv := Left(Network.Send(|data|, data));
    var start := System(Start(a), Start(b));
    StartFull(a, b);
    RunKeepsFull(start, [mv]);
    FirstSendWorks(a, data);
    assert [mv][..0] == [] && data[..|data|] == data;
    assert RunFrom(start, [mv]) == Step(start, mv);
  }

  lemma FirstSendWorks(cfg: Config, data: Bytes)
    requires cfg.mss > 0 && !cfg.stream && |data| <= 255 * cfg.mss
    ensures E.Send(Create(cfg), |data|, data).code == 0
    ensures E.Send(Create(cfg), |data|, data).e.cfg == cfg
  {
    S.CountIff(cfg.mss, |data|, 255);
    assert data[..|data|] == data;
  }
}
