/** The output path of a TCP connection, `sendInLoop` and `handleWriteInLoop` of
    `src/net/tcp/TcpConnection.cpp`: what was sent is written to the socket at once when
    nothing waits, and otherwise queued until the socket can take more. */
module TcpOutput {
  import opened Wire
  import opened Buffers

  /** What `write` answers: bytes taken, or -1 with EWOULDBLOCK, with EPIPE or ECONNRESET, or
      with any other error number. */
  datatype WriteResult = Wrote(n: nat) | WouldBlock | Broken | OtherError

  /** `kernel` is what the socket has taken, `fin` says that the socket was shut down for
      writing. `sendInLoop` queues the write-complete callback in the event loop, where
      `pending` of them wait; `completed` counts the calls of it. */
  datatype Conn = Conn(
    writing: bool, out: Bytes, kernel: Bytes, connected: bool, fin: bool,
    pending: nat, completed: nat)

  const ESTABLISHED := Conn(false, [], [], true, false, 0, 0)

  /** `Callback` is the event loop running the write-complete callback that was queued first. */
  datatype Event = Send(data: Bytes, w: WriteResult) | Writable(w: WriteResult) | Callback | Shutdown

  /** The results `write` can have: no more than was offered, nothing after the shutdown. */
  predicate Possible(c: Conn, e: Event) {
    match e
    case Send(data, w) => w.Wrote? ==> w.n <= |data| && (c.fin ==> w.n == 0)
    case Writable(w) => w.Wrote? ==> w.n <= |c.out| && (c.fin ==> w.n == 0)
    case Callback => c.pending > 0
    case Shutdown => true
  }

  predicate Idle(c: Conn) {
    !c.writing && c.out == []
  }

  /** `sendInLoop`. */
  function SendStep(c: Conn, data: Bytes, w: WriteResult): Conn
    requires Possible(c, Send(data, w))
  {
    if Idle(c) && w.Broken? then c
    else if Idle(c) && w.Wrote? && w.n == |data| then
      c.(kernel := c.kernel + data, pending := c.pending + 1)
    else
      var n := if Idle(c) && w.Wrote? then w.n else 0;
      if n == |data| then c
      else c.(kernel := c.kernel + data[..n], out := c.out + data[n..], writing := true)
  }

  /** `handleWriteInLoop`. */
  function WritableStep(c: Conn, w: WriteResult): Conn
    requires Possible(c, Writable(w))
  {
    if !c.writing then c
    else if w.Wrote? && w.n > 0 then
      var left := c.out[w.n..];
      c.(kernel := c.kernel + c.out[..w.n], out := left, writing := left != [],
         completed := if left == [] then c.completed + 1 else c.completed)
    else c.(writing := false)
  }

  /** `shutdown`. */
  function ShutdownStep(c: Conn): Conn {
    if !c.connected then c else c.(connected := false, fin := !c.writing)
  }

  function Step(c: Conn, e: Event): Conn
    requires Possible(c, e)
  {
    match e
    case Send(data, w) => SendStep(c, data, w)
    case Writable(w) => WritableStep(c, w)
    case Callback => c.(pending := c.pending - 1, completed := c.completed + 1)
    case Shutdown => ShutdownStep(c)
  }

  predicate PossibleRun(c: Conn, es: seq<Event>)
    decreases |es|, 0
  {
    es == [] || (PossibleRun(c, es[..|es| - 1]) && Possible(Run(c, es[..|es| - 1]), es[|es| - 1]))
  }

  function Run(c: Conn, es: seq<Event>): Conn
    requires PossibleRun(c, es)
    decreases |es|, 1
  {
    if es == [] then c else Step(Run(c, es[..|es| - 1]), es[|es| - 1])
  }

  // ---------------------------------------------------------------- a faithful stream

  /** Everything the application sent. */
  function Sent(es: seq<Event>): Bytes {
    if es == [] then []
    else Sent(es[..|es| - 1]) + (if es[|es| - 1].Send? then es[|es| - 1].data else [])
  }

  /** A send whose data `sendInLoop` drops: the immediate write found the connection broken. */
  predicate Drops(c: Conn, e: Event) {
    e.Send? && Idle(c) && e.w.Broken?
  }

  /** What the application sent, without the sends that were dropped. */
  function Kept(c: Conn, es: seq<Event>): Bytes
    requires PossibleRun(c, es)
  {
    if es == [] then []
    else
      var before := es[..|es| - 1];
      var e := es[|es| - 1];
      Kept(c, before) + (if e.Send? && !Drops(Run(c, before), e) then e.data else [])
  }

  predicate Sound(c: Conn) {
    c.writing ==> c.out != []
  }

  lemma MovedOn(kernel: Bytes, out: Bytes, data: Bytes, n: nat)
    requires n <= |data| && (n == 0 || out == [])
    ensures (kernel + data[..n]) + (out + data[n..]) == kernel + out + data
  {
    assert data[..n] + data[n..] == data;
  }

  lemma StepKeepsStream(c: Conn, e: Event)
    requires Sound(c) && Possible(c, e)
    ensures Sound(Step(c, e))
    ensures Step(c, e).kernel + Step(c, e).out == c.kernel + c.out + (if e.Send? && !Drops(c, e) then e.data else [])
  {
    match e
    case Send(data, w) =>
      var n := if Idle(c) && w.Wrote? then w.n else 0;
      MovedOn(c.kernel, c.out, data, n);
      assert n == |data| ==> data[..n] == data && data[n..] == [];
      assert c.out + [] == c.out && c.kernel + c.out + [] == c.kernel + c.out;
    case Writable(w) =>
      if c.writing && w.Wrote? { MovedOn(c.kernel, [], c.out, w.n); }
      assert c.kernel + [] + c.out == c.kernel + c.out;
    case _ =>
  }

  /** Whatever short writes and refusals there were: what the socket took, followed by what is
      queued, is what was sent and not dropped; and the socket is watched only while
      something is queued. */
  lemma {:induction false} FaithfulStream(es: seq<Event>)
    requires PossibleRun(ESTABLISHED, es)
    ensures Sound(Run(ESTABLISHED, es))
    ensures Run(ESTABLISHED, es).kernel + Run(ESTABLISHED, es).out == Kept(ESTABLISHED, es)
  {
    if es == [] {
    } else {
      var before := es[..|es| - 1];
      FaithfulStream(before);
      StepKeepsStream(Run(ESTABLISHED, before), es[|es| - 1]);
    }
  }

  /** Bytes of the sends that were dropped. */
  function DroppedBytes(c: Conn, es: seq<Event>): nat
    requires PossibleRun(c, es)
  {
    if es == [] then 0
    else
      var before := es[..|es| - 1];
      var e := es[|es| - 1];
      DroppedBytes(c, before) + (if Drops(Run(c, before), e) then |e.data| else 0)
  }

  lemma {:induction false} SentIsKeptOrDropped(c: Conn, es: seq<Event>)
    requires PossibleRun(c, es)
    ensures |Sent(es)| == |Kept(c, es)| + DroppedBytes(c, es)
    ensures DroppedBytes(c, es) == 0 ==> Sent(es) == Kept(c, es)
  {
    if es == [] {
    } else {
      SentIsKeptOrDropped(c, es[..|es| - 1]);
    }
  }

  /** The stream is complete exactly when no send with data was dropped. */
  lemma NothingMissingIff(es: seq<Event>)
    requires PossibleRun(ESTABLISHED, es)
    ensures Run(ESTABLISHED, es).kernel + Run(ESTABLISHED, es).out == Sent(es)
       <==> DroppedBytes(ESTABLISHED, es) == 0
  {
    FaithfulStream(es);
    SentIsKeptOrDropped(ESTABLISHED, es);
  }

  // ---------------------------------------------------------------- the write-complete callback

  /** `handleWriteInLoop` calls the callback itself, exactly when it has emptied the buffer; the
      socket has then taken everything. */
  lemma CompletionIsHonest(es: seq<Event>, w: WriteResult)
    requires PossibleRun(ESTABLISHED, es) && Possible(Run(ESTABLISHED, es), Writable(w))
    ensures var c := Run(ESTABLISHED, es); var d := WritableStep(c, w);
            d.completed == c.completed + (if c.out != [] && d.out == [] then 1 else 0)
    ensures var d := WritableStep(Run(ESTABLISHED, es), w);
            d.out == [] ==> d.kernel == Kept(ESTABLISHED, es)
  {
    var e := Writable(w);
    FaithfulStream(es);
    StepKeepsStream(Run(ESTABLISHED, es), e);
    var d := WritableStep(Run(ESTABLISHED, es), w);
    assert d.kernel + [] == d.kernel;
    assert Kept(ESTABLISHED, es) + [] == Kept(ESTABLISHED, es);
  }

  /** A send that is written whole at once, and queues the callback. */
  predicate Queues(c: Conn, e: Event) {
    e.Send? && Idle(c) && e.w.Wrote? && e.w.n == |e.data|
  }

  /** A send of data that is neither written whole nor dropped. */
  predicate Leaves(c: Conn, e: Event) {
    e.Send? && e.data != [] && !Queues(c, e) && !Drops(c, e)
  }

  /** A write event that takes all that is queued. */
  predicate Empties(c: Conn, e: Event) {
    e.Writable? && c.writing && e.w.Wrote? && e.w.n == |c.out|
  }

  lemma OutStep(c: Conn, e: Event)
    requires Sound(c) && Possible(c, e)
    ensures Step(c, e).out != [] <==> Leaves(c, e) || (c.out != [] && !Empties(c, e))
    ensures Queues(c, e) ==> Step(c, e).out == []
  {
  }

  predicate QueuesAt(c: Conn, es: seq<Event>, i: nat)
    requires i < |es|
  {
    PossibleRun(c, es[..i]) && Queues(Run(c, es[..i]), es[i])
  }

  predicate LeavesAt(c: Conn, es: seq<Event>, i: nat)
    requires i < |es|
  {
    PossibleRun(c, es[..i]) && Leaves(Run(c, es[..i]), es[i])
  }

  predicate EmptiesAt(c: Conn, es: seq<Event>, i: nat)
    requires i < |es|
  {
    PossibleRun(c, es[..i]) && Empties(Run(c, es[..i]), es[i])
  }

  /** Since event `i` some send has left bytes, and no write event has emptied the buffer after
      that send. */
  predicate LeftSince(c: Conn, es: seq<Event>, i: nat) {
    exists j :: i < j < |es| && LeavesAt(c, es, j) && forall m :: j < m < |es| ==> !EmptiesAt(c, es, m)
  }

  lemma SameBefore(c: Conn, es: seq<Event>, k: nat)
    requires k + 1 < |es|
    ensures LeavesAt(c, es, k) <==> LeavesAt(c, es[..|es| - 1], k)
    ensures EmptiesAt(c, es, k) <==> EmptiesAt(c, es[..|es| - 1], k)
  {
    hide Run, PossibleRun, Leaves, Empties;
    assert es[..|es| - 1][..k] == es[..k];
  }

  lemma LeftStays(c: Conn, es: seq<Event>, i: nat)
    requires es != [] && LeftSince(c, es[..|es| - 1], i) && !EmptiesAt(c, es, |es| - 1)
    ensures LeftSince(c, es, i)
  {
    hide LeavesAt, EmptiesAt;
    var n := |es| - 1;
    var j :| i < j < n && LeavesAt(c, es[..n], j) && forall m :: j < m < n ==> !EmptiesAt(c, es[..n], m);
    SameBefore(c, es, j);
    forall m | j < m < |es| ensures !EmptiesAt(c, es, m) {
      if m < n { SameBefore(c, es, m); }
    }
  }

  lemma LeftBefore(c: Conn, es: seq<Event>, i: nat)
    requires es != [] && LeftSince(c, es, i) && !LeavesAt(c, es, |es| - 1)
    ensures LeftSince(c, es[..|es| - 1], i) && !EmptiesAt(c, es, |es| - 1)
  {
    hide LeavesAt, EmptiesAt;
    var n := |es| - 1;
    var j :| i < j < |es| && LeavesAt(c, es, j) && forall m :: j < m < |es| ==> !EmptiesAt(c, es, m);
    SameBefore(c, es, j);
    forall m | j < m < n ensures !EmptiesAt(c, es[..n], m) {
      SameBefore(c, es, m);
    }
  }

  lemma LeftSinceStep(c: Conn, es: seq<Event>, i: nat)
    requires i + 1 < |es|
    ensures var n := |es| - 1;
            LeftSince(c, es, i) <==> LeavesAt(c, es, n) || (LeftSince(c, es[..n], i) && !EmptiesAt(c, es, n))
  {
    var n := |es| - 1;
    hide LeavesAt, EmptiesAt;
    if LeftSince(c, es[..n], i) && !EmptiesAt(c, es, n) { LeftStays(c, es, i); }
    if LeftSince(c, es, i) && !LeavesAt(c, es, n) { LeftBefore(c, es, i); }
  }

  /** From an event that queues the callback on, the buffer holds bytes exactly when a later send
      has left some and they were not all written since. */
  lemma {:induction false} OutSinceQueued(es: seq<Event>, i: nat)
    requires PossibleRun(ESTABLISHED, es) && i < |es| && QueuesAt(ESTABLISHED, es, i)
    ensures Run(ESTABLISHED, es).out != [] <==> LeftSince(ESTABLISHED, es, i)
    decreases |es|
  {
    hide Possible, Step;
    var n := |es| - 1;
    var before := es[..n];
    FaithfulStream(before);
    OutStep(Run(ESTABLISHED, before), es[n]);
    if i < n {
      assert before[..i] == es[..i];
      OutSinceQueued(before, i);
      LeftSinceStep(ESTABLISHED, es, i);
    }
  }

  /** The events that queued the callback, first to last. */
  function Queued(c: Conn, es: seq<Event>): seq<nat>
    requires PossibleRun(c, es)
  {
    if es == [] then []
    else
      var n := |es| - 1;
      Queued(c, es[..n]) + (if Queues(Run(c, es[..n]), es[n]) then [n] else [])
  }

  /** How many queued callbacks have run. */
  function Ran(es: seq<Event>): nat {
    if es == [] then 0 else Ran(es[..|es| - 1]) + (if es[|es| - 1].Callback? then 1 else 0)
  }

  /** How many write events have emptied the buffer. */
  function Emptied(c: Conn, es: seq<Event>): nat
    requires PossibleRun(c, es)
  {
    if es == [] then 0
    else
      var n := |es| - 1;
      Emptied(c, es[..n]) + (if Empties(Run(c, es[..n]), es[n]) then 1 else 0)
  }

  /** The callback has been called once for each queued call that ran and once for each write event
      that emptied the buffer. */
  lemma {:induction false} CallsAreCounted(es: seq<Event>)
    requires PossibleRun(ESTABLISHED, es)
    ensures Run(ESTABLISHED, es).completed == Ran(es) + Emptied(ESTABLISHED, es)
  {
    hide Possible, Step, Empties;
    if es != [] {
      var n := |es| - 1;
      var before := es[..n];
      CallsAreCounted(before);
      FaithfulStream(before);
      CountStep(Run(ESTABLISHED, before), es[n]);
    }
  }

  lemma CountStep(c: Conn, e: Event)
    requires Possible(c, e) && Sound(c)
    ensures Step(c, e).completed
         == c.completed + (if e.Callback? then 1 else 0) + (if Empties(c, e) then 1 else 0)
  {
  }

  /** Each whole send queues one callback, and they run in that order. */
  lemma {:induction false} CallbacksInOrder(es: seq<Event>)
    requires PossibleRun(ESTABLISHED, es)
    ensures |Queued(ESTABLISHED, es)| == Ran(es) + Run(ESTABLISHED, es).pending
    ensures forall k :: 0 <= k < |Queued(ESTABLISHED, es)| ==>
              Queued(ESTABLISHED, es)[k] < |es| && QueuesAt(ESTABLISHED, es, Queued(ESTABLISHED, es)[k])
  {
    if es == [] {
    } else {
      var n := |es| - 1;
      var before := es[..n];
      CallbacksInOrder(before);
      var q := Queued(ESTABLISHED, before);
      forall k | 0 <= k < |Queued(ESTABLISHED, es)|
        ensures Queued(ESTABLISHED, es)[k] < |es| && QueuesAt(ESTABLISHED, es, Queued(ESTABLISHED, es)[k])
      {
        if k < |q| { assert before[..q[k]] == es[..q[k]]; }
      }
    }
  }

  /** The callback that runs next was queued by this event. */
  function Oldest(es: seq<Event>): (i: nat)
    requires PossibleRun(ESTABLISHED, es) && Run(ESTABLISHED, es).pending > 0
    ensures i < |es| && QueuesAt(ESTABLISHED, es, i)
  {
    CallbacksInOrder(es);
    Queued(ESTABLISHED, es)[Ran(es)]
  }

  /** A queued callback finds everything taken by the socket exactly when no send since it was
      queued has left bytes that still wait. */
  lemma CallbackMeetsEmptyIff(es: seq<Event>)
    requires PossibleRun(ESTABLISHED, es) && Run(ESTABLISHED, es).pending > 0
    ensures Run(ESTABLISHED, es).out == [] <==> !LeftSince(ESTABLISHED, es, Oldest(es))
    ensures Run(ESTABLISHED, es).kernel == Kept(ESTABLISHED, es) <==> !LeftSince(ESTABLISHED, es, Oldest(es))
  {
    OutSinceQueued(es, Oldest(es));
    FaithfulStream(es);
    var c := Run(ESTABLISHED, es);
    assert c.kernel + [] == c.kernel;
    assert |c.kernel + c.out| == |c.kernel| + |c.out|;
  }

  /** Two sends in one callback of the application are enough: the first is written whole, the
      second in part, and the completion of the first is reported with bytes of the second
      still in the buffer. */
  lemma CallbackMeetsData()
    ensures var es := [Send([1], Wrote(1)), Send([2, 3], Wrote(1))];
            && PossibleRun(ESTABLISHED, es) && Possible(Run(ESTABLISHED, es), Callback)
            && Run(ESTABLISHED, es).out == [3]
  {
    var e := Send([1], Wrote(1));
    var es := [e, Send([2, 3], Wrote(1))];
    assert es[..1] == [e] && [e][..0] == [];
    assert Run(ESTABLISHED, [e]) == ESTABLISHED.(kernel := [1], pending := 1);
  }

  // ---------------------------------------------------------------- progress

  /** Each result takes at least one byte, as long as the socket is watched. */
  predicate Progress(c: Conn, ws: seq<WriteResult>)
    decreases |ws|
  {
    ws == [] || !c.writing
    || (Possible(c, Writable(ws[0])) && ws[0].Wrote? && ws[0].n > 0 && Progress(WritableStep(c, ws[0]), ws[1..]))
  }

  function Writes(c: Conn, ws: seq<WriteResult>): Conn
    requires Progress(c, ws)
    decreases |ws|
  {
    if ws == [] || !c.writing then c else Writes(WritableStep(c, ws[0]), ws[1..])
  }

  /** When each event makes progress, as many of them as there are queued bytes write it all. */
  lemma {:induction false} WritesDrain(c: Conn, ws: seq<WriteResult>)
    requires c.writing && c.out != [] && |ws| >= |c.out| && Progress(c, ws)
    ensures Idle(Writes(c, ws)) && Writes(c, ws).kernel == c.kernel + c.out
    ensures Writes(c, ws).completed == c.completed + 1
    decreases |c.out|
  {
    var d := WritableStep(c, ws[0]);
    assert c.out == c.out[..ws[0].n] + c.out[ws[0].n..];
    if d.out != [] {
      WritesDrain(d, ws[1..]);
      assert d.kernel + d.out == c.kernel + c.out;
    } else {
      assert c.out[..ws[0].n] == c.out;
    }
  }

  /** Bytes wait, and the socket is not watched for them. */
  predicate Stalled(c: Conn) {
    !c.writing && c.out != []
  }

  /** `handleWriteInLoop` is told to write and the socket takes nothing, even for now. */
  predicate Refused(c: Conn, e: Event) {
    c.writing && e.Writable? && !(e.w.Wrote? && e.w.n > 0)
  }

  predicate Resumes(e: Event) {
    e.Send? && e.data != []
  }

  lemma StallStep(c: Conn, e: Event)
    requires Sound(c) && Possible(c, e)
    ensures Stalled(Step(c, e)) <==> Refused(c, e) || (Stalled(c) && !Resumes(e))
  {
  }

  /** Some refused write was not followed by a send with data. */
  predicate RefusedLast(c: Conn, es: seq<Event>)
    requires PossibleRun(c, es)
  {
    exists i :: 0 <= i < |es| && RefusedAt(c, es, i) && forall j :: i < j < |es| ==> !Resumes(es[j])
  }

  predicate RefusedAt(c: Conn, es: seq<Event>, i: nat)
    requires PossibleRun(c, es) && i < |es|
  {
    PossibleRun(c, es[..i]) && Refused(Run(c, es[..i]), es[i])
  }

  lemma RefusedSame(c: Conn, es: seq<Event>, k: nat)
    requires PossibleRun(c, es) && k + 1 < |es|
    ensures RefusedAt(c, es, k) <==> RefusedAt(c, es[..|es| - 1], k)
  {
    hide Run, Refused, Possible;
    assert es[..|es| - 1][..k] == es[..k];
  }

  lemma RefusedStays(c: Conn, es: seq<Event>)
    requires PossibleRun(c, es) && es != [] && RefusedLast(c, es[..|es| - 1]) && !Resumes(es[|es| - 1])
    ensures RefusedLast(c, es)
  {
    hide RefusedAt, Resumes, Run, Possible;
    var n := |es| - 1;
    var i :| 0 <= i < n && RefusedAt(c, es[..n], i) && forall j :: i < j < n ==> !Resumes(es[..n][j]);
    RefusedSame(c, es, i);
    forall j | i < j < |es| ensures !Resumes(es[j]) {
      if j < n { assert es[..n][j] == es[j]; }
    }
  }

  lemma RefusedBefore(c: Conn, es: seq<Event>)
    requires PossibleRun(c, es) && es != [] && RefusedLast(c, es) && !RefusedAt(c, es, |es| - 1)
    ensures RefusedLast(c, es[..|es| - 1]) && !Resumes(es[|es| - 1])
  {
    hide RefusedAt, Resumes, Run, Possible;
    var n := |es| - 1;
    var i :| 0 <= i <= n && RefusedAt(c, es, i) && forall j :: i < j <= n ==> !Resumes(es[j]);
    RefusedSame(c, es, i);
    assert forall j :: i < j < n ==> es[..n][j] == es[j];
  }

  lemma RefusedLastStep(c: Conn, es: seq<Event>)
    requires PossibleRun(c, es) && es != []
    ensures var n := |es| - 1;
            RefusedLast(c, es) <==> Refused(Run(c, es[..n]), es[n]) || (RefusedLast(c, es[..n]) && !Resumes(es[n]))
  {
    hide Run, Refused, Resumes, Possible;
    var n := |es| - 1;
    if RefusedLast(c, es[..n]) && !Resumes(es[n]) { RefusedStays(c, es); }
    if RefusedLast(c, es) && !RefusedAt(c, es, n) { RefusedBefore(c, es); }
    assert RefusedAt(c, es, n) <==> Refused(Run(c, es[..n]), es[n]);
  }

  /** A connection stalls exactly when a write event is refused, and stays so until the
      application sends again: the code stops watching the socket although bytes wait. */
  lemma {:induction false} StalledIff(es: seq<Event>)
    requires PossibleRun(ESTABLISHED, es)
    ensures Stalled(Run(ESTABLISHED, es)) <==> RefusedLast(ESTABLISHED, es)
  {
    hide Step, Refused;
    if es == [] {
    } else {
      var before := es[..|es| - 1];
      FaithfulStream(before);
      StallStep(Run(ESTABLISHED, before), es[|es| - 1]);
      StalledIff(before);
      RefusedLastStep(ESTABLISHED, es);
    }
  }

  /** While stalled nothing more reaches the socket, whatever it could take. */
  lemma {:induction false} StalledStays(c: Conn, es: seq<Event>)
    requires PossibleRun(c, es) && Stalled(c) && forall i :: 0 <= i < |es| ==> !Resumes(es[i])
    ensures Stalled(Run(c, es)) && Run(c, es).kernel == c.kernel && Run(c, es).out == c.out
  {
    if es == [] {
    } else {
      StalledStays(c, es[..|es| - 1]);
      assert !Resumes(es[|es| - 1]);
    }
  }

  /** A would-block answer is enough to stall. */
  lemma StallReachable()
    ensures var es := [Send([7, 8], Wrote(1)), Writable(WouldBlock)];
            PossibleRun(ESTABLISHED, es) && Stalled(Run(ESTABLISHED, es)) && Run(ESTABLISHED, es).out == [8]
  {
    var e := Send([7, 8], Wrote(1));
    var es := [e, Writable(WouldBlock)];
    assert es[..1] == [e] && [e][..0] == [];
    assert Run(ESTABLISHED, [e]) == Conn(true, [8], [7], true, false, 0, 0);
  }

  // ---------------------------------------------------------------- shutting down

  /** The socket is shut down for writing at once when it is not watched, and then the peer has
      the whole stream before the end exactly when the connection was not stalled. */
  lemma ShutdownIff(es: seq<Event>)
    requires PossibleRun(ESTABLISHED, es) && Run(ESTABLISHED, es).connected
    ensures var c := Run(ESTABLISHED, es);
            ShutdownStep(c).fin ==> (c.kernel == Kept(ESTABLISHED, es) <==> !Stalled(c))
    ensures ShutdownStep(Run(ESTABLISHED, es)).fin <==> !Run(ESTABLISHED, es).writing
  {
    FaithfulStream(es);
    var c := Run(ESTABLISHED, es);
    if c.out == [] {
      assert c.kernel + c.out == c.kernel;
    } else {
      assert |c.kernel + c.out| > |c.kernel|;
    }
  }

  /** How many events come before the first shutdown. */
  function FirstShutdown(es: seq<Event>): (i: nat)
    ensures i <= |es|
    ensures i < |es| <==> Shutdown in es
  {
    if es == [] then 0
    else
      var n := |es| - 1;
      var i := FirstShutdown(es[..n]);
      assert es == es[..n] + [es[n]];
      if i < n || es[n] == Shutdown then i else n + 1
  }

  lemma FirstShutdownStep(es: seq<Event>)
    requires es != []
    ensures var n := |es| - 1; var i := FirstShutdown(es);
            && (Shutdown in es <==> Shutdown in es[..n] || es[n] == Shutdown)
            && (Shutdown in es[..n] ==> es[..i] == es[..n][..FirstShutdown(es[..n])])
            && (Shutdown !in es[..n] ==> es[..n][..FirstShutdown(es[..n])] == es[..n]
                                         && es[..i] == if es[n] == Shutdown then es[..n] else es)
  {
    hide FirstShutdown;
    FirstShutdownNext(es);
    var n := |es| - 1;
    var before := es[..n];
    var i := FirstShutdown(before);
    if i < n { assert es[..i] == before[..i]; } else { assert before[..n] == before && es[..|es|] == es; }
  }

  lemma FirstShutdownNext(es: seq<Event>)
    requires es != []
    ensures var n := |es| - 1; var i := FirstShutdown(es[..n]);
            && FirstShutdown(es) == (if i < n || es[n] == Shutdown then i else n + 1)
            && (Shutdown in es <==> Shutdown in es[..n] || es[n] == Shutdown)
  {
    assert es == es[..|es| - 1] + [es[|es| - 1]];
  }

  lemma {:induction false} PossiblePrefix(c: Conn, es: seq<Event>, i: nat)
    requires PossibleRun(c, es) && i <= |es|
    ensures PossibleRun(c, es[..i])
    decreases |es|
  {
    if i < |es| {
      assert es[..|es| - 1][..i] == es[..i];
      PossiblePrefix(c, es[..|es| - 1], i);
    } else {
      assert es[..i] == es;
    }
  }

  /** What the first shutdown of a run leaves is final: the socket is shut down exactly when it
      was not watched then, and after that nothing more reaches the peer. */
  lemma {:induction false} FirstShutdownDecides(es: seq<Event>)
    requires PossibleRun(ESTABLISHED, es)
    ensures PossibleRun(ESTABLISHED, es[..FirstShutdown(es)])
    ensures Run(ESTABLISHED, es[..FirstShutdown(es)]).connected
    ensures Run(ESTABLISHED, es).connected <==> Shutdown !in es
    ensures Run(ESTABLISHED, es).fin <==> Shutdown in es && !Run(ESTABLISHED, es[..FirstShutdown(es)]).writing
    ensures Run(ESTABLISHED, es).fin ==>
              Run(ESTABLISHED, es).kernel == Run(ESTABLISHED, es[..FirstShutdown(es)]).kernel
  {
    hide Possible, Step, FirstShutdown;
    PossiblePrefix(ESTABLISHED, es, FirstShutdown(es));
    if es == [] {
    } else {
      var n := |es| - 1;
      var before := es[..n];
      FirstShutdownDecides(before);
      FirstShutdownStep(es);
      StepAfterShutdown(Run(ESTABLISHED, before), es[n]);
    }
  }

  lemma StepAfterShutdown(c: Conn, e: Event)
    requires Possible(c, e) && (c.fin ==> !c.connected)
    ensures Step(c, e).connected <==> c.connected && e != Shutdown
    ensures c.fin ==> Step(c, e).fin && Step(c, e).kernel == c.kernel
    ensures e != Shutdown || !c.connected ==> Step(c, e).fin == c.fin
    ensures e == Shutdown ==> Step(c, e).kernel == c.kernel
    ensures e == Shutdown && c.connected ==> Step(c, e).fin == !c.writing
  {
    match e
    case Send(data, w) =>
      assert data[..0] == [];
      assert data == [] ==> c.kernel + data == c.kernel;
    case _ =>
  }

  /** Over every run: the peer sees the end of the stream exactly when some shutdown came and the
      first one found the socket not watched, and it has then been given everything that was sent
      before that shutdown and not dropped exactly when the output was not stalled. */
  lemma EndOfStreamIff(es: seq<Event>)
    requires PossibleRun(ESTABLISHED, es)
    ensures var c := Run(ESTABLISHED, es); var i := FirstShutdown(es);
            && PossibleRun(ESTABLISHED, es[..i])
            && (c.fin <==> Shutdown in es && !Run(ESTABLISHED, es[..i]).writing)
            && (c.fin ==> (c.kernel == Kept(ESTABLISHED, es[..i]) <==> !RefusedLast(ESTABLISHED, es[..i])))
  {
    hide Run, PossibleRun, RefusedLast, Kept, FirstShutdown, Stalled;
    FirstShutdownDecides(es);
    StalledIff(es[..FirstShutdown(es)]);
    ShutdownIff(es[..FirstShutdown(es)]);
  }

  /** A shutdown that finds bytes queued and watched is forgotten: they are written later, but
      the socket is never shut down. */
  lemma {:induction false} ShutdownIsForgotten(c: Conn, es: seq<Event>)
    requires PossibleRun(c, es) && c.writing && c.connected && !c.fin && es != [] && es[0] == Shutdown
    ensures !Run(c, es).fin && !Run(c, es).connected
  {
    var before := es[..|es| - 1];
    if before == [] {
    } else {
      ShutdownIsForgotten(c, before);
    }
  }

  /** So with a shutdown between a short write and the write event that empties the buffer: all
      is written, and the end of the stream never comes. */
  lemma ForgottenReachable()
    ensures var es := [Send([7, 8], Wrote(1)), Shutdown, Writable(Wrote(1))];
            && PossibleRun(ESTABLISHED, es) && Run(ESTABLISHED, es).out == []
            && Run(ESTABLISHED, es).kernel == Kept(ESTABLISHED, es) == [7, 8]
            && !Run(ESTABLISHED, es).fin && !Run(ESTABLISHED, es).connected
  {
    var e := Send([7, 8], Wrote(1));
    var es := [e, Shutdown, Writable(Wrote(1))];
    assert es[..2] == [e, Shutdown] && [e, Shutdown][..1] == [e] && [e][..0] == [];
    assert Run(ESTABLISHED, [e]) == Conn(true, [8], [7], true, false, 0, 0);
    assert Run(ESTABLISHED, [e, Shutdown]) == Conn(true, [8], [7], false, false, 0, 0);
    FaithfulStream(es);
  }

  // ---------------------------------------------------------------- the connection

  class TcpConnection {
    const outputBuffer: Buffer
    /** `isWriting` of the socket. */
    var writing: bool
    /** The status is kConnected. */
    var connected: bool
    var fin: bool
    /** Write-complete callbacks waiting in the event loop, and calls of it. */
    var pending: nat
    var completed: nat
    ghost var kernel: Bytes

    ghost predicate Valid()
      reads this, outputBuffer
    {
      outputBuffer.Valid()
    }

    ghost function View(): Conn
      requires Valid()
      reads this, outputBuffer, outputBuffer.buffer
    {
      Conn(writing, outputBuffer.Contents(), kernel, connected, fin, pending, completed)
    }

    constructor ()
      ensures Valid() && View() == ESTABLISHED && fresh(outputBuffer) && fresh(outputBuffer.buffer)
    {
      outputBuffer := new Buffer(INITIAL_SIZE);
      writing, connected, fin, pending, completed, kernel := false, true, false, 0, 0, [];
    }

    /** `write`, of which `w` is the outcome. */
    method WriteInLoop(bytes: Bytes, w: WriteResult) returns (n: int)
      requires w.Wrote? ==> w.n <= |bytes|
      modifies `kernel
      ensures n == if w.Wrote? then w.n else -1
      ensures kernel == if w.Wrote? then old(kernel) + bytes[..w.n] else old(kernel)
    {
      if w.Wrote? {
        kernel := kernel + bytes[..w.n];
        n := w.n;
      } else {
        n := -1;
      }
    }

    method SendInLoop(data: Bytes, w: WriteResult)
      requires Valid() && Possible(View(), Send(data, w))
      modifies this, outputBuffer, outputBuffer.buffer
      ensures Valid() && View() == SendStep(old(View()), data, w)
      ensures outputBuffer.buffer == old(outputBuffer.buffer) || fresh(outputBuffer.buffer)
    {
      var nwrote: int := 0;
      var remaining := |data|;
      var faultError := false;
      if !writing && outputBuffer.Readable() == 0 {
        nwrote := WriteInLoop(data, w);
        if nwrote >= 0 {
          remaining := |data| - nwrote;
          if remaining == 0 {
            assert data[..nwrote] == data;
            pending := pending + 1;
            return;
          }
        } else {
          nwrote := 0;
          if w.Broken? { faultError := true; }
        }
      }
      assert 0 <= remaining <= |data|;
      if !faultError && remaining > 0 {
        outputBuffer.Append(data[nwrote..]);
        if !writing { writing := true; }
      }
    }

    method HandleWriteInLoop(w: WriteResult)
      requires Valid() && Possible(View(), Writable(w))
      modifies this, outputBuffer
      ensures Valid() && View() == WritableStep(old(View()), w)
    {
      if writing {
        var offered := outputBuffer.buffer[outputBuffer.readerIndex..outputBuffer.writerIndex];
        ghost var out := outputBuffer.Contents();
        assert offered == out;
        var n := WriteInLoop(offered, w);
        if n > 0 {
          outputBuffer.Retrieve(n);
          assert outputBuffer.Contents() == out[n..];
          if outputBuffer.Readable() == 0 {
            writing := false;
            completed := completed + 1;
          }
        } else {
          writing := false;
        }
      }
    }

    /** The event loop runs a queued write-complete callback. */
    method RunCallback()
      requires Valid() && Possible(View(), Callback)
      modifies `pending, `completed
      ensures Valid() && View() == Step(old(View()), Callback)
    {
      pending := pending - 1;
      completed := completed + 1;
    }

    method Shutdown()
      requires Valid()
      modifies `connected, `fin
      ensures Valid() && View() == ShutdownStep(old(View()))
    {
      if !connected { return; }
      connected := false;
      fin := !writing;
    }
  }
}
