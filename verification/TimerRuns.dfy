/** Runs of the timer queue, and the draining loop `EventLoop::runTimers`. */
module TimerRuns {
  import opened TimerHeap

  /** The heap and the counter that numbers timers downwards. */
  datatype Timers = Timers(heap: Heap, counter: int)

  datatype Op = Add(ms: int, repeated: bool) | Cancel(fd: int)

  const START_FD: int := -12345

  function Start(unused: Entry): Timers {
    Timers([unused], START_FD)
  }

  /** The place of timer `fd`, or 0: what the map and the timer's own index say. */
  function Find(h: Heap, fd: int): (r: nat)
    ensures r > 0 ==> r < |h| && h[r].fd == fd
    ensures r == 0 ==> forall i :: 0 < i < |h| ==> h[i].fd != fd
  {
    if |h| <= 1 then 0 else if h[|h| - 1].fd == fd then |h| - 1 else Find(h[..|h| - 1], fd)
  }

  /** `createTimer` and `addTimer` at time `now`, or `cancelTimer`. */
  function Perform(t: Timers, op: Op, now: int): Timers
    requires |t.heap| > 0
  {
    match op
    case Add(ms, repeated) =>
      var fd := t.counter - 1;
      Timers(Insert(t.heap, Entry(fd, now + ms, ms, repeated)), fd)
    case Cancel(fd) =>
      var pos := Find(t.heap, fd);
      if pos > 0 then t.(heap := Delete(t.heap, pos)) else t
  }

  /** `popTimer` up to the callback. */
  function Pop(h: Heap, now: int): Heap
    requires |h| > 1
  {
    var e := h[1];
    if e.repeated then Insert(Delete(h, 1), e.(ts := now + e.interval)) else Delete(h, 1)
  }

  // ---------------------------------------------------------------- what every operation keeps

  /** Each timer is in the heap once, under a number of its own. */
  predicate Unique(h: Heap)
    requires |h| > 0
  {
    && (forall x :: x in Contents(h) ==> Contents(h)[x] == 1)
    && (forall x, y :: x in Contents(h) && y in Contents(h) && x.fd == y.fd ==> x == y)
  }

  predicate Inv(t: Timers) {
    |t.heap| > 0 && Unique(t.heap) && forall x :: x in Contents(t.heap) ==> x.fd >= t.counter
  }

  lemma InsertUnique(h: Heap, e: Entry)
    requires |h| > 0 && Unique(h) && forall x :: x in Contents(h) ==> x.fd != e.fd
    ensures Unique(Insert(h, e))
  {
    hide Up, Contents;
    InsertContents(h, e);
  }

  lemma DeleteUnique(h: Heap, pos: nat)
    requires 0 < pos < |h| && Unique(h)
    ensures Unique(Delete(h, pos))
    ensures forall x :: x in Contents(Delete(h, pos)) <==> x in Contents(h) && x.fd != h[pos].fd
  {
    hide Down, Contents;
    DeleteContents(h, pos);
  }

  lemma PerformKeepsInv(t: Timers, op: Op, now: int)
    requires Inv(t)
    ensures Inv(Perform(t, op, now))
  {
    hide Contents, Up, Down;
    match op
    case Add(ms, repeated) =>
      var e := Entry(t.counter - 1, now + ms, ms, repeated);
      InsertUnique(t.heap, e);
      InsertContents(t.heap, e);
    case Cancel(fd) =>
      var pos := Find(t.heap, fd);
      if pos > 0 { DeleteUnique(t.heap, pos); }
  }

  /** What `popTimer` leaves: the fired timer is gone, or back at its next time. */
  lemma PopContents(h: Heap, now: int)
    requires |h| > 1 && Unique(h)
    ensures |Pop(h, now)| > 0 && Unique(Pop(h, now))
    ensures forall x :: x in Contents(Pop(h, now)) <==>
              (x in Contents(h) && x.fd != h[1].fd) || (h[1].repeated && x == h[1].(ts := now + h[1].interval))
  {
    hide Contents, Up, Down;
    DeleteUnique(h, 1);
    if h[1].repeated {
      var e := h[1].(ts := now + h[1].interval);
      InsertUnique(Delete(h, 1), e);
      InsertContents(Delete(h, 1), e);
    }
  }

  lemma PopKeepsInv(t: Timers, now: int)
    requires Inv(t) && |t.heap| > 1
    ensures Inv(t.(heap := Pop(t.heap, now)))
  {
    PopContents(t.heap, now);
    InContents(t.heap, 1);
    hide Contents, Pop;
  }

  /** A cancelled timer is gone, and only that one; an added one is there, due `ms` from now, under
      a number of its own. */
  lemma PerformContents(t: Timers, op: Op, now: int, x: Entry)
    requires Inv(t)
    ensures |Perform(t, op, now).heap| > 0
    ensures op.Cancel? ==> (x in Contents(Perform(t, op, now).heap) <==> x in Contents(t.heap) && x.fd != op.fd)
    ensures op.Add? ==>
              (x in Contents(Perform(t, op, now).heap)
               <==> x in Contents(t.heap) || x == Entry(t.counter - 1, now + op.ms, op.ms, op.repeated))
  {
    hide Contents, Insert, Delete;
    PerformKeepsInv(t, op, now);
    match op
    case Add(ms, repeated) => InsertContents(t.heap, Entry(t.counter - 1, now + ms, ms, repeated));
    case Cancel(fd) =>
      var pos := Find(t.heap, fd);
      if pos > 0 {
        DeleteContents(t.heap, pos);
        InContents(t.heap, pos);
        OnlyOne(t.heap, pos, x);
      } else if x in Contents(t.heap) {
        var i := PlaceIn(t.heap, x);
      }
  }

  lemma PlaceIn(h: Heap, x: Entry) returns (i: nat)
    requires |h| > 0 && x in Contents(h)
    ensures 0 < i < |h| && h[i] == x
  {
    assert x in h[1..];
    var k :| 0 <= k < |h[1..]| && h[1..][k] == x;
    i := k + 1;
  }

  lemma OnlyOne(h: Heap, pos: nat, x: Entry)
    requires 0 < pos < |h| && Unique(h) && h[pos] in Contents(h)
    ensures x in Contents(h) - multiset{h[pos]} <==> x in Contents(h) && x.fd != h[pos].fd
  {
    hide Contents;
  }

  lemma InContents(h: Heap, i: nat)
    requires 0 < i < |h|
    ensures h[i] in Contents(h)
  {
    assert h[1..][i - 1] == h[i];
  }

  /** A cancel whose moved entry fits; other operations always keep the order. */
  predicate KeepsOrder(t: Timers, op: Op) {
    op.Cancel? ==> var pos := Find(t.heap, op.fd); pos > 0 ==> Fits(t.heap, pos)
  }

  lemma PerformOrder(t: Timers, op: Op, now: int)
    requires |t.heap| > 0 && Ordered(t.heap)
    ensures Ordered(Perform(t, op, now).heap) <==> KeepsOrder(t, op)
  {
    match op
    case Add(ms, repeated) => InsertOrders(t.heap, Entry(t.counter - 1, now + ms, ms, repeated));
    case Cancel(fd) =>
      var pos := Find(t.heap, fd);
      if pos > 0 { DeleteOrderIff(t.heap, pos); }
  }

  lemma PopOrder(h: Heap, now: int)
    requires |h| > 1 && Ordered(h)
    ensures Ordered(Pop(h, now))
  {
    DeleteKeepsOrder(h, 1);
    if h[1].repeated { InsertOrders(Delete(h, 1), h[1].(ts := now + h[1].interval)); }
  }

  datatype Move = Do(op: Op, now: int) | Fire(now: int)

  function Step(t: Timers, m: Move): Timers
    requires |t.heap| > 0
  {
    match m
    case Do(op, now) => Perform(t, op, now)
    case Fire(now) => if |t.heap| > 1 then t.(heap := Pop(t.heap, now)) else t
  }

  /** Any run of adds, cancels and pops, from the empty queue. */
  function Run(unused: Entry, ms: seq<Move>): (t: Timers)
    ensures Inv(t)
  {
    if ms == [] then
      assert Contents([unused]) == multiset{};
      Start(unused)
    else
      var t := Run(unused, ms[..|ms| - 1]);
      var m := ms[|ms| - 1];
      StepKeepsInv(t, m);
      Step(t, m)
  }

  lemma StepKeepsInv(t: Timers, m: Move)
    requires Inv(t)
    ensures Inv(Step(t, m))
  {
    match m
    case Do(op, now) => PerformKeepsInv(t, op, now);
    case Fire(now) => if |t.heap| > 1 { PopKeepsInv(t, now); }
  }

  /** Every cancel of the run fits when it comes. */
  predicate Fitting(unused: Entry, ms: seq<Move>) {
    ms == [] || (Fitting(unused, ms[..|ms| - 1])
                 && (ms[|ms| - 1].Do? ==> KeepsOrder(Run(unused, ms[..|ms| - 1]), ms[|ms| - 1].op)))
  }

  /** Over any run the heap stays ordered as long as every cancel fits. */
  lemma {:induction false} RunStaysOrdered(unused: Entry, ms: seq<Move>)
    requires Fitting(unused, ms)
    ensures Ordered(Run(unused, ms).heap)
  {
    if ms != [] {
      var n := |ms| - 1;
      RunStaysOrdered(unused, ms[..n]);
      var t := Run(unused, ms[..n]);
      if ms[n].Do? { PerformOrder(t, ms[n].op, ms[n].now); } else if |t.heap| > 1 { PopOrder(t.heap, ms[n].now); }
    }
  }

  // ---------------------------------------------------------------- runTimers

  /** The timers due before `now`. */
  function Late(h: Heap, now: int): set<Entry>
    requires |h| > 0
  {
    set x | x in Contents(h) && x.ts < now
  }

  /** `checkTimers`. */
  predicate Due(h: Heap, now: int) {
    |h| > 1 && h[1].ts < now
  }

  function PerformAll(t: Timers, ops: seq<Op>, now: int): (r: Timers)
    requires Inv(t)
    ensures Inv(r)
    decreases |ops|
  {
    if ops == [] then t
    else
      PerformKeepsInv(t, ops[0], now);
      PerformAll(Perform(t, ops[0], now), ops[1..], now)
  }

  /** What callbacks may do: add timers that are not due before now, and cancel timers. */
  predicate Polite(ops: seq<Op>) {
    forall i :: 0 <= i < |ops| ==> ops[i].Add? ==> ops[i].ms >= 0
  }

  /** `script[k]` is what the callback of the `k`-th timer fired does; later ones do nothing. */
  function Callback(script: seq<seq<Op>>, k: nat): seq<Op> {
    if k < |script| then script[k] else []
  }

  predicate PoliteScript(script: seq<seq<Op>>) {
    forall k :: 0 <= k < |script| ==> Polite(script[k])
  }

  predicate NonNegative(t: Timers)
    requires |t.heap| > 0
  {
    forall x :: x in Contents(t.heap) ==> x.interval >= 0
  }

  lemma PerformKeepsLate(t: Timers, op: Op, now: int)
    requires Inv(t) && NonNegative(t) && (op.Add? ==> op.ms >= 0)
    ensures Inv(Perform(t, op, now)) && NonNegative(Perform(t, op, now))
    ensures Late(Perform(t, op, now).heap, now) <= Late(t.heap, now)
    ensures op.Add? ==> Late(Perform(t, op, now).heap, now) == Late(t.heap, now)
  {
    hide Contents, Insert, Delete, Unique;
    PerformKeepsInv(t, op, now);
    match op
    case Add(ms, repeated) =>
      InsertLate(t.heap, Entry(t.counter - 1, now + ms, ms, repeated), now);
    case Cancel(fd) =>
      var pos := Find(t.heap, fd);
      if pos > 0 { DeleteLate(t.heap, pos, now); }
  }

  lemma InsertLate(h: Heap, e: Entry, now: int)
    requires |h| > 0
    ensures |Insert(h, e)| > 0 && Late(Insert(h, e), now) == Late(h, now) + (if e.ts < now then {e} else {})
    ensures forall x :: x in Contents(Insert(h, e)) <==> x in Contents(h) || x == e
  {
    hide Contents, Insert;
    InsertContents(h, e);
    InsertLength(h, e);
  }

  lemma InsertLength(h: Heap, e: Entry)
    requires |h| > 0
    ensures |Insert(h, e)| == |h| + 1
  {
  }

  lemma DeleteLate(h: Heap, pos: nat, now: int)
    requires 0 < pos < |h|
    ensures Late(Delete(h, pos), now) <= Late(h, now)
    ensures forall x :: x in Contents(Delete(h, pos)) ==> x in Contents(h)
  {
    hide Contents, Delete;
    DeleteContents(h, pos);
  }

  lemma {:induction false} PerformAllKeepsLate(t: Timers, ops: seq<Op>, now: int)
    requires Inv(t) && NonNegative(t) && Polite(ops)
    ensures NonNegative(PerformAll(t, ops, now))
    ensures Late(PerformAll(t, ops, now).heap, now) <= Late(t.heap, now)
    ensures (forall i :: 0 <= i < |ops| ==> ops[i].Add?) ==>
            Late(PerformAll(t, ops, now).heap, now) == Late(t.heap, now)
    decreases |ops|
  {
    if ops != [] {
      PerformKeepsLate(t, ops[0], now);
      PerformAllKeepsLate(Perform(t, ops[0], now), ops[1..], now);
    }
  }

  lemma PopShrinksLate(t: Timers, now: int)
    requires Inv(t) && NonNegative(t) && Due(t.heap, now)
    ensures NonNegative(t.(heap := Pop(t.heap, now)))
    ensures Late(Pop(t.heap, now), now) == Late(t.heap, now) - {t.heap[1]} && t.heap[1] in Late(t.heap, now)
  {
    PopContents(t.heap, now);
    InContents(t.heap, 1);
    hide Contents, Pop;
  }

  datatype Drained = Drained(t: Timers, fired: seq<Entry>)

  /** One turn: the earliest timer is taken, re-armed if it repeats, and its callback runs. */
  function FireOne(t: Timers, now: int, ops: seq<Op>): (r: Timers)
    requires Inv(t) && |t.heap| > 1
    ensures Inv(r)
  {
    PopKeepsInv(t, now);
    PerformAll(t.(heap := Pop(t.heap, now)), ops, now)
  }

  lemma FireOneShrinksLate(t: Timers, now: int, ops: seq<Op>)
    requires Inv(t) && NonNegative(t) && Due(t.heap, now) && Polite(ops)
    ensures NonNegative(FireOne(t, now, ops))
    ensures Late(FireOne(t, now, ops).heap, now) < Late(t.heap, now)
    ensures (forall i :: 0 <= i < |ops| ==> ops[i].Add?) ==>
              Late(FireOne(t, now, ops).heap, now) == Late(t.heap, now) - {t.heap[1]}
    ensures t.heap[1] in Late(t.heap, now)
  {
    PopKeepsInv(t, now);
    PopShrinksLate(t, now);
    PerformAllKeepsLate(t.(heap := Pop(t.heap, now)), ops, now);
    hide Pop, Late, PerformAll;
    var l, m, r := Late(t.heap, now), Late(Pop(t.heap, now), now), Late(FireOne(t, now, ops).heap, now);
    assert r <= m < l;
  }

  /** `runTimers` with the clock at `now`. It ends, repeating timers included, because each
      turn leaves fewer timers due. */
  function RunTimers(t: Timers, now: int, script: seq<seq<Op>>, k: nat): (r: Drained)
    requires Inv(t) && NonNegative(t) && PoliteScript(script)
    ensures Inv(r.t) && !Due(r.t.heap, now)
    decreases Late(t.heap, now)
  {
    if !Due(t.heap, now) then Drained(t, [])
    else
      var ops := Callback(script, k);
      FireOneShrinksLate(t, now, ops);
      var r := RunTimers(FireOne(t, now, ops), now, script, k + 1);
      Drained(r.t, [t.heap[1]] + r.fired)
  }

  predicate OnlyAdds(script: seq<seq<Op>>) {
    forall k, i :: 0 <= k < |script| && 0 <= i < |script[k]| ==> script[k][i].Add?
  }

  predicate InTimeOrder(fired: seq<Entry>) {
    forall i, j :: 0 <= i < j < |fired| ==> fired[i].ts <= fired[j].ts
  }

  lemma {:induction false} PerformAllOrder(t: Timers, ops: seq<Op>, now: int)
    requires Inv(t) && Ordered(t.heap) && forall i :: 0 <= i < |ops| ==> ops[i].Add?
    ensures Ordered(PerformAll(t, ops, now).heap)
    decreases |ops|
  {
    if ops != [] {
      PerformOrder(t, ops[0], now);
      PerformKeepsInv(t, ops[0], now);
      PerformAllOrder(Perform(t, ops[0], now), ops[1..], now);
    }
  }

  /** In an ordered heap nothing is due when the root is not. */
  lemma NothingLate(h: Heap, now: int)
    requires |h| > 0 && Ordered(h)
    ensures !Due(h, now) ==> Late(h, now) == {}
    ensures forall x :: |h| > 1 && x in Late(h, now) ==> h[1].ts <= x.ts
  {
    forall x | x in Contents(h) ensures |h| > 1 && h[1].ts <= x.ts {
      var i :| 0 <= i < |h[1..]| && h[1..][i] == x;
      RootIsEarliest(h, i + 1);
    }
  }

  /** The timers `late` were fired, each once, in the order of their times, and no others. */
  ghost predicate FiredAll(fired: seq<Entry>, late: set<Entry>) {
    InTimeOrder(fired) && |fired| == |late| && forall x :: x in late <==> x in fired
  }

  /** From an ordered heap, when callbacks cancel nothing, the loop fires exactly the timers
      that were due, each once, in the order of their times. */
  lemma {:induction false} FiresAllInOrder(t: Timers, now: int, script: seq<seq<Op>>, k: nat)
    requires Inv(t) && NonNegative(t) && PoliteScript(script) && OnlyAdds(script) && Ordered(t.heap)
    ensures FiredAll(RunTimers(t, now, script, k).fired, Late(t.heap, now))
    ensures Late(RunTimers(t, now, script, k).t.heap, now) == {}
    decreases Late(t.heap, now)
  {
    hide Late, Pop, Ordered, FireOne, RunTimers, FiredAll, Inv, Callback, OnlyAdds, PoliteScript, NonNegative;
    if Due(t.heap, now) {
      var u := Next(t, now, script, k);
      FiresAllInOrder(u, now, script, k + 1);
      FiresOneMore(t, now, script, k);
    } else {
      FiresNone(t, now, script, k);
    }
  }

  lemma Next(t: Timers, now: int, script: seq<seq<Op>>, k: nat) returns (u: Timers)
    requires Inv(t) && NonNegative(t) && PoliteScript(script) && OnlyAdds(script) && Ordered(t.heap) && Due(t.heap, now)
    ensures u == FireOne(t, now, Callback(script, k))
    ensures Inv(u) && NonNegative(u) && Ordered(u.heap) && Late(u.heap, now) < Late(t.heap, now)
  {
    var ops := Callback(script, k);
    FireOneShrinksLate(t, now, ops);
    FireOneOrder(t, now, ops);
    u := FireOne(t, now, ops);
  }

  lemma FiresNone(t: Timers, now: int, script: seq<seq<Op>>, k: nat)
    requires Inv(t) && NonNegative(t) && PoliteScript(script) && Ordered(t.heap) && !Due(t.heap, now)
    ensures FiredAll(RunTimers(t, now, script, k).fired, Late(t.heap, now))
    ensures Late(RunTimers(t, now, script, k).t.heap, now) == {}
  {
    OneTurn(t, now, script, k);
    NothingLate(t.heap, now);
    hide Late, Ordered, RunTimers;
  }

  lemma FiresOneMore(t: Timers, now: int, script: seq<seq<Op>>, k: nat)
    requires Inv(t) && NonNegative(t) && PoliteScript(script) && OnlyAdds(script) && Ordered(t.heap) && Due(t.heap, now)
    requires NonNegative(FireOne(t, now, Callback(script, k)))
    requires var u := FireOne(t, now, Callback(script, k)); var r := RunTimers(u, now, script, k + 1);
             FiredAll(r.fired, Late(u.heap, now)) && Late(r.t.heap, now) == {}
    ensures FiredAll(RunTimers(t, now, script, k).fired, Late(t.heap, now))
    ensures Late(RunTimers(t, now, script, k).t.heap, now) == {}
  {
    var ops := Callback(script, k);
    OneTurn(t, now, script, k);
    FireOneShrinksLate(t, now, ops);
    NothingLate(t.heap, now);
    assert forall i :: 0 <= i < |ops| ==> ops[i].Add?;
    hide Late, Pop, Ordered, Unique, FireOne, RunTimers, FiredAll, Callback;
    FiredFirst(t.heap[1], RunTimers(FireOne(t, now, ops), now, script, k + 1).fired, Late(t.heap, now));
  }

  lemma OneTurn(t: Timers, now: int, script: seq<seq<Op>>, k: nat)
    requires Inv(t) && NonNegative(t) && PoliteScript(script)
    ensures !Due(t.heap, now) ==> RunTimers(t, now, script, k) == Drained(t, [])
    ensures Due(t.heap, now) ==>
              var ops := Callback(script, k);
              NonNegative(FireOne(t, now, ops)) &&
              var r := RunTimers(FireOne(t, now, ops), now, script, k + 1);
              RunTimers(t, now, script, k) == Drained(r.t, [t.heap[1]] + r.fired)
  {
    if Due(t.heap, now) { FireOneShrinksLate(t, now, Callback(script, k)); }
  }

  lemma FireOneOrder(t: Timers, now: int, ops: seq<Op>)
    requires Inv(t) && |t.heap| > 1 && Ordered(t.heap) && forall i :: 0 <= i < |ops| ==> ops[i].Add?
    ensures Ordered(FireOne(t, now, ops).heap)
  {
    PopKeepsInv(t, now);
    PopOrder(t.heap, now);
    PerformAllOrder(t.(heap := Pop(t.heap, now)), ops, now);
  }

  lemma FiredFirst(e: Entry, fired: seq<Entry>, late: set<Entry>)
    requires e in late && FiredAll(fired, late - {e})
    requires forall x :: x in late ==> e.ts <= x.ts
    ensures FiredAll([e] + fired, late)
  {
    var f := [e] + fired;
    forall i, j | 0 <= i < j < |f| ensures f[i].ts <= f[j].ts {
      assert f[j] == fired[j - 1] && fired[j - 1] in fired;
      if i > 0 { assert f[i] == fired[i - 1]; }
    }
  }

  // ---------------------------------------------------------------- a cancel that does not fit

  function Once(i: int, ts: int): Entry {
    Entry(START_FD - i, ts, ts, false)
  }

  /** Timers set for 1, 10, 2, 11, 12, 20 and 4, added in this order at time 0. */
  function SevenTimers(unused: Entry): Heap {
    [unused, Once(1, 1), Once(2, 10), Once(3, 2), Once(4, 11), Once(5, 12), Once(6, 20), Once(7, 4)]
  }

  lemma RunAdd(unused: Entry, ms: seq<Move>, ts: int, h: Heap, g: Heap, n: nat)
    requires Run(unused, ms) == Timers(h, START_FD - n) && |h| == n + 1
    requires g == h + [Once(n + 1, ts)] && (n > 0 ==> g[(n + 1) / 2].ts <= ts)
    ensures Run(unused, ms + [Do(Add(ts, false), 0)]) == Timers(g, START_FD - n - 1)
  {
    assert (ms + [Do(Add(ts, false), 0)])[..|ms|] == ms;
  }

  function SevenAdds(): seq<Move> {
    [Do(Add(1, false), 0)] + [Do(Add(10, false), 0)] + [Do(Add(2, false), 0)] + [Do(Add(11, false), 0)]
    + [Do(Add(12, false), 0)] + [Do(Add(20, false), 0)] + [Do(Add(4, false), 0)]
  }

  /** That heap is reachable. */
  lemma SevenTimersReachable(unused: Entry)
    ensures Run(unused, SevenAdds()) == Timers(SevenTimers(unused), START_FD - 7)
  {
    hide Run, SevenTimers;
    var b := [Do(Add(1, false), 0)] + [Do(Add(10, false), 0)] + [Do(Add(2, false), 0)];
    var c := b + [Do(Add(11, false), 0)] + [Do(Add(12, false), 0)];
    var h := ThreeTimersReachable(unused);
    var g := TwoMore(unused, b, h, 3, 11, 12);
    var f := TwoMore(unused, c, g, 5, 20, 4);
    SevenIs(unused);
  }

  /** Two timers that stay where they are put. */
  lemma TwoMore(unused: Entry, ms: seq<Move>, h: Heap, n: nat, x: int, y: int) returns (g: Heap)
    requires Run(unused, ms) == Timers(h, START_FD - n) && |h| == n + 1 && n >= 3
    requires h[(n + 1) / 2].ts <= x && h[(n + 2) / 2].ts <= y
    ensures g == h + [Once(n + 1, x)] + [Once(n + 2, y)]
    ensures Run(unused, ms + [Do(Add(x, false), 0)] + [Do(Add(y, false), 0)]) == Timers(g, START_FD - n - 2)
  {
    hide Run;
    g := h + [Once(n + 1, x)] + [Once(n + 2, y)];
    RunAdd(unused, ms, x, h, h + [Once(n + 1, x)], n);
    RunAdd(unused, ms + [Do(Add(x, false), 0)], y, h + [Once(n + 1, x)], g, n + 1);
  }

  lemma SevenIs(unused: Entry)
    ensures [unused, Once(1, 1), Once(2, 10), Once(3, 2)] + [Once(4, 11)] + [Once(5, 12)] + [Once(6, 20)]
            + [Once(7, 4)] == SevenTimers(unused)
  {
  }

  lemma ThreeTimersReachable(unused: Entry) returns (h: Heap)
    ensures h == [unused, Once(1, 1), Once(2, 10), Once(3, 2)]
    ensures Run(unused, [Do(Add(1, false), 0)] + [Do(Add(10, false), 0)] + [Do(Add(2, false), 0)])
         == Timers(h, START_FD - 3)
  {
    hide Run;
    h := [unused, Once(1, 1), Once(2, 10), Once(3, 2)];
    var a := [Do(Add(1, false), 0)];
    assert h[..2] == h[..1] + [h[1]] && h[..3] == h[..2] + [h[2]] && h == h[..3] + [h[3]];
    assert [] + a == a && h[..1] == [unused];
    RunNone(unused);
    RunAdd(unused, [], 1, h[..1], h[..2], 0);
    RunAdd(unused, a, 10, h[..2], h[..3], 1);
    RunAdd(unused, a + [Do(Add(10, false), 0)], 2, h[..3], h, 2);
  }

  lemma RunNone(unused: Entry)
    ensures Run(unused, []) == Timers([unused], START_FD)
  {
  }

  /** Cancelling the timer for 11 moves the timer for 4 below the one for 10. `n` timers later the
      heap is this. */
  function AfterCancel(unused: Entry, n: nat): Heap {
    match n
    case 0 => [unused, Once(1, 1), Once(2, 10), Once(3, 2), Once(7, 4), Once(5, 12), Once(6, 20)]
    case 1 => [unused, Once(3, 2), Once(2, 10), Once(6, 20), Once(7, 4), Once(5, 12)]
    case 2 => [unused, Once(2, 10), Once(7, 4), Once(6, 20), Once(5, 12)]
    case 3 => [unused, Once(7, 4), Once(5, 12), Once(6, 20)]
    case 4 => [unused, Once(5, 12), Once(6, 20)]
    case 5 => [unused, Once(6, 20)]
    case _ => [unused]
  }

  /** The order in which they fire. */
  function Misordered(): seq<Entry> {
    [Once(1, 1), Once(3, 2), Once(2, 10), Once(7, 4), Once(5, 12), Once(6, 20)]
  }

  lemma CancelEleven(unused: Entry)
    ensures Perform(Timers(SevenTimers(unused), START_FD - 7), Cancel(START_FD - 4), 0)
         == Timers(AfterCancel(unused, 0), START_FD - 7)
  {
    var t := SevenTimers(unused);
    var h := AfterCancel(unused, 0);
    assert t[..7][4] == t[4] && t[..6][4] == t[4] && t[..5][4] == t[4];
    assert Find(t[..5], START_FD - 4) == 4;
    assert t[..6][..5] == t[..5] && Find(t[..6], START_FD - 4) == 4;
    assert t[..7][..6] == t[..6] && Find(t[..7], START_FD - 4) == 4;
    assert Find(t, START_FD - 4) == 4;
    assert Swap(t, 4, 7)[..7] == h;
    assert Delete(t, 4) == h;
  }

  lemma FireFirst(unused: Entry)
    ensures Delete(AfterCancel(unused, 0), 1) == AfterCancel(unused, 1)
  {
    var h := [unused, Once(6, 20), Once(2, 10), Once(3, 2), Once(7, 4), Once(5, 12)];
    assert Swap(AfterCancel(unused, 0), 1, 6)[..6] == h;
    assert Smallest(h, 1) == 3 && Swap(h, 1, 3) == AfterCancel(unused, 1);
    assert Down(h, 1) == Down(AfterCancel(unused, 1), 3) == AfterCancel(unused, 1);
  }

  lemma FireSecond(unused: Entry)
    ensures Delete(AfterCancel(unused, 1), 1) == AfterCancel(unused, 2)
  {
    var h := [unused, Once(5, 12), Once(2, 10), Once(6, 20), Once(7, 4)];
    var g := [unused, Once(2, 10), Once(5, 12), Once(6, 20), Once(7, 4)];
    assert Swap(AfterCancel(unused, 1), 1, 5)[..5] == h;
    assert Smallest(h, 1) == 2 && Swap(h, 1, 2) == g;
    assert Smallest(g, 2) == 4 && Swap(g, 2, 4) == AfterCancel(unused, 2);
    assert Down(h, 1) == Down(g, 2) == Down(AfterCancel(unused, 2), 4) == AfterCancel(unused, 2);
  }

  lemma FireOthers(unused: Entry, n: nat)
    requires 2 <= n < 6
    ensures Delete(AfterCancel(unused, n), 1) == AfterCancel(unused, n + 1)
  {
    if n == 2 {
      var h := [unused, Once(5, 12), Once(7, 4), Once(6, 20)];
      assert Swap(AfterCancel(unused, 2), 1, 4)[..4] == h;
      assert Smallest(h, 1) == 2 && Swap(h, 1, 2) == AfterCancel(unused, 3);
      assert Down(h, 1) == Down(AfterCancel(unused, 3), 2) == AfterCancel(unused, 3);
    } else if n == 3 {
      var h := [unused, Once(6, 20), Once(5, 12)];
      assert Swap(AfterCancel(unused, 3), 1, 3)[..3] == h;
      assert Smallest(h, 1) == 2 && Swap(h, 1, 2) == AfterCancel(unused, 4);
      assert Down(h, 1) == Down(AfterCancel(unused, 4), 2) == AfterCancel(unused, 4);
    } else {
      assert Swap(AfterCancel(unused, n), 1, 7 - n - 1)[..7 - n - 1] == AfterCancel(unused, n + 1);
    }
  }

  lemma FireAny(unused: Entry, n: nat)
    requires n < 6
    ensures |AfterCancel(unused, n)| > 1 && AfterCancel(unused, n)[1] == Misordered()[n]
    ensures Delete(AfterCancel(unused, n), 1) == AfterCancel(unused, n + 1)
  {
    hide Delete;
    if n == 0 { FireFirst(unused); } else if n == 1 { FireSecond(unused); } else { FireOthers(unused, n); }
  }

  /** The draining loop from there on. */
  lemma {:induction false} FiresMisordered(unused: Entry, t: Timers, now: int, n: nat, k: nat)
    requires Inv(t) && NonNegative(t) && n <= 6 && t.heap == AfterCancel(unused, n) && now > 20
    ensures RunTimers(t, now, [], k).fired == Misordered()[n..]
    decreases 6 - n
  {
    hide Delete, Inv, NonNegative, AfterCancel, RunTimers;
    OneTurn(t, now, [], k);
    if n == 6 {
      assert AfterCancel(unused, 6) == [unused] by { AfterAll(unused); }
    } else {
      FireAny(unused, n);
      var u := FireOne(t, now, []);
      assert u.heap == AfterCancel(unused, n + 1);
      FiresMisordered(unused, u, now, n + 1, k + 1);
      assert Misordered()[n..] == [Misordered()[n]] + Misordered()[n + 1..];
    }
  }

  lemma AfterAll(unused: Entry)
    ensures AfterCancel(unused, 6) == [unused]
  {
  }

  /** A run with one cancel that leaves the heap out of order: the timer for 4 then fires after
      the one for 10. */
  lemma CancelMisorders(unused: Entry)
    ensures var t := Run(unused, SevenAdds() + [Do(Cancel(START_FD - 4), 0)]);
            && !Ordered(t.heap) && NonNegative(t)
            && forall now :: now > 20 ==> RunTimers(t, now, [], 0).fired == Misordered()
  {
    hide SevenTimers, Perform, RunTimers, AfterCancel, Delete, Ordered, Misordered;
    SevenTimersReachable(unused);
    CancelEleven(unused);
    var ms := SevenAdds() + [Do(Cancel(START_FD - 4), 0)];
    assert ms[..|ms| - 1] == SevenAdds();
    var t := Run(unused, ms);
    assert t.heap == AfterCancel(unused, 0);
    NotOrdered(unused);
    assert NonNegative(t);
    forall now | now > 20 ensures RunTimers(t, now, [], 0).fired == Misordered() {
      FiresMisordered(unused, t, now, 0, 0);
      assert Misordered()[0..] == Misordered();
    }
  }

  lemma NotOrdered(unused: Entry)
    ensures var h := AfterCancel(unused, 0); !Ordered(h) && forall x :: x in Contents(h) ==> x.interval >= 0
  {
    var h := AfterCancel(unused, 0);
    assert h[4 / 2].ts > h[4].ts;
    assert forall x :: x in h[1..] ==> x.interval >= 0;
  }
}
