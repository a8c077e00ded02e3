/** The timer queue as objects: a vector of timers that know their own place in it, and a
    map from numbers to timers. Each method carries out the heap function of its name. */
module TimerQueue {
  import opened TimerHeap
  import Runs = TimerRuns

  class Timer {
    const fd: int
    const interval: int
    const repeated: bool
    var timestamp: int
    var heapIndex: int

    constructor (fd: int, interval: int, repeated: bool, now: int)
      ensures this.fd == fd && this.interval == interval && this.repeated == repeated
      ensures timestamp == now + interval
    {
      this.fd, this.interval, this.repeated := fd, interval, repeated;
      timestamp, heapIndex := now + interval, 0;
    }

    function Entry(): Entry
      reads `timestamp
    {
      TimerHeap.Entry(fd, timestamp, interval, repeated)
    }
  }

  /** The timers in a vector, in no order. */
  ghost function Bag(s: seq<Timer?>): multiset<Timer?> {
    multiset(s)
  }

  /** The timers in a vector, as a set. */
  ghost function Members(s: seq<Timer?>): set<Timer?> {
    set t | t in s
  }

  lemma SwapPermutes(s: seq<Timer?>, i: nat, j: nat)
    requires i < |s| && j < |s|
    ensures Bag(s[i := s[j]][j := s[i]]) == Bag(s)
  {
  }

  /** Swapped to the end and dropped, an element is gone. */
  lemma SwappedOut(s: seq<Timer?>, i: nat, t: seq<Timer?>)
    requires i < |s| && t == s[i := s[|s| - 1]][|s| - 1 := s[i]]
    ensures t[|s| - 1] == s[i]
    ensures Bag(t[..|s| - 1]) == Bag(s) - multiset{s[i]}
  {
    hide Bag;
    SwapPermutes(s, i, |s| - 1);
    LastOfBag(t);
  }

  lemma LastOfBag(t: seq<Timer?>)
    requires t != []
    ensures Bag(t[..|t| - 1]) == Bag(t) - multiset{t[|t| - 1]}
  {
    assert t == t[..|t| - 1] + [t[|t| - 1]];
  }

  lemma OneMore(s: seq<Timer?>, more: seq<Timer?>, timer: Timer)
    requires Bag(more) == Bag(s) + multiset{timer}
    ensures Members(more) == Members(s) + {timer}
  {
    assert forall t :: t in more <==> t in multiset(more);
  }

  lemma OneLess(s: seq<Timer?>, less: seq<Timer?>, timer: Timer)
    requires Bag(less) == Bag(s) - multiset{timer} && Bag(s)[timer] == 1
    ensures Members(less) == Members(s) - {timer}
  {
    assert forall t :: t in less <==> t in multiset(less);
    assert forall t :: t in s <==> t in multiset(s);
  }

  /** The timers in the heap are exactly the values of the map, each under its own number, and the
      counter is not above any of the numbers. */
  ghost predicate Named(heap: seq<Timer?>, timers: map<int, Timer>, counter: int) {
    && (forall t: Timer :: t in heap ==> t.fd in timers && timers[t.fd] == t)
    && (forall fd :: fd in timers ==> timers[fd] in heap && timers[fd].fd == fd && counter <= fd)
  }

  lemma NamedLess(heap: seq<Timer?>, less: seq<Timer?>, timers: map<int, Timer>, counter: int, timer: Timer)
    requires Named(heap, timers, counter) && timer in heap
    requires Members(less) == Members(heap) - {timer}
    ensures Named(less, timers - {timer.fd}, counter)
  {
    assert forall t :: t in less <==> t in Members(less);
  }

  lemma NamedMore(heap: seq<Timer?>, more: seq<Timer?>, timers: map<int, Timer>, counter: int, timer: Timer)
    requires Named(heap, timers, counter) && counter <= timer.fd && timer.fd !in timers
    requires Members(more) == Members(heap) + {timer}
    ensures Named(more, timers[timer.fd := timer], counter)
  {
    assert forall t :: t in more <==> t in Members(more);
  }

  lemma NamedSame(heap: seq<Timer?>, same: seq<Timer?>, timers: map<int, Timer>, counter: int, timer: Timer)
    requires Named(heap, timers, counter) && timer in heap
    requires Members(same) == Members(heap) - {timer} + {timer}
    ensures Named(same, timers, counter)
  {
    assert forall t :: t in same <==> t in Members(same);
  }

  class TimerQueue {
    var heap: seq<Timer?>
    var timers: map<int, Timer>
    var counter: int
    ghost var view: Heap
    ghost var repr: set<Timer>

    /** Place 0 of the vector is unused; every other place holds a timer that knows it. */
    ghost predicate Placed()
      reads `heap, `view, `repr, repr`heapIndex, repr`timestamp
      ensures Placed() ==> |heap| == |view| > 0
    {
      && |heap| == |view| > 0 && heap[0] == null
      && (forall i :: 0 < i < |heap| ==> heap[i] != null && heap[i] in repr)
      && (forall i :: 0 < i < |heap| ==> heap[i].heapIndex == i && heap[i].Entry() == view[i])
    }

    ghost predicate Mapped()
      reads `heap, `timers, `counter
    {
      Named(heap, timers, counter)
    }

    ghost predicate Valid()
      reads `heap, `view, `repr, `timers, `counter, repr`heapIndex, repr`timestamp
    {
      Placed() && Mapped()
    }

    constructor ()
      ensures Valid() && |view| == 1 && timers == map[] && counter == Runs.START_FD && repr == {}
    {
      heap, timers, counter := [null], map[], Runs.START_FD;
      view, repr := [TimerHeap.Entry(0, 0, 0, false)], {};
    }

    method HeapSwap(posA: nat, posB: nat)
      requires Placed() && 0 < posA < |heap| && 0 < posB < |heap|
      modifies `heap, `view, repr`heapIndex
      ensures Placed() && view == Swap(old(view), posA, posB)
      ensures heap == old(heap)[posA := old(heap)[posB]][posB := old(heap)[posA]]
      ensures Bag(heap) == old(Bag(heap))
    {
      SwapPermutes(heap, posA, posB);
      heap := heap[posA := heap[posB]][posB := heap[posA]];
      view := Swap(view, posA, posB);
      heap[posA].heapIndex := posA;
      heap[posB].heapIndex := posB;
    }

    method HeapUp(from: nat)
      requires Placed() && 0 < from < |heap|
      modifies `heap, `view, repr`heapIndex
      ensures Placed() && view == Up(old(view), from)
      ensures Bag(heap) == old(Bag(heap))
    {
      var pos := from;
      while pos > 1
        invariant Placed() && 0 < pos < |heap| && Up(view, pos) == Up(old(view), from)
        invariant Bag(heap) == old(Bag(heap))
        decreases pos
      {
        var parent := pos / 2;
        if heap[parent].timestamp > heap[pos].timestamp {
          HeapSwap(pos, parent);
          pos := parent;
        } else {
          return;
        }
      }
    }

    /** The comparisons of `heapDown`. */
    method EarliestChild(pos: nat) returns (target: nat)
      requires Placed() && 0 < pos && 2 * pos < |heap|
      ensures target == Smallest(view, pos)
    {
      var left, right := 2 * pos, 2 * pos + 1;
      target := pos;
      if heap[left].timestamp < heap[target].timestamp { target := left; }
      if right < |heap| {
        if heap[right].timestamp < heap[target].timestamp { target := right; }
      }
    }

    method HeapDown(from: nat)
      requires Placed() && 0 < from
      modifies `heap, `view, repr`heapIndex
      ensures Placed() && view == Down(old(view), from)
      ensures Bag(heap) == old(Bag(heap))
    {
      var pos := from;
      while true
        invariant Placed() && 0 < pos && Down(view, pos) == Down(old(view), from)
        invariant Bag(heap) == old(Bag(heap))
        decreases |heap| - pos
      {
        if 2 * pos >= |heap| { return; }
        var target := EarliestChild(pos);
        if pos != target {
          HeapSwap(pos, target);
          pos := target;
        } else {
          return;
        }
      }
    }

    method HeapInsert(timer: Timer)
      requires Placed() && timer !in repr
      modifies `heap, `view, `repr, repr`heapIndex, timer`heapIndex
      ensures Placed() && repr == old(repr) + {timer} && view == Insert(old(view), old(timer.Entry()))
      ensures Bag(heap) == old(Bag(heap)) + multiset{timer}
    {
      var index := |heap|;
      heap := heap + [timer];
      view := view + [timer.Entry()];
      repr := repr + {timer};
      timer.heapIndex := index;
      HeapUp(index);
    }

    /** `pop_back`. */
    method PopBack()
      requires Placed() && |heap| > 1
      modifies `heap, `view
      ensures Placed() && heap == old(heap)[..|old(heap)| - 1] && view == old(view)[..|old(view)| - 1]
    {
      heap, view := heap[..|heap| - 1], view[..|view| - 1];
    }

    /** What `heapPop` and `heapDelete` share: the timer at `pos` leaves the heap. */
    method TakeOut(pos: nat) returns (removed: Timer)
      requires Placed() && 0 < pos < |heap|
      modifies `heap, `view, repr`heapIndex
      ensures Placed() && view == Delete(old(view), pos) && removed == old(heap)[pos]
      ensures Bag(heap) == old(Bag(heap)) - multiset{removed}
    {
      hide Down, Swap, Bag;
      HeapSwap(pos, |heap| - 1);
      SwappedOut(old(heap), pos, heap);
      removed := heap[|heap| - 1];
      PopBack();
      HeapDown(pos);
    }

    method HeapPop() returns (removed: Timer?)
      requires Placed()
      modifies `heap, `view, repr`heapIndex
      ensures Placed() && (|old(heap)| <= 1 ==> removed == null && heap == old(heap) && view == old(view))
      ensures |old(heap)| > 1 ==> removed == old(heap)[1] && view == Delete(old(view), 1)
      ensures |old(heap)| > 1 ==> Bag(heap) == old(Bag(heap)) - multiset{removed}
    {
      hide Delete, Bag;
      if |heap| <= 1 { return null; }
      removed := TakeOut(1);
    }

    method HeapDelete(pos: int) returns (ok: bool)
      requires Placed()
      modifies `heap, `view, repr`heapIndex
      ensures Placed() && ok == (0 < pos < |old(heap)|)
      ensures !ok ==> heap == old(heap) && view == old(view)
      ensures ok ==> view == Delete(old(view), pos)
      ensures ok ==> Bag(heap) == old(Bag(heap)) - multiset{old(heap)[pos]}
    {
      hide Delete, Bag;
      if pos <= 0 || pos >= |heap| { return false; }
      var removed := TakeOut(pos);
      ok := true;
    }

    // ---------------------------------------------------------------- the queue

    /** `createTimer`. */
    method CreateTimer(delay: int, repeated: bool, now: int) returns (timer: Timer)
      requires Valid()
      modifies `counter
      ensures Valid() && fresh(timer) && counter == old(counter) - 1 && timer.fd !in timers
      ensures timer.Entry() == TimerHeap.Entry(counter, now + delay, delay, repeated)
    {
      counter := counter - 1;
      timer := new Timer(counter, delay, repeated, now);
    }

    /** `addTimer`. */
    method AddTimer(timer: Timer)
      requires Valid() && timer !in repr && timer.fd !in timers && counter <= timer.fd
      modifies `heap, `view, `repr, `timers, repr`heapIndex, timer`heapIndex
      ensures Valid() && view == Insert(old(view), old(timer.Entry())) && repr == old(repr) + {timer}
      ensures timers == old(timers)[timer.fd := timer]
    {
      hide Insert, Bag, Placed, Named, Members;
      HeapInsert(timer);
      OneMore(old(heap), heap, timer);
      NamedMore(old(heap), heap, timers, counter, timer);
      timers := timers[timer.fd := timer];
    }

    /** `EventLoop::addTimer`: the step `Add` of a run. */
    method StartTimer(delay: int, repeated: bool, now: int) returns (fd: int)
      requires Valid()
      modifies `heap, `view, `repr, `timers, `counter, repr`heapIndex
      ensures Valid() && fd == counter && timers.Keys == old(timers.Keys) + {fd} && fd !in old(timers)
      ensures Runs.Timers(view, counter)
           == Runs.Perform(Runs.Timers(old(view), old(counter)), Runs.Add(delay, repeated), now)
    {
      hide Insert;
      var timer := CreateTimer(delay, repeated, now);
      AddTimer(timer);
      fd := timer.fd;
    }

    /** The number of a timer names one place. */
    lemma PlaceOf(fd: int)
      requires Valid() && fd in timers
      ensures 0 < timers[fd].heapIndex < |heap| && heap[timers[fd].heapIndex] == timers[fd]
      ensures Runs.Find(view, fd) == timers[fd].heapIndex && timers[fd].fd == fd
    {
      var t := timers[fd];
      var i :| 0 <= i < |heap| && heap[i] == t;
      FoundOnce(view, fd, t.heapIndex);
    }

    lemma FoundOnce(h: Heap, fd: int, i: nat)
      requires 0 < i < |h| && h[i].fd == fd && forall j :: 0 < j < |h| && h[j].fd == fd ==> j == i
      ensures Runs.Find(h, fd) == i
    {
    }

    lemma NotFound(fd: int)
      requires Valid() && fd !in timers
      ensures Runs.Find(view, fd) == 0
    {
      assert forall i :: 0 < i < |heap| ==> heap[i] in heap;
    }

    /** `cancelTimer`: the step `Cancel` of a run. */
    method CancelTimer(fd: int)
      requires Valid()
      modifies `heap, `view, `timers, repr`heapIndex
      ensures Valid()
      ensures view == var pos := Runs.Find(old(view), fd); if pos > 0 then Delete(old(view), pos) else old(view)
      ensures timers == old(timers) - {fd}
    {
      hide Delete, Bag, Placed, Named, Members, Runs.Find;
      if fd in timers {
        PlaceOf(fd);
        var pos := timers[fd].heapIndex;
        OnceInHeap(pos);
        var done := HeapDelete(pos);
        OneLess(old(heap), heap, old(heap)[pos]);
        NamedLess(old(heap), heap, timers, counter, timers[fd]);
        timers := timers - {fd};
      } else {
        NotFound(fd);
      }
    }

    /** A timer is in the vector once. */
    lemma OnceInHeap(pos: nat)
      requires Placed() && 0 < pos < |heap|
      ensures Bag(heap)[heap[pos]] == 1
    {
      assert heap == heap[..pos] + [heap[pos]] + heap[pos + 1..];
      assert heap[pos] !in heap[..pos] && heap[pos] !in heap[pos + 1..];
    }

    method CheckTimers(now: int) returns (due: bool)
      requires Valid()
      ensures due == Runs.Due(view, now)
    {
      if |heap| <= 1 { return false; }
      due := heap[1].timestamp < now;
    }

    /** A repeated timer that has left the heap goes back in for its next time. */
    method Rearm(timer: Timer, now: int)
      requires Placed() && timer in repr && timer !in Members(heap)
      modifies `heap, `view, `repr, repr`heapIndex, timer`timestamp
      ensures Placed() && repr == old(repr)
      ensures view == Insert(old(view), old(timer.Entry()).(ts := now + timer.interval))
      ensures Members(heap) == old(Members(heap)) + {timer}
    {
      hide Insert, Bag;
      repr := repr - {timer};
      timer.timestamp := now + timer.interval;
      HeapInsert(timer);
      OneMore(old(heap), heap, timer);
    }

    /** The root leaves the vector. */
    method TakeFirst() returns (fired: Timer)
      requires Placed() && |heap| > 1
      modifies `heap, `view, repr`heapIndex
      ensures Placed() && view == Delete(old(view), 1) && fired == old(heap)[1] && fired in repr
      ensures old(fired.Entry()) == old(view)[1]
      ensures Members(heap) == old(Members(heap)) - {fired}
    {
      hide Insert, Delete, Bag;
      OnceInHeap(1);
      fired := HeapPop();
      OneLess(old(heap), heap, fired);
    }

    /** `popTimer` up to the callback, which the caller runs. */
    method PopTimer(now: int) returns (fired: Timer)
      requires Valid() && |heap| > 1
      modifies `heap, `view, `repr, `timers, repr
      ensures Valid() && view == Runs.Pop(old(view), now)
      ensures fired == old(heap)[1] && old(fired.Entry()) == old(view)[1]
      ensures timers == if fired.repeated then old(timers) else old(timers) - {fired.fd}
    {
      hide Insert, Delete, Bag, Placed, Named, Members;
      fired := TakeFirst();
      assert fired in old(heap);
      if !fired.repeated {
        NamedLess(old(heap), heap, timers, counter, fired);
        timers := timers - {fired.fd};
      } else {
        Rearm(fired, now);
        NamedSame(old(heap), heap, timers, counter, fired);
      }
    }
  }
}
