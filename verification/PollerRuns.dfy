/** Registration of descriptors with a poller, as values: `IOFd` in `src/net/fd/IOFd.cpp` and
    `EPollPoller` in `src/net/poller/EPollPoller.cpp`. A failed assertion, a call through a
    null loop and a call the kernel would refuse all end a step in `None`. */
module PollerRuns {

  datatype Option<T> = None | Some(value: T)

  const READ_EVENT: bv8 := 3
  const WRITE_EVENT: bv8 := 4

  datatype Status = NEW | ADDED | DELETED

  datatype FdState = FdState(attached: bool, events: bv8, status: Status)

  const CREATED := FdState(false, 0, NEW)

  /** `fds` is every descriptor of the program under its number, `table` the numbers in the
      poller's map, `kernel` the interest set of the epoll instance. */
  datatype System = System(fds: map<int, FdState>, table: set<int>, kernel: map<int, bv8>)

  datatype Op =
    | Attach(fd: int) | Detach(fd: int)
    | EnableRead(fd: int) | EnableWrite(fd: int)
    | DisableRead(fd: int) | DisableWrite(fd: int) | DisableAll(fd: int)

  function Put(s: System, n: int, f: FdState): System {
    s.(fds := s.fds[n := f])
  }

  // The three calls of `epoll_ctl`, with the errors EEXIST and ENOENT.

  function CtlAdd(s: System, n: int, events: bv8): Option<System> {
    if n in s.kernel then None else Some(s.(kernel := s.kernel[n := events]))
  }

  function CtlMod(s: System, n: int, events: bv8): Option<System> {
    if n in s.kernel then Some(s.(kernel := s.kernel[n := events])) else None
  }

  function CtlDel(s: System, n: int): Option<System> {
    if n in s.kernel then Some(s.(kernel := s.kernel - {n})) else None
  }

  /** `updateFd`. */
  function Update(s: System, n: int): Option<System>
    requires n in s.fds
  {
    var f := s.fds[n];
    match f.status
    case NEW =>
      if n in s.table then None
      else CtlAdd(Put(s, n, f.(status := ADDED)).(table := s.table + {n}), n, f.events)
    case DELETED =>
      if n !in s.table then None else CtlAdd(Put(s, n, f.(status := ADDED)), n, f.events)
    case ADDED =>
      if n !in s.table then None
      else if f.events == 0 then CtlDel(Put(s, n, f.(status := DELETED)), n)
      else CtlMod(s, n, f.events)
  }

  /** `removeFd`. */
  function Remove(s: System, n: int): Option<System>
    requires n in s.fds
  {
    var f := s.fds[n];
    if n !in s.table then Some(s)
    else if f.events != 0 || f.status == NEW then None
    else
      var t := Put(s, n, f.(status := NEW)).(table := s.table - {n});
      if f.status == ADDED then CtlDel(t, n) else Some(t)
  }

  /** New events, passed on to the loop, if there is one. */
  function SetEvents(s: System, n: int, events: bv8): Option<System>
    requires n in s.fds
  {
    if s.fds[n].attached then Update(Put(s, n, s.fds[n].(events := events)), n) else None
  }

  function DetachStep(s: System, n: int): Option<System>
    requires n in s.fds
  {
    if !s.fds[n].attached then Some(s)
    else
      match if s.fds[n].events != 0 then SetEvents(s, n, 0) else Some(s)
      case None => None
      case Some(t) =>
        if n !in t.fds then None else
          match Remove(t, n)
          case None => None
          case Some(u) => if n in u.fds then Some(Put(u, n, u.fds[n].(attached := false))) else None
  }

  function Step(s: System, op: Op): Option<System>
    requires op.fd in s.fds
  {
    var f := s.fds[op.fd];
    match op
    case Attach(n) =>
      if f.attached then Some(s)
      else
        var t := Put(s, n, f.(attached := true));
        if f.events != 0 then Update(t, n) else Some(t)
    case Detach(n) => DetachStep(s, n)
    case EnableRead(n) => if f.events & READ_EVENT == 0 then SetEvents(s, n, f.events | READ_EVENT) else Some(s)
    case EnableWrite(n) => if f.events & WRITE_EVENT == 0 then SetEvents(s, n, f.events | WRITE_EVENT) else Some(s)
    case DisableRead(n) => if f.events & READ_EVENT != 0 then SetEvents(s, n, f.events & !READ_EVENT) else Some(s)
    case DisableWrite(n) => if f.events & WRITE_EVENT != 0 then SetEvents(s, n, f.events & !WRITE_EVENT) else Some(s)
    case DisableAll(n) => if f.events != 0 then SetEvents(s, n, 0) else Some(s)
  }

  // ---------------------------------------------------------------- the invariant

  predicate FdOk(f: FdState, tabled: bool, watched: bool, mask: bv8) {
    && (!f.attached ==> f == CREATED)
    && (f.status == ADDED <==> f.events != 0)
    && (tabled <==> f.status != NEW)
    && (watched <==> f.events != 0)
    && (watched ==> mask == f.events)
  }

  predicate OkAt(s: System, n: int)
    requires n in s.fds
  {
    FdOk(s.fds[n], n in s.table, n in s.kernel, if n in s.kernel then s.kernel[n] else 0)
  }

  predicate Sound(s: System) {
    && s.table <= s.fds.Keys && s.kernel.Keys <= s.fds.Keys
    && forall n :: n in s.fds ==> OkAt(s, n)
  }

  /** What the kernel should watch: the attached descriptors that want events. */
  function Interests(s: System): map<int, bv8> {
    map n | n in s.fds && s.fds[n].attached && s.fds[n].events != 0 :: s.fds[n].events
  }

  lemma KernelIsInterests(s: System)
    requires Sound(s)
    ensures s.kernel == Interests(s)
  {
    forall n | n in s.fds ensures n in s.kernel <==> n in Interests(s) {
      assert OkAt(s, n);
    }
    forall n | n in s.kernel ensures s.kernel[n] == Interests(s)[n] {
      assert OkAt(s, n);
    }
  }

  /** The operation asks for events on a descriptor that is on no loop. */
  predicate Misused(s: System, op: Op)
    requires op.fd in s.fds
  {
    (op.EnableRead? || op.EnableWrite?) && !s.fds[op.fd].attached
  }

  /** `s` and `t` differ in descriptor `n` alone. */
  ghost predicate OnlyAt(s: System, t: System, n: int) {
    && t.fds.Keys == s.fds.Keys
    && (forall m :: m != n && m in s.fds ==> t.fds[m] == s.fds[m])
    && (forall m :: m != n ==> (m in t.table <==> m in s.table))
    && (forall m :: m != n ==> (m in t.kernel <==> m in s.kernel))
    && (forall m :: m != n && m in s.kernel ==> t.kernel[m] == s.kernel[m])
  }

  lemma SoundAgain(s: System, t: System, n: int)
    requires Sound(s) && OnlyAt(s, t, n) && n in s.fds && OkAt(t, n)
    ensures Sound(t)
  {
    forall m | m in t.fds ensures OkAt(t, m) {
      if m != n { assert OkAt(s, m); }
    }
    forall m | m in t.table ensures m in t.fds { if m != n { assert m in s.table; } }
    forall m | m in t.kernel ensures m in t.fds { if m != n { assert m in s.kernel; } }
  }

  /** Changed events on an attached descriptor always reach the kernel. */
  lemma SetEventsKeeps(s: System, n: int, events: bv8)
    requires Sound(s) && n in s.fds && s.fds[n].attached && (events != 0 || s.fds[n].events != 0)
    ensures SetEvents(s, n, events).Some? && Sound(SetEvents(s, n, events).value)
    ensures SetEvents(s, n, events).value.fds
         == s.fds[n := FdState(true, events, if events != 0 then ADDED else DELETED)]
    ensures OnlyAt(s, SetEvents(s, n, events).value, n)
  {
    assert OkAt(s, n);
    var t := SetEvents(s, n, events).value;
    SoundAgain(s, t, n);
  }

  lemma DetachKeeps(s: System, n: int)
    requires Sound(s) && n in s.fds
    ensures DetachStep(s, n).Some? && Sound(DetachStep(s, n).value)
    ensures DetachStep(s, n).value.fds == s.fds[n := CREATED]
  {
    assert OkAt(s, n);
    if s.fds[n].attached {
      var t := s;
      if s.fds[n].events != 0 {
        SetEventsKeeps(s, n, 0);
        t := SetEvents(s, n, 0).value;
      }
      assert OkAt(t, n);
      var u := DetachStep(s, n).value;
      assert u.fds == s.fds[n := CREATED];
      SoundAgain(t, u, n);
    } else {
      assert s.fds[n := CREATED] == s.fds;
    }
  }

  /** A detach disables everything, leaves the table and lets go of the loop. */
  lemma DetachInTwo(s: System, n: int)
    requires Sound(s) && n in s.fds && s.fds[n].attached
    ensures Step(s, DisableAll(n)).Some?
    ensures var t := Step(s, DisableAll(n)).value;
            && n in t.fds && Remove(t, n).Some? && n in Remove(t, n).value.fds
            && DetachStep(s, n) == Some(Put(Remove(t, n).value, n, Remove(t, n).value.fds[n].(attached := false)))
  {
    DetachKeeps(s, n);
  }

  /** Exactly the misuse above fails; every other step keeps the invariant. */
  lemma StepFailsIff(s: System, op: Op)
    requires Sound(s) && op.fd in s.fds
    ensures Step(s, op).None? <==> Misused(s, op)
    ensures !Misused(s, op) ==> Sound(Step(s, op).value) && Step(s, op).value.fds.Keys == s.fds.Keys
  {
    hide SetEvents, DetachStep, Sound;
    var n := op.fd;
    var f := s.fds[n];
    OkOf(s, n);
    match op
    case Attach(_) =>
      if !f.attached {
        var t := Put(s, n, f.(attached := true));
        SoundAgain(s, t, n);
      }
    case Detach(_) => DetachKeeps(s, n);
    case EnableRead(_) =>
      if f.attached && f.events & READ_EVENT == 0 { SetEventsKeeps(s, n, f.events | READ_EVENT); }
      if !f.attached { NotAttached(s, n, f.events | READ_EVENT); }
    case EnableWrite(_) =>
      if f.attached && f.events & WRITE_EVENT == 0 { SetEventsKeeps(s, n, f.events | WRITE_EVENT); }
      if !f.attached { NotAttached(s, n, f.events | WRITE_EVENT); }
    case DisableRead(_) =>
      if f.events & READ_EVENT != 0 { SetEventsKeeps(s, n, f.events & !READ_EVENT); }
    case DisableWrite(_) =>
      if f.events & WRITE_EVENT != 0 { SetEventsKeeps(s, n, f.events & !WRITE_EVENT); }
    case DisableAll(_) =>
      if f.events != 0 { SetEventsKeeps(s, n, 0); }
  }

  lemma OkOf(s: System, n: int)
    requires Sound(s) && n in s.fds
    ensures OkAt(s, n)
  {
  }

  lemma NotAttached(s: System, n: int, events: bv8)
    requires n in s.fds && !s.fds[n].attached
    ensures SetEvents(s, n, events) == None
  {
  }

  // ---------------------------------------------------------------- runs

  function Start(numbers: set<int>): System {
    System(map n | n in numbers :: CREATED, {}, map[])
  }

  function Run(s: System, ops: seq<Op>): Option<System>
    decreases |ops|
  {
    if ops == [] then Some(s)
    else if ops[0].fd !in s.fds then None
    else match Step(s, ops[0]) case None => None case Some(t) => Run(t, ops[1..])
  }

  /** Events are only enabled on descriptors that are on the loop. */
  predicate WellUsed(s: System, ops: seq<Op>)
    decreases |ops|
  {
    ops == [] ||
    (ops[0].fd in s.fds && !Misused(s, ops[0]) && (Step(s, ops[0]).Some? ==> WellUsed(Step(s, ops[0]).value, ops[1..])))
  }

  /** Over any sequence of operations on any descriptors no assertion of the poller fails and
      the kernel refuses nothing; it watches exactly the attached descriptors that want
      events, for just those; and a descriptor on no loop is as it was created, which is what
      its destructor asserts. */
  lemma {:induction false} KernelMirrors(s: System, ops: seq<Op>)
    requires Sound(s) && WellUsed(s, ops)
    ensures Run(s, ops).Some?
    ensures var t := Run(s, ops).value;
            && t.kernel == Interests(t)
            && (forall n :: n in t.fds ==> (t.fds[n].status == ADDED <==> t.fds[n].events != 0))
            && (forall n :: n in t.fds && !t.fds[n].attached ==> t.fds[n] == CREATED)
    decreases |ops|
  {
    if ops == [] {
      KernelIsInterests(s);
      forall n | n in s.fds ensures OkAt(s, n) { OkOf(s, n); }
    } else {
      StepFailsIff(s, ops[0]);
      KernelMirrors(Step(s, ops[0]).value, ops[1..]);
    }
  }

  lemma StartIsSound(numbers: set<int>)
    ensures Sound(Start(numbers)) && Start(numbers).fds.Keys == numbers
  {
    assert Start(numbers).fds.Keys == numbers;
  }

  // ---------------------------------------------------------------- what is watched

  /** Whether reading of descriptor `n` is wanted after `op`: the last call about it decides. */
  function Reading(was: bool, op: Op, n: int): bool {
    match op
    case EnableRead(m) => m == n || was
    case DisableRead(m) => m != n && was
    case DisableAll(m) => m != n && was
    case Detach(m) => m != n && was
    case _ => was
  }

  function Writing(was: bool, op: Op, n: int): bool {
    match op
    case EnableWrite(m) => m == n || was
    case DisableWrite(m) => m != n && was
    case DisableAll(m) => m != n && was
    case Detach(m) => m != n && was
    case _ => was
  }

  function ReadsAfter(was: bool, ops: seq<Op>, n: int): bool
    decreases |ops|
  {
    if ops == [] then was else ReadsAfter(Reading(was, ops[0], n), ops[1..], n)
  }

  function WritesAfter(was: bool, ops: seq<Op>, n: int): bool
    decreases |ops|
  {
    if ops == [] then was else WritesAfter(Writing(was, ops[0], n), ops[1..], n)
  }

  /** The mask of a descriptor that wants these. */
  function Mask(read: bool, write: bool): bv8 {
    if read then (if write then 7 else 3) else if write then 4 else 0
  }

  /** The bits that a call changes are its own. */
  lemma MaskBits(r: bool, w: bool)
    ensures var e := Mask(r, w);
            && (e & READ_EVENT != 0 <==> r) && (e & WRITE_EVENT != 0 <==> w) && (e != 0 <==> r || w)
            && e | READ_EVENT == Mask(true, w) && e | WRITE_EVENT == Mask(r, true)
            && e & !READ_EVENT == Mask(false, w) && e & !WRITE_EVENT == Mask(r, false)
  {
  }

  lemma StepWants(s: System, op: Op, n: int, r: bool, w: bool)
    requires Sound(s) && op.fd in s.fds && !Misused(s, op) && n in s.fds && s.fds[n].events == Mask(r, w)
    ensures Step(s, op).Some? && n in Step(s, op).value.fds
    ensures Step(s, op).value.fds[n].events == Mask(Reading(r, op, n), Writing(w, op, n))
  {
    hide SetEvents, DetachStep, Sound, Mask;
    StepFailsIff(s, op);
    MaskBits(r, w);
    OkOf(s, op.fd);
    var f := s.fds[op.fd];
    match op
    case Attach(_) =>
    case Detach(_) => DetachKeeps(s, op.fd); NoMask();
    case EnableRead(_) => ChangeWants(s, op.fd, f.events | READ_EVENT, n);
    case EnableWrite(_) => ChangeWants(s, op.fd, f.events | WRITE_EVENT, n);
    case DisableRead(_) => ChangeWants(s, op.fd, f.events & !READ_EVENT, n);
    case DisableWrite(_) => ChangeWants(s, op.fd, f.events & !WRITE_EVENT, n);
    case DisableAll(_) => ChangeWants(s, op.fd, 0, n); NoMask();
  }

  lemma NoMask()
    ensures Mask(false, false) == 0
  {
  }

  lemma ChangeWants(s: System, m: int, events: bv8, n: int)
    requires Sound(s) && m in s.fds && n in s.fds
    ensures s.fds[m].attached && (events != 0 || s.fds[m].events != 0) ==>
              && SetEvents(s, m, events).Some? && n in SetEvents(s, m, events).value.fds
              && SetEvents(s, m, events).value.fds[n].events == if n == m then events else s.fds[n].events
  {
    hide SetEvents, Sound;
    if s.fds[m].attached && (events != 0 || s.fds[m].events != 0) { SetEventsKeeps(s, m, events); }
  }

  /** Over any sequence of operations without that misuse, the kernel watches a descriptor for
      reading (and priority data) exactly when the last call about its reading enabled it, for
      writing likewise, and for nothing else. */
  lemma {:induction false} WatchedAsAsked(s: System, ops: seq<Op>, n: int, r: bool, w: bool)
    requires Sound(s) && WellUsed(s, ops) && n in s.fds && s.fds[n].events == Mask(r, w)
    ensures Run(s, ops).Some? && n in Run(s, ops).value.fds
    ensures var t := Run(s, ops).value; var mask := Mask(ReadsAfter(r, ops, n), WritesAfter(w, ops, n));
            && t.fds[n].events == mask
            && (n in t.kernel <==> mask != 0) && (n in t.kernel ==> t.kernel[n] == mask)
    decreases |ops|
  {
    if ops == [] {
      OkOf(s, n);
    } else {
      hide Step, Sound, Mask;
      StepFailsIff(s, ops[0]);
      StepWants(s, ops[0], n, r, w);
      WatchedAsAsked(Step(s, ops[0]).value, ops[1..], n, Reading(r, ops[0], n), Writing(w, ops[0], n));
    }
  }
}
