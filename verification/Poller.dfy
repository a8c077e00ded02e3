/** Descriptors and poller as objects. The assertions are those of the code, and each of the
    calls of `epoll_ctl` has as its precondition that the kernel accepts it. */
module Poller {
  import opened PollerRuns

  class IOFd {
    const fd: int
    var events: bv8
    var status: Status
    var looper: EPollPoller?

    constructor (fd: int)
      ensures this.fd == fd && events == 0 && status == NEW && looper == null
    {
      this.fd, events, status, looper := fd, 0, NEW, null;
    }

    function State(): FdState
      reads this
    {
      FdState(looper != null, events, status)
    }

    predicate IsReading()
      reads `events
    {
      events & READ_EVENT != 0
    }

    predicate IsWriting()
      reads `events
    {
      events & WRITE_EVENT != 0
    }

    /** New events, and `update`. */
    method SetEvents(to: bv8)
      requires looper != null && looper.Mirrors() && this in looper.pool
      requires PollerRuns.SetEvents(looper.view, fd, to).Some?
      modifies `events, `status, looper`fds, looper`kernel, looper`view
      ensures looper.Mirrors() && looper.view == PollerRuns.SetEvents(old(looper.view), fd, to).value
    {
      events := to;
      looper.view := Put(looper.view, fd, looper.view.fds[fd].(events := to));
      looper.UpdateFd(this);
    }

    method EnableReadInLoop()
      requires looper != null && looper.Valid() && this in looper.pool
      modifies `events, `status, looper`fds, looper`kernel, looper`view
      ensures looper.Valid() && Step(old(looper.view), EnableRead(fd)) == Some(looper.view)
    {
      StepFailsIff(looper.view, EnableRead(fd));
      hide Sound, PollerRuns.SetEvents;
      if !IsReading() {
        SetEvents(events | READ_EVENT);
      }
    }

    method EnableWriteInLoop()
      requires looper != null && looper.Valid() && this in looper.pool
      modifies `events, `status, looper`fds, looper`kernel, looper`view
      ensures looper.Valid() && Step(old(looper.view), EnableWrite(fd)) == Some(looper.view)
    {
      StepFailsIff(looper.view, EnableWrite(fd));
      hide Sound, PollerRuns.SetEvents;
      if !IsWriting() {
        SetEvents(events | WRITE_EVENT);
      }
    }

    method DisableReadInLoop()
      requires looper != null && looper.Valid() && this in looper.pool
      modifies `events, `status, looper`fds, looper`kernel, looper`view
      ensures looper.Valid() && Step(old(looper.view), DisableRead(fd)) == Some(looper.view)
    {
      StepFailsIff(looper.view, DisableRead(fd));
      hide Sound, PollerRuns.SetEvents;
      if IsReading() {
        SetEvents(events & !READ_EVENT);
      }
    }

    method DisableWriteInLoop()
      requires looper != null && looper.Valid() && this in looper.pool
      modifies `events, `status, looper`fds, looper`kernel, looper`view
      ensures looper.Valid() && Step(old(looper.view), DisableWrite(fd)) == Some(looper.view)
    {
      StepFailsIff(looper.view, DisableWrite(fd));
      hide Sound, PollerRuns.SetEvents;
      if IsWriting() {
        SetEvents(events & !WRITE_EVENT);
      }
    }

    method DisableAllInLoop()
      requires looper != null && looper.Valid() && this in looper.pool
      modifies `events, `status, looper`fds, looper`kernel, looper`view
      ensures looper.Valid() && Step(old(looper.view), DisableAll(fd)) == Some(looper.view)
    {
      StepFailsIff(looper.view, DisableAll(fd));
      hide Sound, PollerRuns.SetEvents;
      if events != 0 {
        SetEvents(0);
      }
    }

    /** A descriptor on no loop wants no events, so there is never anything to pass on. */
    method AttachInLoop(poller: EPollPoller)
      requires poller.Valid() && this in poller.pool
      modifies `looper, `status, poller`fds, poller`kernel, poller`view
      ensures poller.Valid() && Step(old(poller.view), Attach(fd)) == Some(poller.view) && looper == poller
    {
      StepFailsIff(poller.view, Attach(fd));
      OkOf(poller.view, fd);
      hide Sound;
      if poller == looper { return; }
      looper := poller;
      poller.view := Put(poller.view, fd, poller.view.fds[fd].(attached := true));
      if events != 0 {
        assert false;
      }
    }

    /** The assertions of the destructor hold after a detach. */
    method DetachInLoop(poller: EPollPoller) returns (detached: bool)
      requires poller.Valid() && this in poller.pool
      modifies this, poller`fds, poller`kernel, poller`view
      ensures poller.Valid() && Step(old(poller.view), Detach(fd)) == Some(poller.view)
      ensures detached == (old(looper) != null)
      ensures looper == null && events == 0 && status != ADDED
    {
      ghost var s := poller.view;
      DetachKeeps(s, fd);
      OkOf(s, fd);
      if looper != null {
        DetachInTwo(s, fd);
        hide Sound, PollerRuns.SetEvents, DetachStep, Remove;
        DisableAllInLoop();
        poller.RemoveFd(this);
        Leave(poller);
        detached := true;
      } else {
        detached := false;
      }
    }

    method Leave(poller: EPollPoller)
      requires poller.Mirrors() && this in poller.pool
      modifies `looper, poller`view
      ensures poller.Mirrors() && looper == null
      ensures poller.view == Put(old(poller.view), fd, old(poller.view).fds[fd].(attached := false))
    {
      looper := null;
      poller.view := Put(poller.view, fd, poller.view.fds[fd].(attached := false));
    }
  }

  class EPollPoller {
    var fds: map<int, IOFd>
    ghost var kernel: map<int, bv8>
    ghost var view: System
    /** Every descriptor there is. */
    ghost const pool: set<IOFd>

    /** The descriptors, which have distinct numbers, are as `view` has them. */
    ghost predicate Mirrors()
      reads this, pool
    {
      && (forall f :: f in pool ==> f.fd in view.fds && view.fds[f.fd] == f.State())
      && (forall f :: f in pool ==> f.looper == null || f.looper == this)
      && (forall f, g :: f in pool && g in pool && f.fd == g.fd ==> f == g)
      && fds.Keys == view.table && kernel == view.kernel
      && (forall n :: n in fds ==> fds[n] in pool && fds[n].fd == n)
    }

    ghost predicate Valid()
      reads this, pool
    {
      Mirrors() && Sound(view)
    }

    constructor (ghost pool: set<IOFd>)
      requires forall f :: f in pool ==> f.State() == CREATED
      requires forall f, g :: f in pool && g in pool && f.fd == g.fd ==> f == g
      ensures Valid() && this.pool == pool && view == Start(set f | f in pool :: f.fd)
    {
      fds, kernel, view := map[], map[], Start(set f | f in pool :: f.fd);
      this.pool := pool;
      StartIsSound(set f | f in pool :: f.fd);
    }

    predicate HasFd(w: IOFd)
      reads `fds
    {
      w.fd in fds && fds[w.fd] == w
    }

    ghost method ControlAdd(w: IOFd)
      requires w.fd !in kernel
      modifies `kernel
      ensures kernel == old(kernel)[w.fd := w.events]
    {
      kernel := kernel[w.fd := w.events];
    }

    ghost method ControlMod(w: IOFd)
      requires w.fd in kernel
      modifies `kernel
      ensures kernel == old(kernel)[w.fd := w.events]
    {
      kernel := kernel[w.fd := w.events];
    }

    ghost method ControlDel(w: IOFd)
      requires w.fd in kernel
      modifies `kernel
      ensures kernel == old(kernel) - {w.fd}
    {
      kernel := kernel - {w.fd};
    }

    method UpdateFd(w: IOFd)
      requires Mirrors() && w in pool && Update(view, w.fd).Some?
      modifies `fds, `kernel, `view, w`status
      ensures Mirrors() && view == Update(old(view), w.fd).value
    {
      view := Update(view, w.fd).value;
      if w.status == NEW {
        assert w.fd !in fds;
        w.status := ADDED;
        fds := fds[w.fd := w];
        ControlAdd(w);
      } else if w.status == DELETED {
        assert HasFd(w);
        w.status := ADDED;
        ControlAdd(w);
      } else {
        assert HasFd(w);
        if w.events == 0 {
          ControlDel(w);
          w.status := DELETED;
        } else {
          ControlMod(w);
        }
      }
    }

    method RemoveFd(w: IOFd)
      requires Mirrors() && w in pool && Remove(view, w.fd).Some?
      modifies `fds, `kernel, `view, w`status
      ensures Mirrors() && view == Remove(old(view), w.fd).value
    {
      if !HasFd(w) { return; }
      assert w.events == 0;
      assert w.status == ADDED || w.status == DELETED;
      view := Remove(view, w.fd).value;
      fds := fds - {w.fd};
      if w.status == ADDED {
        ControlDel(w);
      }
      w.status := NEW;
    }
  }
}
