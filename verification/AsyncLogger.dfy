/** The asynchronous logger with its buffers as objects. `append` and each stretch of
    `threadFunc` between two points where the lock is taken or released is a method; any
    interleaving of threads is some order of calls of these methods. */
module AsyncLogger {
  import opened Wire
  import opened Streams
  import opened LogRuns

  class FixedBuffer {
    const data: array<Byte>
    var curr: nat
    /** The lines that were copied in since the last reset. */
    ghost var lines: seq<Line>

    ghost predicate Valid()
      reads `curr, `lines, data
    {
      data.Length == SIZE && curr <= SIZE && data[..curr] == Concat(lines)
    }

    constructor ()
      ensures Valid() && fresh(data) && lines == []
    {
      data := new Byte[SIZE];
      curr, lines := 0, [];
    }

    function Length(): nat
      reads `curr
    {
      curr
    }

    function Room(): int
      reads `curr
    {
      data.Length - curr
    }

    method Append(line: Bytes)
      requires Valid()
      modifies `curr, `lines, data
      ensures Valid() && lines == Copied(old(lines), line)
    {
      if Room() > |line| {
        forall i | 0 <= i < |line| {
          data[curr + i] := line[i];
        }
        curr := curr + |line|;
        ConcatOne(lines, line);
        lines := lines + [line];
      }
    }

    method Reset()
      requires Valid()
      modifies `curr, `lines
      ensures Valid() && lines == []
    {
      curr, lines := 0, [];
    }
  }

  ghost predicate Distinct(bs: seq<FixedBuffer>) {
    forall i, j :: 0 <= i < j < |bs| ==> bs[i] != bs[j]
  }

  /** Every buffer is sound and has its own bytes. */
  ghost predicate Separate(pool: set<FixedBuffer>)
    reads pool`curr, pool`lines, set b | b in pool :: b.data
  {
    && (forall b :: b in pool ==> b.Valid())
    && (forall b, c :: b in pool && c in pool && b != c ==> b.data != c.data)
  }

  /** These buffers are in the pool. */
  ghost predicate Within(bs: seq<FixedBuffer>, pool: set<FixedBuffer>) {
    forall b :: b in bs ==> b in pool
  }

  lemma WithinMore(bs: seq<FixedBuffer>, pool: set<FixedBuffer>, b: FixedBuffer, more: set<FixedBuffer>)
    requires Within(bs, pool) && b in pool && pool <= more
    ensures Within(bs, more) && Within(bs + [b], more)
  {
  }

  /** No buffer is in two places, except that while the writer is writing its spare buffer is
      also the last of those it writes. */
  ghost predicate Apart(curr: FixedBuffer, empty: FixedBuffer, buffers: seq<FixedBuffer>, writing: seq<FixedBuffer>,
                        phase: Phase)
  {
    && Distinct(buffers) && curr !in buffers && empty !in buffers
    && curr != empty && curr !in writing
    && (forall b :: b in buffers ==> b !in writing)
    && Distinct(writing)
    && (phase == Writing ==> writing != [] && empty == writing[|writing| - 1])
    && (phase != Writing ==> writing == [])
  }

  /** A buffer from outside the pool becomes the current one. */
  lemma ApartPushed(curr: FixedBuffer, empty: FixedBuffer, buffers: seq<FixedBuffer>, writing: seq<FixedBuffer>,
                    phase: Phase, pool: set<FixedBuffer>, b: FixedBuffer)
    requires Apart(curr, empty, buffers, writing, phase) && b !in pool
    requires curr in pool && empty in pool && Within(buffers, pool) && Within(writing, pool)
    ensures Apart(b, empty, buffers + [curr], writing, phase)
  {
  }

  lemma ApartTaken(curr: FixedBuffer, empty: FixedBuffer, buffers: seq<FixedBuffer>, writing: seq<FixedBuffer>,
                   phase: Phase)
    requires Apart(curr, empty, buffers, writing, phase) && phase != Writing
    ensures writing == [] && Apart(empty, curr, [], buffers + [curr], Writing) && empty !in buffers + [curr]
  {
  }

  lemma ApartFinished(curr: FixedBuffer, empty: FixedBuffer, buffers: seq<FixedBuffer>, writing: seq<FixedBuffer>,
                      phase: Phase)
    requires Apart(curr, empty, buffers, writing, Writing) && phase != Writing
    ensures Apart(curr, empty, buffers, [], phase) && empty !in buffers && empty != curr
  {
  }

  /** The buffers from place `from` on hold these lists of lines. */
  ghost predicate Hold(bs: seq<FixedBuffer>, from: nat, lists: seq<seq<Line>>)
    reads bs`lines
  {
    |bs| == from + |lists| && forall k :: from <= k < |bs| ==> bs[k].lines == lists[k - from]
  }

  lemma HoldMore(bs: seq<FixedBuffer>, lists: seq<seq<Line>>, b: FixedBuffer)
    requires Hold(bs, 0, lists)
    ensures Hold(bs + [b], 0, lists + [b.lines])
  {
  }

  lemma NoneHeld(pool: set<FixedBuffer>)
    ensures Hold([], 0, []) && Within([], pool)
  {
  }

  lemma HoldLess(bs: seq<FixedBuffer>, from: nat, lists: seq<seq<Line>>)
    requires Hold(bs, from, lists) && lists != []
    ensures bs[from].lines == lists[0] && Hold(bs, from + 1, lists[1..])
  {
  }

  class AsyncLogger {
    var running: bool
    var currBuffer: FixedBuffer
    var buffers: seq<FixedBuffer>
    var file: Bytes
    /** Locals of the writer thread. */
    var emptyBuffer: FixedBuffer
    var writeBuffers: seq<FixedBuffer>
    var written: nat
    ghost var view: Logger
    ghost var pool: set<FixedBuffer>

    ghost predicate Pooled()
      reads this
    {
      currBuffer in pool && emptyBuffer in pool && Within(buffers, pool) && Within(writeBuffers, pool)
    }

    ghost predicate Unaliased()
      reads this
    {
      Apart(currBuffer, emptyBuffer, buffers, writeBuffers, view.phase)
    }

    ghost predicate Contained()
      reads this, pool`lines
      requires Pooled()
    {
      && Hold(writeBuffers, written, view.inflight)
      && Hold(buffers, 0, view.queued) && currBuffer.lines == view.current
      && (view.phase != Writing ==> emptyBuffer.lines == [])
      && running == view.running && file == Concat(view.file)
    }

    ghost predicate Valid()
      reads this, pool`curr, pool`lines, set b | b in pool :: b.data
    {
      Separate(pool) && Pooled() && Unaliased() && Contained() && Sound(view)
    }

    constructor ()
      ensures Valid() && view == STARTED && fresh(pool)
    {
      hide FixedBuffer.Valid;
      var c := new FixedBuffer();
      var e := new FixedBuffer();
      running, currBuffer, buffers, file := true, c, [], [];
      emptyBuffer, writeBuffers, written, view, pool := e, [], 0, STARTED, {c, e};
      new;
      NoneHeld(pool);
      assert Separate(pool) && Apart(c, e, [], [], Testing);
      hide Separate, Within, Apart, Hold, Distinct;
    }

    method NewBuffer() returns (b: FixedBuffer)
      requires Separate(pool)
      modifies `pool
      ensures fresh(b) && fresh(b.data) && b.lines == []
      ensures pool == old(pool) + {b} && Separate(pool)
    {
      hide FixedBuffer.Valid;
      b := new FixedBuffer();
      pool := pool + {b};
    }

    lemma CanPush()
      requires Valid()
      ensures Sound(Pushed(view)) && Within(buffers + [currBuffer], pool)
      ensures Hold(buffers + [currBuffer], 0, Pushed(view).queued)
    {
      hide Distinct, Apart, Separate;
      PushKeeps(view);
      WithinMore(buffers, pool, currBuffer, pool);
      HoldMore(buffers, view.queued, currBuffer);
    }

    /** The current buffer joins the full ones, and a new one takes its place. */
    method Push()
      requires Valid()
      modifies `currBuffer, `buffers, `view, `pool
      ensures Valid() && view == Pushed(old(view))
      ensures fresh(currBuffer) && fresh(currBuffer.data)
    {
      hide Sound, Everything, Concat, Distinct, Hold, Separate, Within, Apart;
      CanPush();
      var b := NewBuffer();
      ApartPushed(currBuffer, emptyBuffer, buffers, writeBuffers, view.phase, old(pool), b);
      WithinMore(buffers, old(pool), currBuffer, pool);
      WithinMore(writeBuffers, old(pool), currBuffer, pool);
      buffers, currBuffer, view := buffers + [currBuffer], b, Pushed(view);
    }

    method Copy(line: Line)
      requires Valid()
      modifies `view, currBuffer, currBuffer.data
      ensures Valid() && view == old(view).(current := Copied(old(view.current), line))
    {
      CopyKeeps(view, line);
      hide Sound, Everything, Concat, Copied, Distinct;
      view := view.(current := Copied(view.current, line));
      currBuffer.Append(line);
    }

    /** `append`, with the lock held throughout. */
    method Append(line: Line)
      requires Valid()
      modifies `currBuffer, `buffers, `view, `pool, currBuffer, currBuffer.data
      ensures Valid() && view == AppendStep(old(view), line)
    {
      if currBuffer.Room() <= |line| {
        Push();
      }
      hide Unaliased, Contained, Pooled, Separate, Sound, Copied;
      Copy(line);
    }

    /** The test of the writer's loop; past it the thread waits for buffers, with the lock
        released, and goes on when woken or when the interval is over. */
    method Test()
      requires Valid() && Possible(view, Event.Test)
      modifies `view
      ensures Valid() && view == Step(old(view), Event.Test)
    {
      hide Concat, Distinct, Hold, Separate, Within;
      view := Step(view, Event.Test);
    }

    /** The swap at the end of the wait, with the lock held. The buffer that becomes the current
        one is empty, and nobody else has it. */
    method Take()
      requires Valid() && Possible(view, Event.Take)
      modifies `currBuffer, `buffers, `emptyBuffer, `writeBuffers, `written, `view
      ensures Valid() && view == Step(old(view), Event.Take)
      ensures currBuffer == old(emptyBuffer) && currBuffer.lines == []
      ensures currBuffer !in writeBuffers + buffers
    {
      hide Sound, Everything, Concat, Distinct, Hold, Separate, Within, Apart;
      TakeKeeps(view);
      ApartTaken(currBuffer, emptyBuffer, buffers, writeBuffers, view.phase);
      WithinMore(buffers, pool, currBuffer, pool);
      HoldMore(buffers, view.queued, currBuffer);
      NoneHeld(pool);
      view := Step(view, Event.Take);
      writeBuffers, buffers := buffers, [];
      writeBuffers := writeBuffers + [currBuffer];
      currBuffer, emptyBuffer := emptyBuffer, currBuffer;
      written := 0;
    }

    /** The buffer the writer comes to next holds the bytes that are next in the file. */
    lemma NextToWrite()
      requires Valid() && Possible(view, Event.Write)
      ensures written < |writeBuffers| && Sound(Step(view, Event.Write))
      ensures var b := writeBuffers[written];
              b.curr <= b.data.Length
              && Concat(view.file + view.inflight[0]) == Concat(view.file) + b.data[..b.curr]
      ensures Hold(writeBuffers, written + 1, view.inflight[1..])
    {
      hide Distinct, Apart;
      WriteKeeps(view);
      ConcatTwo(view.file, view.inflight[0]);
      HoldLess(writeBuffers, written, view.inflight);
      assert writeBuffers[written] in pool;
    }

    /** One turn of the writing loop. */
    method Write()
      requires Valid() && Possible(view, Event.Write)
      modifies `file, `written, `view
      ensures Valid() && view == Step(old(view), Event.Write)
    {
      hide Sound, Everything, Concat, Distinct, Hold, Separate, Within, Apart;
      NextToWrite();
      var b := writeBuffers[written];
      file := file + b.data[..b.Length()];
      written := written + 1;
      view := Step(view, Event.Write);
    }

    method EmptySpare()
      requires Separate(pool) && emptyBuffer in pool && Hold(buffers, 0, view.queued)
      requires emptyBuffer !in buffers && emptyBuffer != currBuffer
      modifies emptyBuffer`curr, emptyBuffer`lines
      ensures Separate(pool) && Hold(buffers, 0, view.queued)
      ensures emptyBuffer.lines == [] && currBuffer.lines == old(currBuffer.lines)
    {
      hide Concat;
      emptyBuffer.Reset();
    }

    /** The spare buffer, still the last of those written, is emptied before they are let go. */
    method Finish()
      requires Valid() && Possible(view, Event.Finish)
      modifies `writeBuffers, `written, `view, emptyBuffer
      ensures Valid() && view == Step(old(view), Event.Finish)
    {
      hide Sound, Everything, Concat, Distinct, Hold, Separate, Within, Apart;
      PhaseKeeps(view, Event.Finish);
      ApartFinished(currBuffer, emptyBuffer, buffers, writeBuffers, Testing);
      NoneHeld(pool);
      EmptySpare();
      writeBuffers, written := [], 0;
      view := Step(view, Event.Finish);
    }

    method Stop()
      requires Valid()
      modifies `running, `view
      ensures Valid() && view == Step(old(view), Event.Stop)
    {
      hide Sound, Everything, Concat, Distinct, Hold, Separate, Within, Apart;
      PhaseKeeps(view, Event.Stop);
      running := false;
      view := Step(view, Event.Stop);
    }
  }
}
