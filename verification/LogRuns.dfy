/** The asynchronous logger of `src/base/AsyncLogger.cpp` as steps that the lock or the thread
    makes atomic. A buffer is the list of lines that were copied into it. */
module LogRuns {
  import opened Wire
  import opened Streams

  const SIZE: nat := 128 * 1024

  type Line = Bytes

  /** Where the writer thread is: at the test of its loop, past the test and before or in the
      wait, writing, or out of the loop. */
  datatype Phase = Testing | Ready | Writing | Exited

  /** `file` is what has been written, `inflight` the buffers the writer has taken and not yet
      written, `queued` the full buffers and `current` the one lines are appended to. */
  datatype Logger = Logger(
    running: bool, phase: Phase,
    file: seq<Line>, inflight: seq<seq<Line>>, queued: seq<seq<Line>>, current: seq<Line>)

  const STARTED := Logger(true, Testing, [], [], [], [])

  datatype Event = Append(line: Line) | Test | Take | Write | Finish | Stop

  function Avail(b: seq<Line>): int {
    SIZE - |Concat(b)|
  }

  /** `FixedBuffer::append`: a line that does not fit is ignored. */
  function Copied(b: seq<Line>, line: Line): seq<Line> {
    if Avail(b) > |line| then b + [line] else b
  }

  /** The current buffer joins the full ones. */
  function Pushed(s: Logger): Logger {
    s.(queued := s.queued + [s.current], current := [])
  }

  /** `append`, under the lock. */
  function AppendStep(s: Logger, line: Line): Logger {
    var t := if Avail(s.current) <= |line| then Pushed(s) else s;
    t.(current := Copied(t.current, line))
  }

  /** A line starts a new buffer exactly when the current one has no room for it and a byte more;
      it is then in the new one, unless it is too long for any. */
  lemma AppendRotatesIff(s: Logger, line: Line)
    ensures var t := AppendStep(s, line);
            if |Concat(s.current)| + |line| < SIZE then t == s.(current := s.current + [line])
            else t == s.(queued := s.queued + [s.current], current := if |line| < SIZE then [line] else [])
  {
    assert Concat([]) == [];
  }

  /** Which steps the writer thread can take; `append` and `stop` are always possible. */
  predicate Possible(s: Logger, e: Event) {
    match e
    case Append(_) => true
    case Stop => true
    case Test => s.phase == Testing
    case Take => s.phase == Ready
    case Write => s.phase == Writing && s.inflight != []
    case Finish => s.phase == Writing && s.inflight == []
  }

  function Step(s: Logger, e: Event): Logger
    requires Possible(s, e)
  {
    match e
    case Append(line) => AppendStep(s, line)
    case Stop => s.(running := false)
    case Test => s.(phase := if s.running then Ready else Exited)
    case Take => s.(phase := Writing, inflight := s.queued + [s.current], queued := [], current := [])
    case Write => s.(file := s.file + s.inflight[0], inflight := s.inflight[1..])
    case Finish => s.(phase := Testing)
  }

  predicate PossibleRun(s: Logger, es: seq<Event>)
    decreases |es|, 0
  {
    es == [] || (PossibleRun(s, es[..|es| - 1]) && Possible(Run(s, es[..|es| - 1]), es[|es| - 1]))
  }

  function Run(s: Logger, es: seq<Event>): Logger
    requires PossibleRun(s, es)
    decreases |es|, 1
  {
    if es == [] then s else Step(Run(s, es[..|es| - 1]), es[|es| - 1])
  }

  // ---------------------------------------------------------------- nothing lost, doubled or split

  function Flatten(bs: seq<seq<Line>>): seq<Line> {
    if bs == [] then [] else bs[0] + Flatten(bs[1..])
  }

  lemma {:induction false} FlattenMore(bs: seq<seq<Line>>, b: seq<Line>)
    ensures Flatten(bs + [b]) == Flatten(bs) + b
  {
    if bs == [] {
      assert [b][1..] == [];
    } else {
      assert (bs + [b])[1..] == bs[1..] + [b];
      FlattenMore(bs[1..], b);
    }
  }

  /** Every line from the first in the file to the last in the current buffer. */
  function Everything(s: Logger): seq<Line> {
    s.file + Flatten(s.inflight) + Flatten(s.queued) + s.current
  }

  /** An `append` of a line that fits a buffer. */
  predicate Keeps(e: Event) {
    e.Append? && |e.line| < SIZE
  }

  /** The lines given to `append`, in lock order, without those too long for any buffer. */
  function Kept(es: seq<Event>): seq<Line> {
    if es == [] then []
    else
      var e := es[|es| - 1];
      Kept(es[..|es| - 1]) + (if Keeps(e) then [e.line] else [])
  }

  /** No buffer is overfull, and the writer holds buffers only while it writes. */
  predicate Sound(s: Logger) {
    && |Concat(s.current)| < SIZE
    && (forall i :: 0 <= i < |s.queued| ==> |Concat(s.queued[i])| < SIZE)
    && (forall i :: 0 <= i < |s.inflight| ==> |Concat(s.inflight[i])| < SIZE)
    && (s.phase != Writing ==> s.inflight == [])
  }

  lemma PushKeeps(s: Logger)
    requires Sound(s)
    ensures Sound(Pushed(s)) && Everything(Pushed(s)) == Everything(s)
  {
    FlattenMore(s.queued, s.current);
    SoundQueue(s.queued, s.current);
  }

  lemma CopyKeeps(s: Logger, line: Line)
    requires Sound(s)
    ensures Sound(s.(current := Copied(s.current, line)))
    ensures Everything(s.(current := Copied(s.current, line)))
         == Everything(s) + (if Avail(s.current) > |line| then [line] else [])
  {
    ConcatOne(s.current, line);
    assert Everything(s) + [line] == Everything(s.(current := s.current + [line]));
    assert Everything(s) + [] == Everything(s);
  }

  lemma AppendKeeps(s: Logger, line: Line)
    requires Sound(s)
    ensures Sound(AppendStep(s, line))
    ensures Everything(AppendStep(s, line)) == Everything(s) + (if |line| < SIZE then [line] else [])
  {
    var t := if Avail(s.current) <= |line| then Pushed(s) else s;
    PushKeeps(s);
    CopyKeeps(t, line);
  }

  lemma SoundQueue(q: seq<seq<Line>>, b: seq<Line>)
    requires (forall i :: 0 <= i < |q| ==> |Concat(q[i])| < SIZE) && |Concat(b)| < SIZE
    ensures forall i :: 0 <= i < |q + [b]| ==> |Concat((q + [b])[i])| < SIZE
  {
  }

  lemma TakeKeeps(s: Logger)
    requires Sound(s) && Possible(s, Event.Take)
    ensures Sound(Step(s, Event.Take)) && Everything(Step(s, Event.Take)) == Everything(s)
  {
    SoundQueue(s.queued, s.current);
    FlattenMore(s.queued, s.current);
  }

  lemma WriteKeeps(s: Logger)
    requires Sound(s) && Possible(s, Event.Write)
    ensures Sound(Step(s, Event.Write)) && Everything(Step(s, Event.Write)) == Everything(s)
  {
    assert s.file + Flatten(s.inflight) == (s.file + s.inflight[0]) + Flatten(s.inflight[1..]);
  }

  lemma PhaseKeeps(s: Logger, e: Event)
    requires Sound(s) && Possible(s, e) && (e.Stop? || e.Test? || e.Finish?)
    ensures Sound(Step(s, e)) && Everything(Step(s, e)) == Everything(s)
  {
  }

  lemma StepKeeps(s: Logger, e: Event)
    requires Sound(s) && Possible(s, e)
    ensures Sound(Step(s, e))
    ensures Everything(Step(s, e)) == Everything(s) + (if Keeps(e) then [e.line] else [])
  {
    hide Sound, Everything;
    assert Everything(s) + [] == Everything(s);
    match e
    case Append(line) => AppendKeeps(s, line);
    case Take => TakeKeeps(s);
    case Write => WriteKeeps(s);
    case _ => PhaseKeeps(s, e);
  }

  /** In every interleaving of any number of appending threads with the writer: the file, the
      buffers being written, the full buffers and the current one hold exactly the lines given
      to `append`, whole, once and in the order of the lock. */
  lemma {:induction false} NothingLost(es: seq<Event>)
    requires PossibleRun(STARTED, es)
    ensures Sound(Run(STARTED, es))
    ensures Everything(Run(STARTED, es)) == Kept(es)
  {
    if es == [] {
    } else {
      var before := es[..|es| - 1];
      NothingLost(before);
      StepKeeps(Run(STARTED, before), es[|es| - 1]);
    }
  }

  /** The file holds the first lines, none of them cut. */
  lemma FileIsPrefix(es: seq<Event>)
    requires PossibleRun(STARTED, es)
    ensures Run(STARTED, es).file <= Kept(es)
  {
    NothingLost(es);
    var s := Run(STARTED, es);
    assert Everything(s)[..|s.file|] == s.file;
  }

  // ---------------------------------------------------------------- how far the file is

  predicate Appends(es: seq<Event>) {
    forall i :: 0 <= i < |es| ==> es[i].Append? || es[i].Write? || es[i].Stop?
  }

  /** Until the round is finished, the file and what is in flight do not change together. */
  lemma {:induction false} RoundKeeps(s: Logger, es: seq<Event>)
    requires Sound(s) && s.phase == Writing && PossibleRun(s, es) && Appends(es)
    ensures var t := Run(s, es);
            t.phase == Writing && t.file + Flatten(t.inflight) == s.file + Flatten(s.inflight)
  {
    if es == [] {
    } else {
      var before := es[..|es| - 1];
      RoundKeeps(s, before);
      var t := Run(s, before);
      var e := es[|es| - 1];
      assert e.Append? || e.Write? || e.Stop?;
      if e.Write? {
        assert t.file + Flatten(t.inflight) == (t.file + t.inflight[0]) + Flatten(t.inflight[1..]);
      }
    }
  }

  /** When the writer finishes a round, every line that was appended before it took the buffers
      is in the file, and only those. */
  lemma RoundIsDurable(before: seq<Event>, s: Logger, es: seq<Event>)
    requires PossibleRun(STARTED, before) && s == Run(STARTED, before) && Possible(s, Take)
    requires PossibleRun(Step(s, Take), es) && Appends(es) && Possible(Run(Step(s, Take), es), Finish)
    ensures Run(Step(s, Take), es).file == Kept(before)
  {
    NothingLost(before);
    StepKeeps(s, Take);
    var t := Step(s, Take);
    RoundKeeps(t, es);
    var u := Run(t, es);
    assert u.file + [] == u.file;
    assert Everything(t) == t.file + Flatten(t.inflight);
  }

  /** The lines kept since the writer last took the buffers, or since the start. */
  function Tail(es: seq<Event>): seq<Line> {
    if es == [] || es[|es| - 1].Take? then []
    else Tail(es[..|es| - 1]) + (if Keeps(es[|es| - 1]) then [es[|es| - 1].line] else [])
  }

  /** What the writer has not taken yet. */
  function Untaken(s: Logger): seq<Line> {
    Flatten(s.queued) + s.current
  }

  lemma AppendGrowsUntaken(s: Logger, line: Line)
    requires Sound(s)
    ensures Untaken(AppendStep(s, line)) == Untaken(s) + (if |line| < SIZE then [line] else [])
  {
    var t := if Avail(s.current) <= |line| then Pushed(s) else s;
    FlattenMore(s.queued, s.current);
    assert Untaken(t) == Untaken(s);
    assert Flatten(t.queued) + (t.current + [line]) == Untaken(t) + [line];
    assert Untaken(t) + [] == Untaken(t);
  }

  lemma {:induction false} UntakenIsTail(es: seq<Event>)
    requires PossibleRun(STARTED, es)
    ensures Untaken(Run(STARTED, es)) == Tail(es)
  {
    if es == [] {
    } else {
      var before, e := es[..|es| - 1], es[|es| - 1];
      NothingLost(before);
      UntakenIsTail(before);
      if e.Append? { AppendGrowsUntaken(Run(STARTED, before), e.line); }
      assert Tail(before) + [] == Tail(before);
    }
  }

  /** Some kept line was appended after the writer last took the buffers. */
  predicate AppendedLate(es: seq<Event>) {
    exists i :: 0 <= i < |es| && Keeps(es[i]) && forall j :: i < j < |es| ==> !es[j].Take?
  }

  lemma AppendedLateStep(es: seq<Event>)
    requires es != []
    ensures var n := |es| - 1; AppendedLate(es) <==> !es[n].Take? && (Keeps(es[n]) || AppendedLate(es[..n]))
  {
    var n := |es| - 1;
    var before := es[..n];
    if AppendedLate(before) && !es[n].Take? {
      var i :| 0 <= i < n && Keeps(before[i]) && forall j :: i < j < n ==> !before[j].Take?;
      assert Keeps(es[i]);
    }
    if AppendedLate(es) {
      var i :| 0 <= i <= n && Keeps(es[i]) && forall j :: i < j <= n ==> !es[j].Take?;
      if i < n { assert Keeps(before[i]) && !es[n].Take?; }
    }
  }

  lemma {:induction false} TailIsAppendedLate(es: seq<Event>)
    ensures Tail(es) != [] <==> AppendedLate(es)
  {
    if es == [] {
    } else {
      TailIsAppendedLate(es[..|es| - 1]);
      AppendedLateStep(es);
    }
  }

  /** Once stopped, the thread leaves without a last round: what it has not written is exactly
      the lines appended after it last took the buffers, so the file is complete exactly when
      there was no such append. */
  lemma StopLosesTail(es: seq<Event>)
    requires PossibleRun(STARTED, es) && Run(STARTED, es).phase == Exited
    ensures Kept(es) == Run(STARTED, es).file + Tail(es)
    ensures Run(STARTED, es).file == Kept(es) <==> !AppendedLate(es)
  {
    NothingLost(es);
    UntakenIsTail(es);
    TailIsAppendedLate(es);
    var s := Run(STARTED, es);
    assert Everything(s) == s.file + Untaken(s);
    assert s.file + [] == s.file;
    assert |s.file + Tail(es)| == |s.file| + |Tail(es)|;
  }

  lemma TailCanBeLost(line: Line)
    requires |line| < SIZE
    ensures var es := [Append(line), Event.Stop, Test];
            PossibleRun(STARTED, es) && Run(STARTED, es).phase == Exited && Run(STARTED, es).file == []
            && Kept(es) == [line]
  {
    var es := [Append(line), Event.Stop, Test];
    var one := [Append(line)];
    var two := [Append(line), Event.Stop];
    assert es[..2] == two && two[..1] == one && one[..0] == [];
    var s := AppendStep(STARTED, line);
    AppendKeeps(STARTED, line);
    assert Run(STARTED, one) == s;
    assert Run(STARTED, two) == s.(running := false);
    assert Kept(one) == [line];
    assert Kept(two) == [line];
  }
}
