/**
 What a start opens and leads to, said from outside; and what can always be done: resume after a
 crash, and clear a file id that was given back.
 */
module PipelineOutcome {
  import opened CloudTypes
  import opened Transfer
  import opened Pipeline
  import opened PipelineProofs
  import opened PipelineResume
  import opened PipelineRuns
  import opened PipelineLate

  // ---------------------------------------------------------------- what a start opens

  /** What the local file of a task holds once `path` is opened. */
  ghost predicate Opens(t: Task, path: Path, found: Bytes, local: Bytes) {
    if path != t.path || t.gone then local == found else local == t.local
  }

  /** A start at another path, or of a task whose file is gone, opens whatever is found there; one
      at the same path goes on with the same file.  Nothing else of any task changes. */
  lemma StartOpens(s: State, step: Step)
    requires step.Start? && Enabled(s, step)
    ensures var t, t' := s.tasks[step.key], Apply(s, step).tasks[step.key];
            && (step.path != t.path || t.gone ==> t'.local == step.found && t'.original == step.found)
            && (step.path == t.path && !t.gone ==> t'.local == t.local && t'.original == t.original)
            && t'.path == step.path && !t'.gone && t'.file == t.file && t'.recorded == t.recorded && !t'.done
    ensures Apply(s, step).tasks.Keys == s.tasks.Keys
    ensures forall key :: key in s.tasks && key != step.key ==> Apply(s, step).tasks[key] == s.tasks[key]
  {
  }

  // ---------------------------------------------------------------- what the last start leads to

  predicate Begins(step: Step, key: Key) { (step.Create? || step.Start?) && step.key == key }

  /** As long as a download goes on, and when it is done, it is about the same file and leads to
      the same outcome. */
  ghost predicate Fixed(s: State, key: Key, file: Bytes, original: Bytes, expected: Bytes) {
    && Determined(s, key)
    && (key in s.tasks && (s.tasks[key].done || KeyBusy(s, key)) ==>
          s.tasks[key].file == file && s.tasks[key].original == original && s.tasks[key].expected == expected)
  }

  lemma FixedStep(s: State, step: Step, key: Key, file: Bytes, original: Bytes, expected: Bytes)
    requires Fixed(s, key, file, original, expected) && Enabled(s, step) && !Begins(step, key)
    ensures Fixed(Apply(s, step), key, file, original, expected)
  {
    DeterminedStep(s, step, key);
    var s' := Apply(s, step);
    if key in s'.tasks && s'.tasks[key].done {
      StaysDone(s, step, key);
    } else if key in s'.tasks && KeyBusy(s', key) {
      StaysBusy(s, step, key);
    }
  }

  lemma StaysDone(s: State, step: Step, key: Key)
    requires WellFormed(s) && Enabled(s, step) && !Begins(step, key)
    requires key in Apply(s, step).tasks && Apply(s, step).tasks[key].done
    ensures key in s.tasks && (s.tasks[key].done || KeyBusy(s, key)) && SameDownload(s.tasks[key], Apply(s, step).tasks[key])
  {
  }

  lemma StaysBusy(s: State, step: Step, key: Key)
    requires WellFormed(s) && Enabled(s, step) && !Begins(step, key)
    requires key in Apply(s, step).tasks && KeyBusy(Apply(s, step), key)
    ensures key in s.tasks && KeyBusy(s, key) && SameDownload(s.tasks[key], Apply(s, step).tasks[key])
  {
    var id :| id in Apply(s, step).sessions && Apply(s, step).sessions[id].key == key;
    SessionStays(s, step, id);
  }

  predicate SameDownload(t: Task, t': Task) {
    t'.file == t.file && t'.original == t.original && t'.expected == t.expected
  }

  lemma {:induction false} FixedRun(scale: nat, base: seq<Step>, steps: seq<Step>, key: Key,
      file: Bytes, original: Bytes, expected: Bytes)
    requires Runnable(scale, base) && Runnable(scale, steps) && base <= steps
    requires Fixed(Run(scale, base), key, file, original, expected)
    requires forall i :: |base| <= i < |steps| ==> !Begins(steps[i], key)
    ensures Fixed(Run(scale, steps), key, file, original, expected)
    decreases |steps|
  {
    if |steps| == |base| {
      assert steps == base;
    } else {
      var front := steps[..|steps| - 1];
      FixedRun(scale, base, front, key, file, original, expected);
      FixedStep(Run(scale, front), steps[|steps| - 1], key, file, original, expected);
    }
  }

  /** What the download has behind a start that meets no earlier writer. */
  lemma FixedStart(scale: nat, before: seq<Step>, start: Step, local: Bytes)
    requires Runnable(scale, before) && start.Start? && Enabled(Run(scale, before), start)
    requires start.id !in Run(scale, before).leaving
    requires Opens(Run(scale, before).tasks[start.key], start.path, start.found, local)
    ensures Runnable(scale, before + [start])
    ensures var s, t' := Run(scale, before), Run(scale, before + [start]).tasks[start.key];
            && t'.expected == Replay(local, Inbound(s.channel, start.id)
                                            + Stream(t'.file, s.tasks[start.key].recorded * scale / UNIT_LEN))
            && Fixed(Run(scale, before + [start]), start.key, t'.file, t'.original, t'.expected)
  {
    var s := Run(scale, before);
    RunSnoc(scale, before, start);
    WellFormedRun(scale, before);
    ScaleStays(scale, before);
    DeterminedStep(s, start, start.key);
    StartOpens(s, start);
    assert [] + Inbound(s.channel, start.id) == Inbound(s.channel, start.id);
  }

  /** The last start decides, whatever happened before it and whatever other downloads do: with
      `local` what the file it opened held, a finished download has left what replaying the units
      on the socket and then the server's stream onto `local` leaves. */
  lemma {:induction false} LastStartDecides(scale: nat, before: seq<Step>, start: Step, steps: seq<Step>, local: Bytes)
    requires Runnable(scale, before) && start.Start? && Enabled(Run(scale, before), start)
    requires start.id !in Run(scale, before).leaving
    requires Opens(Run(scale, before).tasks[start.key], start.path, start.found, local)
    requires Runnable(scale, steps) && before + [start] <= steps
    requires forall i :: |before| < i < |steps| ==> !Begins(steps[i], start.key)
    requires start.key in Run(scale, steps).tasks && Run(scale, steps).tasks[start.key].done
    ensures var s, t := Run(scale, before), Run(scale, steps).tasks[start.key];
            && t.file == s.tasks[start.key].file
            && t.local == Replay(local, Inbound(s.channel, start.id)
                                        + Stream(t.file, s.tasks[start.key].recorded * scale / UNIT_LEN))
  {
    var s := Run(scale, before);
    FixedStart(scale, before, start, local);
    StartOpens(s, start);
    RunSnoc(scale, before, start);
    var t' := Run(scale, before + [start]).tasks[start.key];
    FixedRun(scale, before + [start], steps, start.key, t'.file, t'.original, t'.expected);
  }

  /** In particular: started with nothing on the socket, at unit 0 or on a file that is right so
      far, it has left the server's file and what the opened file had beyond it. */
  lemma {:induction false} LastStartRight(scale: nat, before: seq<Step>, start: Step, steps: seq<Step>, local: Bytes)
    requires Runnable(scale, before) && start.Start? && Enabled(Run(scale, before), start)
    requires start.id !in Run(scale, before).leaving && Inbound(Run(scale, before).channel, start.id) == []
    requires var t := Run(scale, before).tasks[start.key];
             && Opens(t, start.path, start.found, local)
             && (t.recorded * scale < UNIT_LEN || Agrees(local, t.file, t.recorded * scale / UNIT_LEN))
    requires Runnable(scale, steps) && before + [start] <= steps
    requires forall i :: |before| < i < |steps| ==> !Begins(steps[i], start.key)
    requires start.key in Run(scale, steps).tasks && Run(scale, steps).tasks[start.key].done
    ensures var file := Run(scale, before).tasks[start.key].file;
            Run(scale, steps).tasks[start.key].local == file + Tail(local, |file|)
  {
    var t := Run(scale, before).tasks[start.key];
    LastStartDecides(scale, before, start, steps, local);
    QuietStartRight(local, t.file, t.recorded * scale / UNIT_LEN);
  }

  /** A new download, begun alone and with nothing on the socket, leaves the server's file and
      what was found at its path beyond that length. */
  lemma {:induction false} NewDownloadRight(scale: nat, before: seq<Step>, create: Step, start: Step, steps: seq<Step>)
    requires create.Create? && Runnable(scale, before) && Enabled(Run(scale, before), create)
    requires start.Start? && start.key == create.key && start.path == create.path
    requires Runnable(scale, before + [create]) && Enabled(Run(scale, before + [create]), start)
    requires start.id !in Run(scale, before).leaving && Inbound(Run(scale, before).channel, start.id) == []
    requires Runnable(scale, steps) && before + [create, start] <= steps
    requires forall i :: |before| + 1 < i < |steps| ==> !Begins(steps[i], create.key)
    requires create.key in Run(scale, steps).tasks && Run(scale, steps).tasks[create.key].done
    ensures Run(scale, steps).tasks[create.key].local == create.file + Tail(create.found, |create.file|)
  {
    RunSnoc(scale, before, create);
    assert before + [create] + [start] == before + [create, start];
    LastStartRight(scale, before + [create], start, steps, create.found);
  }

  // ---------------------------------------------------------------- after a crash

  /** A crash leaves nothing in the way: every task that is not done can be started again, under
      the first file id, and finished. */
  lemma {:induction false} CrashThenFinish(scale: nat, before: seq<Step>, written: bool, key: Key, path: Path, found: Bytes, local: Bytes)
      returns (steps: seq<Step>)
    requires Runnable(scale, before)
    requires var s := Apply(Run(scale, before), Crash(written));
             key in s.tasks && !s.tasks[key].done && Opens(s.tasks[key], path, found, local)
    ensures Runnable(scale, steps) && before + [Crash(written), Start(0, key, path, found)] <= steps
    ensures forall i :: |before| + 2 <= i < |steps| ==> Plain(steps[i])
    ensures key in Run(scale, steps).tasks
    ensures var t, t' := Apply(Run(scale, before), Crash(written)).tasks[key], Run(scale, steps).tasks[key];
            t'.done && t'.local == Overlay(local, t.file, t.recorded * scale / UNIT_LEN)
  {
    ScaleStays(scale, before);
    var crashed := Then(scale, before, Crash(written));
    var t := Run(scale, crashed).tasks[key];
    StartOpens(Run(scale, crashed), Start(0, key, path, found));
    var started := Then(scale, crashed, Start(0, key, path, found));
    assert Idle(Run(scale, started), 0, key);
    steps := Drive(scale, started, started, 0, key);
    ReplayStream(local, t.file, t.recorded * scale / UNIT_LEN);
    assert before + [Crash(written)] + [Start(0, key, path, found)] == before + [Crash(written), Start(0, key, path, found)];
  }

  // ---------------------------------------------------------------- the end of a session

  /** When a download ends, at its end of file or by hand, the server sends nothing more for its
      file id but perhaps one last end of file, and what other writers of the buffer hold stays
      with them. */
  lemma EndOfSession(s: State, step: Step)
    requires (step.Finish? || step.Stop?) && Enabled(s, step)
    ensures var s' := Apply(s, step);
            && !Enabled(s', Send(step.id))
            && (s'.channel == s.channel
                || (step.lastWords && !s.sessions[step.id].sender.Ended?
                    && s'.channel == s.channel + [Message(step.id, EOF_UNIT)]))
            && (step.Finish? ==> s'.sessions[step.id].others == s.sessions[step.id].others
                                 && s'.sessions[step.id].queue == s.sessions[step.id].queue)
            && (step.Stop? ==> step.id !in s'.sessions
                               && LeftAt(s', step.id) == Left([], s.sessions[step.id].others))
  {
    assert s.channel + [] == s.channel;
  }

  /** How many writers there are at a file id, whether or not it is in use. */
  function WritersAt(s: State, id: FileId): nat {
    if id in s.sessions then 1 + |s.sessions[id].others| else |LeftAt(s, id).writers|
  }

  /** A writer comes with a start and goes with an exit, a stop or a crash, and at no other time;
      giving an id back and taking it again keeps those that are there. */
  lemma WritersComeAndGo(s: State, step: Step, id: FileId)
    requires WellFormed(s) && Enabled(s, step)
    ensures WritersAt(Apply(s, step), id) ==
            if step.Crash? then 0
            else if step.Start? && step.id == id then WritersAt(s, id) + 1
            else if (step.Exit? || step.Stop?) && step.id == id then WritersAt(s, id) - 1
            else WritersAt(s, id)
  {
  }

  /** What is in the hands of the writers of an id stays there when another one goes on, and when
      the id is given back or taken again. */
  lemma HandsKept(s: State, step: Step)
    requires WellFormed(s) && Enabled(s, step) && (step.Switch? || step.Release? || step.Start?)
    ensures var s' := Apply(s, step);
            && (step.Switch? ==>
                  && s'.sessions.Keys == s.sessions.Keys
                  && multiset([s'.sessions[step.id].writer] + s'.sessions[step.id].others)
                     == multiset([s.sessions[step.id].writer] + s.sessions[step.id].others)
                  && s'.sessions[step.id].writer == s.sessions[step.id].others[step.n])
            && (step.Release? ==>
                  step.id !in s'.sessions
                  && s'.leaving[step.id] == Left(s.sessions[step.id].queue, s.sessions[step.id].others + [Waiting]))
            && (step.Start? ==>
                  s'.sessions[step.id].others == LeftAt(s, step.id).writers
                  && s'.sessions[step.id].queue == LeftAt(s, step.id).queue && s'.sessions[step.id].writer == Waiting)
  {
    if step.Switch? {
      var d := s.sessions[step.id];
      var n := step.n;
      assert [d.writer] + d.others == [d.writer] + (d.others[..n] + [d.others[n]] + d.others[n + 1..]);
      assert d.others[n := d.writer] == d.others[..n] + [d.writer] + d.others[n + 1..];
    }
  }

  // ---------------------------------------------------------------- locked and vacated ids

  ghost predicate LockedAreUsed(s: State) {
    forall id: FileId :: id in s.locked ==> id in s.sessions
  }

  lemma LockedStep(s: State, step: Step)
    requires LockedAreUsed(s) && Enabled(s, step)
    ensures LockedAreUsed(Apply(s, step))
  {
  }

  /** An id whose mutex is locked stays in use: neither its writer nor a stop gets past that. */
  lemma {:induction false} LockedStayUsed(scale: nat, steps: seq<Step>)
    requires Runnable(scale, steps)
    ensures LockedAreUsed(Run(scale, steps))
    decreases |steps|
  {
    if steps != [] {
      LockedStayUsed(scale, steps[..|steps| - 1]);
      LockedStep(Run(scale, steps[..|steps| - 1]), steps[|steps| - 1]);
    }
  }

  ghost predicate AllWaiting(writers: seq<Writer>) {
    forall n :: 0 <= n < |writers| ==> writers[n] == Waiting
  }

  /** Writers that wait can leave one after the other, until a start at their id meets none. */
  lemma {:induction false} CanClear(scale: nat, before: seq<Step>, id: FileId) returns (steps: seq<Step>)
    requires Runnable(scale, before)
    requires var s := Run(scale, before); id in s.leaving ==> s.leaving[id].writers != [] && AllWaiting(s.leaving[id].writers)
    ensures Runnable(scale, steps) && before <= steps
    ensures forall i :: |before| <= i < |steps| ==> steps[i] == Exit(id, 0)
    ensures var s, s' := Run(scale, before), Run(scale, steps);
            && s'.leaving == s.leaving - {id} && s'.sessions == s.sessions && s'.tasks == s.tasks
            && s'.channel == s.channel && s'.locked == s.locked
            && |steps| == |before| + if id in s.leaving then |s.leaving[id].writers| else 0
    decreases if id in Run(scale, before).leaving then |Run(scale, before).leaving[id].writers| else 0
  {
    var s := Run(scale, before);
    if id in s.leaving {
      LockedStayUsed(scale, before);
      WellFormedRun(scale, before);
      var next := Then(scale, before, Exit(id, 0));
      ExitLeaves(s, id);
      steps := CanClear(scale, next, id);
    } else {
      steps := before;
      assert s.leaving - {id} == s.leaving;
    }
  }

  /** The writer that exits is gone, the others of its id remain, and the buffer is empty. */
  lemma ExitLeaves(s: State, id: FileId)
    requires Enabled(s, Exit(id, 0))
    ensures var s' := Apply(s, Exit(id, 0));
            && s'.leaving - {id} == s.leaving - {id}
            && (id in s'.leaving <==> |s.leaving[id].writers| > 1)
            && (id in s'.leaving ==> s'.leaving[id] == Left([], s.leaving[id].writers[1..]))
  {
    var writers := s.leaving[id].writers;
    assert writers[..0] + writers[1..] == writers[1..];
  }
}
