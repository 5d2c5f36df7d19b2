/**
 One download in any run, told by the care its own starts take: what its pipe carries, what a
 crash leaves, resumption, and the final file.
 */
module PipelineResume {
  import opened CloudTypes
  import opened Transfer
  import opened Pipeline
  import opened PipelineProofs

  /** `local` holds the first `units` units of `file`. */
  ghost predicate Agrees(local: Bytes, file: Bytes, units: nat) {
    var n := Min(units * UNIT_LEN, |file|);
    |local| >= n && forall i :: 0 <= i < n ==> local[i] == file[i]
  }

  /** What a local file has beyond the length of the server's. */
  function Tail(local: Bytes, n: nat): Bytes {
    if n <= |local| then local[n..] else []
  }

  /** Whether this much care makes the contents of the local file right. */
  predicate Cares(care: Care) { care.Resumed? || care.Kept? }

  /** The download of `id` carries exactly the stream from unit `w` on; everything below `w` is
      in the local file. */
  ghost predicate Carries(s: State, id: FileId, w: nat, care: Care)
    requires Live(s, id)
  {
    var d := s.sessions[id];
    var t := s.tasks[d.key];
    && Pipe(s, id) == Stream(t.file, w)
    && (d.writer.Reporting? ==> d.writer.unitId <= w)
    && (Cares(care) ==> Agrees(t.local, t.file, w))
  }

  /** How many units of the local file a task counts on. */
  function Trusted(t: Task, scale: nat, care: Care): nat {
    if care.Kept? then t.recorded else ResumeUnit(t.recorded, scale)
  }

  /** A file that was deleted holds nothing, and nothing is counted on; one that was not is right
      as far as the task counts on it. */
  ghost predicate TaskSafe(t: Task, scale: nat, care: Care) {
    && (t.gone ==> t.local == [] && t.original == [] && !t.done)
    && (Cares(care) ==>
          && Tail(t.local, |t.file|) == Tail(t.original, |t.file|)
          && (t.gone || Agrees(t.local, t.file, Trusted(t, scale, care)))
          && (t.done ==> t.local == t.file + Tail(t.original, |t.file|)))
  }

  /** A running download has one writer and carries a stream; one that is ending has nothing left
      anywhere. */
  ghost predicate Flows(s: State, id: FileId, care: Care)
    requires Live(s, id)
  {
    && s.sessions[id].others == [] && !s.tasks[s.sessions[id].key].gone
    && if s.sessions[id].writer.Stopping?
       then s.sessions[id].sender.Ended? && Inbound(s.channel, id) == []
       else exists w :: Carries(s, id, w, care)
  }

  ghost predicate Safe(s: State, key: Key, care: Care) {
    && WellFormed(s) && s.scale <= UNIT_LEN && care != Alone
    && (key in s.tasks ==> TaskSafe(s.tasks[key], s.scale, care))
    && (s.deletion.Unflushed? && s.deletion.key == key ==> TaskSafe(s.deletion.task, s.scale, care))
    && (forall id :: id in s.sessions && s.sessions[id].key == key ==> Flows(s, id, care))
  }

  // ---------------------------------------------------------------- arithmetic of resuming

  /** The server takes up at or before the recorded unit, whatever the client multiplies the
      unit number by, as long as it is at most the unit length. */
  lemma ResumeNotBeyond(recorded: nat, scale: nat)
    requires scale <= UNIT_LEN
    ensures recorded * scale / UNIT_LEN <= recorded
    ensures scale == UNIT_LEN ==> recorded * scale / UNIT_LEN == recorded
  {
    assert recorded * scale <= recorded * UNIT_LEN;
  }

  lemma AgreesBelow(local: Bytes, file: Bytes, w: nat, u: nat)
    requires Agrees(local, file, w) && u <= w
    ensures Agrees(local, file, u)
  {
  }

  // ---------------------------------------------------------------- one unit

  /** Unfolding of the stream by one unit. */
  lemma StreamStep(file: Bytes, w: nat)
    ensures w * UNIT_LEN >= |file| ==> Stream(file, w) == [EOF_UNIT]
    ensures w * UNIT_LEN < |file| ==>
              Stream(file, w) ==
              [Unit(false, w, file[w * UNIT_LEN..Min((w + 1) * UNIT_LEN, |file|)])] + Stream(file, w + 1)
  {
    if 0 < |file| - w * UNIT_LEN < UNIT_LEN {
      assert Stream(file, w + 1) == [EOF_UNIT];
      assert file[w * UNIT_LEN..] == file[w * UNIT_LEN..|file|];
    }
  }

  /** Writing unit `w` of the server's file extends the correct part by one unit, spoils nothing
      that was already correct further on, and leaves the tail alone. */
  lemma WriteExtends(local: Bytes, file: Bytes, w: nat, v: nat)
    requires Agrees(local, file, w) && Agrees(local, file, v) && w * UNIT_LEN < |file|
    ensures var local' := WriteAt(local, w * UNIT_LEN, file[w * UNIT_LEN..Min((w + 1) * UNIT_LEN, |file|)]);
            Agrees(local', file, w + 1) && Agrees(local', file, v) && Tail(local', |file|) == Tail(local, |file|)
  {
    WriteLays(local, file, w * UNIT_LEN, Min((w + 1) * UNIT_LEN, |file|));
  }

  /** Laying `file[at..end]` over a local file that is long enough to take it without a gap. */
  lemma WriteLays(local: Bytes, file: Bytes, at: nat, end: nat)
    requires at < end <= |file| && at <= |local|
    ensures var local' := WriteAt(local, at, file[at..end]);
            && |local'| == Max(|local|, end)
            && (forall i :: 0 <= i < |local'| ==> local'[i] == if at <= i < end then file[i] else local[i])
            && Tail(local', |file|) == Tail(local, |file|)
  {
  }

  lemma WriteConsumes(s: State, id: FileId)
    requires WellFormed(s) && Enabled(s, Write(id))
    ensures var s' := Apply(s, Write(id));
            && Live(s', id) && s'.sessions[id].key == s.sessions[id].key
            && Pipe(s, id) == [s.sessions[id].writer.unit] + Pipe(s', id)
            && s'.sessions[id].writer == Reporting(s.sessions[id].writer.unit.unitId)
  {
    var d := s.sessions[id];
    HeadApart(d.writer.unit, d.queue, Inbound(s.channel, id), Remaining(s.tasks[d.key].file, d.sender));
  }

  lemma HeadApart(x: Unit, a: seq<Unit>, b: seq<Unit>, c: seq<Unit>)
    ensures [x] + a + b + c == [x] + ([] + a + b + c)
  {
    assert [] + a == a;
  }

  /** The head of the stream from `w` is unit `w`, the rest is the stream from `w + 1`. */
  lemma StreamHead(file: Bytes, w: nat, unit: Unit, rest: seq<Unit>)
    requires [unit] + rest == Stream(file, w) && !unit.isEof
    ensures w * UNIT_LEN < |file| && unit == Unit(false, w, file[w * UNIT_LEN..Min((w + 1) * UNIT_LEN, |file|)])
    ensures rest == Stream(file, w + 1)
  {
    StreamStep(file, w);
    assert ([unit] + rest)[0] == unit && ([unit] + rest)[1..] == rest;
    if w * UNIT_LEN < |file| {
      var both := [Unit(false, w, file[w * UNIT_LEN..Min((w + 1) * UNIT_LEN, |file|)])] + Stream(file, w + 1);
      assert both[1..] == Stream(file, w + 1);
    }
  }

  /** What writing the head of the stream from `w` does to a task. */
  lemma TaskWrite(t: Task, scale: nat, care: Care, w: nat, unit: Unit, rest: seq<Unit>)
    requires TaskSafe(t, scale, care) && !t.done && !t.gone && (Cares(care) ==> Agrees(t.local, t.file, w))
    requires [unit] + rest == Stream(t.file, w) && !unit.isEof
    ensures var t' := t.(local := WriteAt(t.local, unit.unitId * UNIT_LEN, unit.body));
            TaskSafe(t', scale, care) && (Cares(care) ==> Agrees(t'.local, t.file, w + 1))
    ensures unit.unitId == w && rest == Stream(t.file, w + 1)
  {
    StreamHead(t.file, w, unit, rest);
    if Cares(care) {
      WriteExtends(t.local, t.file, w, Trusted(t, scale, care));
    }
  }

  lemma CarriesWrite(s: State, id: FileId, w: nat, care: Care)
    requires Live(s, id) && Safe(s, s.sessions[id].key, care) && Enabled(s, Write(id)) && Carries(s, id, w, care)
    ensures var s' := Apply(s, Write(id));
            && Live(s', id) && s'.sessions[id].key == s.sessions[id].key && Carries(s', id, w + 1, care)
            && TaskSafe(s'.tasks[s.sessions[id].key], s.scale, care)
  {
    var d := s.sessions[id];
    var s' := Apply(s, Write(id));
    WriteConsumes(s, id);
    TaskWrite(s.tasks[d.key], s.scale, care, w, d.writer.unit, Pipe(s', id));
    assert s'.tasks[d.key] == s.tasks[d.key].(local := WriteAt(s.tasks[d.key].local, d.writer.unit.unitId * UNIT_LEN, d.writer.unit.body));
  }

  /** At end of file the pipe holds nothing else: nothing is lost by dropping what is left. */
  lemma FinishLosesNothing(s: State, id: FileId, lastWords: bool, care: Care)
    requires Live(s, id) && Safe(s, s.sessions[id].key, care) && Enabled(s, Finish(id, lastWords))
    ensures s.sessions[id].queue == [] && Inbound(s.channel, id) == [] && s.sessions[id].sender.Ended?
    ensures var t := s.tasks[s.sessions[id].key];
            Cares(care) ==> t.local == t.file + Tail(t.original, |t.file|)
  {
    var t := s.tasks[s.sessions[id].key];
    var w :| Carries(s, id, w, care);
    StreamStep(t.file, w);
    assert Pipe(s, id)[0].isEof;
    assert |Pipe(s, id)| == 1;
    if Cares(care) {
      assert t.local == t.local[..|t.file|] + t.local[|t.file|..];
    }
  }

  lemma StartCarries(s: State, step: Step, care: Care)
    requires step.Start? && Safe(s, step.key, care) && Enabled(s, step) && Careful(s, step, step.key, care)
    ensures var s' := Apply(s, step);
            && Live(s', step.id) && s'.sessions[step.id].others == [] && !s'.tasks[step.key].gone
            && Carries(s', step.id, ResumeUnit(s.tasks[step.key].recorded, s.scale), care)
            && TaskSafe(s'.tasks[step.key], s.scale, care)
  {
    var s' := Apply(s, step);
    var t := Opened(s.tasks[step.key], step.path, step.found);
    var u := ResumeUnit(t.recorded, s.scale);
    ResumeNotBeyond(t.recorded, s.scale);
    assert Pipe(s', step.id) == Stream(t.file, u);
    if Cares(care) && SameFile(s.tasks[step.key], step.path) {
      AgreesBelow(t.local, t.file, Trusted(t, s.scale, care), u);
    }
  }

  /** The download of `key` still carries a stream after any step. */
  lemma CarriesStep(s: State, step: Step, key: Key, care: Care, id: FileId) returns (w: nat)
    requires Safe(s, key, care) && Enabled(s, step) && Careful(s, step, key, care)
    requires id in Apply(s, step).sessions && Apply(s, step).sessions[id].key == key
    requires !Apply(s, step).sessions[id].writer.Stopping?
    ensures Live(Apply(s, step), id) && Carries(Apply(s, step), id, w, care)
  {
    if step == Write(id) {
      w :| Carries(s, id, w, care);
      CarriesWrite(s, id, w, care);
      w := w + 1;
    } else if step.Start? && step.id == id {
      StartCarries(s, step, care);
      w := ResumeUnit(s.tasks[step.key].recorded, s.scale);
    } else if Transports(step) {
      w := CarriesTransport(s, step, key, care, id);
    } else {
      w := CarriesFrame(s, step, key, care, id);
    }
  }

  lemma CarriesFrame(s: State, step: Step, key: Key, care: Care, id: FileId) returns (w: nat)
    requires Safe(s, key, care) && Enabled(s, step) && !Transports(step)
    requires id in Apply(s, step).sessions && Apply(s, step).sessions[id].key == key
    requires !Apply(s, step).sessions[id].writer.Stopping? && step != Write(id) && !(step.Start? && step.id == id)
    ensures Live(Apply(s, step), id) && Carries(Apply(s, step), id, w, care)
  {
    assert !ActsOn(step, id);
    StepFrame(s, step, id);
    w :| Carries(s, id, w, care);
  }

  lemma CarriesTransport(s: State, step: Step, key: Key, care: Care, id: FileId) returns (w: nat)
    requires Safe(s, key, care) && Enabled(s, step) && Transports(step)
    requires id in Apply(s, step).sessions && Apply(s, step).sessions[id].key == key
    requires !Apply(s, step).sessions[id].writer.Stopping?
    ensures Live(Apply(s, step), id) && Carries(Apply(s, step), id, w, care)
  {
    TransportFrame(s, step, id);
    w :| Carries(s, id, w, care);
    PipeConserved(s, step, id);
  }

  lemma TaskStep(s: State, step: Step, key: Key, care: Care)
    requires Safe(s, key, care) && Enabled(s, step) && Careful(s, step, key, care) && key in Apply(s, step).tasks
    ensures TaskSafe(Apply(s, step).tasks[key], s.scale, care)
  {
    if step.Start? && step.key == key {
      StartCarries(s, step, care);
    } else if step.Write? && s.sessions[step.id].key == key {
      var w :| Carries(s, step.id, w, care);
      CarriesWrite(s, step.id, w, care);
    } else if step.Report? && s.sessions[step.id].key == key {
      TaskReport(s, step.id, care);
    } else if step.Finish? && s.sessions[step.id].key == key {
      FinishLosesNothing(s, step.id, step.lastWords, care);
    }
  }

  lemma TaskReport(s: State, id: FileId, care: Care)
    requires Live(s, id) && Safe(s, s.sessions[id].key, care) && Enabled(s, Report(id))
    ensures TaskSafe(Apply(s, Report(id)).tasks[s.sessions[id].key], s.scale, care)
  {
    var t, unitId := s.tasks[s.sessions[id].key], s.sessions[id].writer.unitId;
    var w :| Carries(s, id, w, care);
    if Cares(care) {
      ResumeNotBeyond(unitId, s.scale);
      AgreesBelow(t.local, t.file, w, Trusted(t.(recorded := unitId), s.scale, care));
    }
  }

  lemma DeletionStep(s: State, step: Step, key: Key, care: Care)
    requires Safe(s, key, care) && Enabled(s, step)
    requires Apply(s, step).deletion.Unflushed? && Apply(s, step).deletion.key == key
    ensures TaskSafe(Apply(s, step).deletion.task, s.scale, care)
  {
    if step.Stop? {
      assert !s.tasks[s.sessions[step.id].key].done;
    }
  }

  /** A running download's file is not deleted under it. */
  lemma NotGoneStep(s: State, step: Step, key: Key, care: Care, id: FileId)
    requires Safe(s, key, care) && Enabled(s, step)
    requires id in Apply(s, step).sessions && Apply(s, step).sessions[id].key == key && key in Apply(s, step).tasks
    ensures !Apply(s, step).tasks[key].gone
  {
    if !(step.Start? && step.id == id) {
      SessionStays(s, step, id);
    }
  }

  lemma SessionStays(s: State, step: Step, id: FileId)
    requires WellFormed(s) && Enabled(s, step) && id in Apply(s, step).sessions && !(step.Start? && step.id == id)
    ensures id in s.sessions && Apply(s, step).sessions[id].key == s.sessions[id].key
  {
  }

  /** A download that is ending has nothing in flight any more. */
  lemma DrainedStep(s: State, step: Step, key: Key, care: Care, id: FileId)
    requires Safe(s, key, care) && Enabled(s, step)
    requires id in Apply(s, step).sessions && Apply(s, step).sessions[id].key == key
    requires Apply(s, step).sessions[id].writer.Stopping?
    ensures Apply(s, step).sessions[id].sender.Ended? && Inbound(Apply(s, step).channel, id) == []
  {
    if step.Finish? && step.id == id {
      FinishLosesNothing(s, id, step.lastWords, care);
      LastWordsElsewhere(s, id, step.lastWords, id);
    } else {
      StayedStopping(s, step, id);
      NothingNew(s, step, id);
    }
  }

  lemma NothingNew(s: State, step: Step, id: FileId)
    requires Enabled(s, step) && id in s.sessions && s.sessions[id].sender.Ended? && Inbound(s.channel, id) == []
    ensures Inbound(Apply(s, step).channel, id) == []
  {
    if step.Send? {
      InboundAppend(s.channel, Message(step.id, Emit(s.tasks[s.sessions[step.id].key].file, s.sessions[step.id].sender).0), id);
    } else if step.Stop? || step.Finish? {
      LastWordsElsewhere(s, step.id, step.lastWords, id);
    }
  }

  lemma StayedStopping(s: State, step: Step, id: FileId)
    requires WellFormed(s) && Enabled(s, step) && !(step.Finish? && step.id == id)
    requires id in Apply(s, step).sessions && Apply(s, step).sessions[id].writer.Stopping?
    ensures id in s.sessions && s.sessions[id].writer.Stopping? && s.sessions[id].key == Apply(s, step).sessions[id].key
    ensures s.sessions[id].sender.Ended? ==> Apply(s, step).sessions[id].sender.Ended?
  {
  }

  lemma SafeStep(s: State, step: Step, key: Key, care: Care)
    requires Safe(s, key, care) && Enabled(s, step) && Careful(s, step, key, care)
    ensures Safe(Apply(s, step), key, care)
  {
    var s' := Apply(s, step);
    WellFormedStep(s, step);
    if key in s'.tasks {
      TaskStep(s, step, key, care);
    }
    if s'.deletion.Unflushed? && s'.deletion.key == key {
      DeletionStep(s, step, key, care);
    }
    forall id | id in s'.sessions && s'.sessions[id].key == key
      ensures Flows(s', id, care)
    {
      AloneStep(s, step, key, id);
      NotGoneStep(s, step, key, care, id);
      if s'.sessions[id].writer.Stopping? {
        DrainedStep(s, step, key, care, id);
      } else {
        var w := CarriesStep(s, step, key, care, id);
      }
    }
  }

  lemma {:induction false} SafeRun(scale: nat, steps: seq<Step>, key: Key, care: Care)
    requires scale <= UNIT_LEN && Runnable(scale, steps) && CarefulRun(scale, steps, key, care) && care != Alone
    ensures Safe(Run(scale, steps), key, care) && Run(scale, steps).scale == scale
    decreases |steps|
  {
    if steps != [] {
      SafeRun(scale, steps[..|steps| - 1], key, care);
      SafeStep(Run(scale, steps[..|steps| - 1]), steps[|steps| - 1], key, care);
    }
  }

  // ---------------------------------------------------------------- main results

  /** However all downloads are interleaved, crashed, stopped and resumed: a finished download
      has left the server's file, followed only by what the local file had beyond that length,
      if its own starts met no writer of an earlier download and nothing on the socket, and
      opened the file of the start before, not deleted since, unless the server took it up at
      unit 0. */
  lemma {:induction false} DownloadReproducesFile(scale: nat, steps: seq<Step>, key: Key)
    requires scale <= UNIT_LEN && Runnable(scale, steps) && CarefulRun(scale, steps, key, Resumed)
    requires key in Run(scale, steps).tasks && Run(scale, steps).tasks[key].done
    ensures var t := Run(scale, steps).tasks[key];
            && t.local == t.file + Tail(t.original, |t.file|)
            && (t.local == t.file <==> |t.original| <= |t.file|)
  {
    SafeRun(scale, steps, key, Resumed);
  }

  lemma NothingAgrees(file: Bytes, units: nat)
    ensures Agrees([], file, units) <==> units == 0 || file == []
  {
  }

  /** At every point of such a run, everything below the unit at which a restart takes up is on
      the local disk exactly when the file has not been deleted by a stop that a crash undid, or
      there is nothing below that unit: otherwise a crash never leaves a hole. */
  lemma {:induction false} CrashNeverLeavesHole(scale: nat, steps: seq<Step>, key: Key)
    requires scale <= UNIT_LEN && Runnable(scale, steps) && CarefulRun(scale, steps, key, Resumed)
    requires key in Run(scale, steps).tasks
    ensures var t := Run(scale, steps).tasks[key];
            var u := ResumeUnit(t.recorded, scale);
            u <= t.recorded && (Agrees(t.local, t.file, u) <==> !t.gone || u == 0 || t.file == [])
  {
    SafeRun(scale, steps, key, Resumed);
    var t := Run(scale, steps).tasks[key];
    ResumeNotBeyond(t.recorded, scale);
    NothingAgrees(t.file, ResumeUnit(t.recorded, scale));
  }

  /** The same for everything below the recorded unit itself, if the file changes only while
      nothing is recorded. */
  lemma {:induction false} RecordedIsOnDisk(scale: nat, steps: seq<Step>, key: Key)
    requires scale <= UNIT_LEN && Runnable(scale, steps) && CarefulRun(scale, steps, key, Kept)
    requires key in Run(scale, steps).tasks
    ensures var t := Run(scale, steps).tasks[key];
            Agrees(t.local, t.file, t.recorded) <==> !t.gone || t.recorded == 0 || t.file == []
  {
    SafeRun(scale, steps, key, Kept);
    NothingAgrees(Run(scale, steps).tasks[key].file, Run(scale, steps).tasks[key].recorded);
  }
}
