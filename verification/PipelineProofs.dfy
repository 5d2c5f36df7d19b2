/**
 What every run of the download pipeline keeps, and what follows for the local files.
 */
module PipelineProofs {
  import opened CloudTypes
  import opened Transfer
  import opened Pipeline

  // ---------------------------------------------------------------- structure

  /** Sessions work for known tasks, no two for the same, at ids nobody is leaving; a session is
      stopping exactly when its task is done, and only by the writer whose turn it is. */
  ghost predicate WellFormed(s: State) {
    && (forall id :: id in s.sessions ==> SessionFits(s, id))
    && (forall id :: id in s.leaving ==> NoneStopping(s.leaving[id].writers))
    && KeysDistinct(s)
    && (s.deletion.Unflushed? ==> !s.deletion.task.done)
  }

  ghost predicate NoneStopping(writers: seq<Writer>) {
    forall n :: 0 <= n < |writers| ==> !writers[n].Stopping?
  }

  ghost predicate SessionFits(s: State, id: FileId)
    requires id in s.sessions
  {
    var d := s.sessions[id];
    d.key in s.tasks && id !in s.leaving && (d.writer.Stopping? <==> s.tasks[d.key].done) && NoneStopping(d.others)
  }

  ghost predicate KeysDistinct(s: State) {
    forall i, j :: i in s.sessions && j in s.sessions && s.sessions[i].key == s.sessions[j].key ==> i == j
  }

  /** The steps that change which tasks there are or which are done, or who works for which. */
  predicate Books(step: Step) {
    step.Create? || step.Start? || step.Finish? || step.Release? || step.Stop? || step.Crash?
  }

  /** The others leave sessions at work for the tasks they work for. */
  lemma NoBooks(s: State, step: Step)
    requires Enabled(s, step) && !Books(step)
    ensures var s' := Apply(s, step);
            && s'.tasks.Keys == s.tasks.Keys && s'.sessions.Keys == s.sessions.Keys
            && s'.leaving.Keys <= s.leaving.Keys
            && (forall key :: key in s.tasks ==> s'.tasks[key].done == s.tasks[key].done)
            && (forall id :: id in s.sessions ==> s'.sessions[id].key == s.sessions[id].key)
  {
  }

  lemma DistinctStep(s: State, step: Step)
    requires WellFormed(s) && Enabled(s, step)
    ensures KeysDistinct(Apply(s, step))
  {
    if !Books(step) {
      NoBooks(s, step);
    } else if step.Start? {
      assert forall i :: i in s.sessions ==> s.sessions[i].key != step.key;
    }
  }

  lemma FitsTask(s: State, step: Step, id: FileId)
    requires WellFormed(s) && Enabled(s, step) && id in Apply(s, step).sessions
    ensures var s' := Apply(s, step);
            var d := s'.sessions[id];
            d.key in s'.tasks && (d.writer.Stopping? <==> s'.tasks[d.key].done)
  {
    if Books(step) {
      FitsBooks(s, step, id);
    } else {
      NoBooks(s, step);
      SameStopping(s, step, id);
    }
  }

  lemma SameStopping(s: State, step: Step, id: FileId)
    requires WellFormed(s) && Enabled(s, step) && !Books(step) && id in s.sessions
    ensures id in Apply(s, step).sessions && Apply(s, step).sessions[id].writer.Stopping? == s.sessions[id].writer.Stopping?
  {
  }

  lemma FitsBooks(s: State, step: Step, id: FileId)
    requires WellFormed(s) && Enabled(s, step) && Books(step) && id in Apply(s, step).sessions
    ensures var s' := Apply(s, step);
            var d := s'.sessions[id];
            d.key in s'.tasks && (d.writer.Stopping? <==> s'.tasks[d.key].done)
  {
    if step.Start? && step.id != id {
      assert s.sessions[id].key != step.key;
    }
  }

  lemma FitsWriters(s: State, step: Step, id: FileId)
    requires WellFormed(s) && Enabled(s, step) && id in Apply(s, step).sessions
    ensures NoneStopping(Apply(s, step).sessions[id].others)
  {
    if !((step.Start? || step.Switch?) && step.id == id) {
      OthersStay(s, step, id);
    }
  }

  lemma OthersStay(s: State, step: Step, id: FileId)
    requires Enabled(s, step) && id in Apply(s, step).sessions
    requires !((step.Start? || step.Switch?) && step.id == id)
    ensures id in s.sessions && Apply(s, step).sessions[id].others == s.sessions[id].others
    ensures Apply(s, step).sessions[id].key == s.sessions[id].key
  {
  }

  lemma FitsPlace(s: State, step: Step, id: FileId)
    requires WellFormed(s) && Enabled(s, step) && id in Apply(s, step).sessions
    ensures id !in Apply(s, step).leaving
  {
  }

  lemma LeavingStep(s: State, step: Step, id: FileId)
    requires WellFormed(s) && Enabled(s, step) && id in Apply(s, step).leaving
    ensures NoneStopping(Apply(s, step).leaving[id].writers)
  {
  }

  lemma StoppedNotDone(s: State, step: Step)
    requires WellFormed(s) && Enabled(s, step) && Apply(s, step).deletion.Unflushed?
    ensures !Apply(s, step).deletion.task.done
  {
  }

  lemma WellFormedStep(s: State, step: Step)
    requires WellFormed(s) && Enabled(s, step)
    ensures WellFormed(Apply(s, step))
  {
    DistinctStep(s, step);
    if Apply(s, step).deletion.Unflushed? {
      StoppedNotDone(s, step);
    }
    forall id | id in Apply(s, step).sessions
      ensures SessionFits(Apply(s, step), id)
    {
      FitsTask(s, step, id);
      FitsWriters(s, step, id);
      FitsPlace(s, step, id);
    }
    forall id | id in Apply(s, step).leaving
      ensures NoneStopping(Apply(s, step).leaving[id].writers)
    {
      LeavingStep(s, step, id);
    }
  }

  lemma {:induction false} WellFormedRun(scale: nat, steps: seq<Step>)
    requires Runnable(scale, steps)
    ensures WellFormed(Run(scale, steps))
    decreases |steps|
  {
    if steps != [] {
      WellFormedRun(scale, steps[..|steps| - 1]);
      WellFormedStep(Run(scale, steps[..|steps| - 1]), steps[|steps| - 1]);
    }
  }

  lemma {:induction false} ScaleStays(scale: nat, steps: seq<Step>)
    requires Runnable(scale, steps)
    ensures Run(scale, steps).scale == scale
    decreases |steps|
  {
    if steps != [] {
      ScaleStays(scale, steps[..|steps| - 1]);
    }
  }

  lemma {:induction false} InboundAppend(channel: seq<Message>, m: Message, id: FileId)
    ensures Inbound(channel + [m], id) == Inbound(channel, id) + (if m.fileId == id then [m.unit] else [])
  {
    if channel == [] {
      InboundOne(m, id);
      assert channel + [m] == [m];
    } else {
      assert (channel + [m])[1..] == channel[1..] + [m];
      InboundAppend(channel[1..], m, id);
      Assoc(if channel[0].fileId == id then [channel[0].unit] else [], Inbound(channel[1..], id),
            if m.fileId == id then [m.unit] else []);
    }
  }

  lemma Assoc(a: seq<Unit>, b: seq<Unit>, c: seq<Unit>)
    ensures a + (b + c) == (a + b) + c
  {
  }

  lemma InboundOne(m: Message, id: FileId)
    ensures Inbound([m], id) == if m.fileId == id then [m.unit] else []
  {
    assert [m][1..] == [];
  }

  lemma EmitTakesFromStream(file: Bytes, sender: Sender)
    requires !sender.Ended?
    ensures Remaining(file, sender) == [Emit(file, sender).0] + Remaining(file, Emit(file, sender).1)
  {
  }

  predicate Transports(step: Step) {
    step.Send? || step.Receive? || step.Take? || step.Report?
  }

  /** Sending, receiving, taking and reporting neither lose, duplicate nor reorder a unit of
      any download that goes on. */
  lemma PipeConserved(s: State, step: Step, id: FileId)
    requires WellFormed(s) && Enabled(s, step) && Transports(step)
    requires id in s.sessions && !s.sessions[id].writer.Stopping?
    ensures Live(Apply(s, step), id) && Pipe(Apply(s, step), id) == Pipe(s, id)
  {
    match step
    case Send(i) =>
      SendConserves(s, i, id);
    case Receive =>
      ReceiveConserves(s, id);
    case Take(i) =>
      if i == id {
        assert s.sessions[id].queue == [s.sessions[id].queue[0]] + s.sessions[id].queue[1..];
      }
    case Report(i) =>
  }

  lemma SendConserves(s: State, i: FileId, id: FileId)
    requires Enabled(s, Send(i)) && Live(s, id)
    ensures Live(Apply(s, Send(i)), id) && Pipe(Apply(s, Send(i)), id) == Pipe(s, id)
  {
    var d, e := s.sessions[id], s.sessions[i];
    var (unit, sender) := Emit(s.tasks[e.key].file, e.sender);
    EmitTakesFromStream(s.tasks[e.key].file, e.sender);
    InboundAppend(s.channel, Message(i, unit), id);
    if i == id {
      Regroup(Held(d.writer) + d.queue, Inbound(s.channel, id), unit, Remaining(s.tasks[e.key].file, sender));
    }
  }

  lemma ReceiveConserves(s: State, id: FileId)
    requires Enabled(s, Receive) && Live(s, id) && !s.sessions[id].writer.Stopping?
    ensures Live(Apply(s, Receive), id) && Pipe(Apply(s, Receive), id) == Pipe(s, id)
  {
    var d, m := s.sessions[id], s.channel[0];
    if m.fileId == id {
      Regroup(Held(d.writer), d.queue, m.unit, Inbound(s.channel[1..], id));
    }
  }

  lemma Regroup(a: seq<Unit>, b: seq<Unit>, x: Unit, c: seq<Unit>)
    ensures a + (b + [x]) + c == a + b + ([x] + c)
  {
  }

  // ---------------------------------------------------------------- the outcome does not depend on the schedule

  /** The download of `key`, if it goes on, has one writer, and what its pipe still carries would
      turn the local file into the expected one; if it is done, the local file is that already. */
  ghost predicate Determined(s: State, key: Key) {
    && WellFormed(s)
    && (forall id :: id in s.sessions && s.sessions[id].key == key ==>
          s.sessions[id].others == [] &&
          (!s.sessions[id].writer.Stopping? ==> Replay(s.tasks[key].local, Pipe(s, id)) == s.tasks[key].expected))
    && (key in s.tasks && s.tasks[key].done ==> s.tasks[key].local == s.tasks[key].expected)
  }

  predicate ActsOn(step: Step, id: FileId) {
    (step.Write? || step.Finish? || step.Start? || step.Switch?) && step.id == id
  }

  /** What a stopped sender still says is addressed to its own file id. */
  lemma LastWordsElsewhere(s: State, id: FileId, lastWords: bool, other: FileId)
    requires id in s.sessions && (other != id || s.sessions[id].sender.Ended?)
    ensures Inbound(s.channel + LastWords(s, id, lastWords), other) == Inbound(s.channel, other)
  {
    if LastWords(s, id, lastWords) == [] {
      assert s.channel + [] == s.channel;
    } else {
      InboundAppend(s.channel, Message(id, EOF_UNIT), other);
    }
  }

  /** A step of another kind, or of another download, leaves this download's pipe, file and
      task as they are. */
  lemma StepFrame(s: State, step: Step, id: FileId)
    requires WellFormed(s) && Enabled(s, step) && !Transports(step) && !ActsOn(step, id)
    requires id in Apply(s, step).sessions && !Apply(s, step).sessions[id].writer.Stopping?
    ensures id in s.sessions && s.sessions[id] == Apply(s, step).sessions[id]
    ensures Live(s, id) && Live(Apply(s, step), id) && Pipe(Apply(s, step), id) == Pipe(s, id)
    ensures Apply(s, step).tasks[s.sessions[id].key] == s.tasks[s.sessions[id].key]
  {
    WellFormedStep(s, step);
    if step.Stop? || step.Finish? {
      LastWordsElsewhere(s, step.id, step.lastWords, id);
    }
  }

  /** The steps that consume a unit, and the start, as they act on their own download. */
  lemma ConsumingStep(s: State, step: Step, key: Key)
    requires Determined(s, key) && Enabled(s, step) && Careful(s, step, key, Alone)
    requires step.Write? || step.Start?
    requires step.id in Apply(s, step).sessions && Apply(s, step).sessions[step.id].key == key
    ensures var s' := Apply(s, step);
            Live(s', step.id) && Replay(s'.tasks[key].local, Pipe(s', step.id)) == s'.tasks[key].expected
  {
    var s' := Apply(s, step);
    if step.Start? {
      assert Pipe(s', step.id) == [] + Inbound(s.channel, step.id) + Stream(s.tasks[key].file, ResumeUnit(s.tasks[key].recorded, s.scale));
    } else {
      assert Pipe(s, step.id)[1..] == Pipe(s', step.id);
    }
  }

  /** Moving a unit towards the writer touches no file and no session's key, and makes no
      writer report. */
  lemma TransportFrame(s: State, step: Step, id: FileId)
    requires WellFormed(s) && Enabled(s, step) && Transports(step) && id in Apply(s, step).sessions
    ensures id in s.sessions
    ensures var s', d, d' := Apply(s, step), s.sessions[id], Apply(s, step).sessions[id];
            && d'.key == d.key && d.key in s'.tasks && d'.others == d.others
            && (d'.writer.Stopping? <==> d.writer.Stopping?)
            && s'.tasks[d.key] == s.tasks[d.key].(recorded := s'.tasks[d.key].recorded)
            && (d'.writer.Reporting? ==> d'.writer == d.writer)
  {
  }

  lemma GoingOnStep(s: State, step: Step, key: Key, id: FileId)
    requires Determined(s, key) && Enabled(s, step) && Careful(s, step, key, Alone)
    requires id in Apply(s, step).sessions && Apply(s, step).sessions[id].key == key
    requires !Apply(s, step).sessions[id].writer.Stopping?
    ensures var s' := Apply(s, step);
            Live(s', id) && Replay(s'.tasks[key].local, Pipe(s', id)) == s'.tasks[key].expected
  {
    if Transports(step) {
      TransportFrame(s, step, id);
      PipeConserved(s, step, id);
    } else if ActsOn(step, id) {
      ConsumingStep(s, step, key);
    } else {
      StepFrame(s, step, id);
    }
  }

  lemma AloneStep(s: State, step: Step, key: Key, id: FileId)
    requires WellFormed(s) && Enabled(s, step) && Careful(s, step, key, Alone)
    requires forall i :: i in s.sessions && s.sessions[i].key == key ==> s.sessions[i].others == []
    requires id in Apply(s, step).sessions && Apply(s, step).sessions[id].key == key
    ensures Apply(s, step).sessions[id].others == []
  {
    if !((step.Start? || step.Switch?) && step.id == id) {
      OthersStay(s, step, id);
    }
  }

  lemma DoneStep(s: State, step: Step, key: Key)
    requires Determined(s, key) && Enabled(s, step)
    requires key in Apply(s, step).tasks && Apply(s, step).tasks[key].done
    ensures Apply(s, step).tasks[key].local == Apply(s, step).tasks[key].expected
  {
    if step.Finish? {
      assert Pipe(s, step.id)[0].isEof;
    }
  }

  lemma DeterminedStep(s: State, step: Step, key: Key)
    requires Determined(s, key) && Enabled(s, step) && Careful(s, step, key, Alone)
    ensures Determined(Apply(s, step), key)
  {
    var s' := Apply(s, step);
    WellFormedStep(s, step);
    forall id | id in s'.sessions && s'.sessions[id].key == key
      ensures s'.sessions[id].others == []
      ensures !s'.sessions[id].writer.Stopping? ==> Replay(s'.tasks[key].local, Pipe(s', id)) == s'.tasks[key].expected
    {
      AloneStep(s, step, key, id);
      if !s'.sessions[id].writer.Stopping? {
        GoingOnStep(s, step, key, id);
      }
    }
    if key in s'.tasks && s'.tasks[key].done {
      DoneStep(s, step, key);
    }
  }

  lemma {:induction false} DeterminedRun(scale: nat, steps: seq<Step>, key: Key)
    requires Runnable(scale, steps) && CarefulRun(scale, steps, key, Alone)
    ensures Determined(Run(scale, steps), key)
    decreases |steps|
  {
    if steps != [] {
      DeterminedRun(scale, steps[..|steps| - 1], key);
      DeterminedStep(Run(scale, steps[..|steps| - 1]), steps[|steps| - 1], key);
    }
  }

  /** However the steps of all downloads are interleaved, stopped and restarted: a finished
      download none of whose starts met a writer of an earlier one has left exactly what
      replaying the units in flight at its last start, followed by the server's stream, leaves. */
  lemma {:induction false} ScheduleDoesNotMatter(scale: nat, steps: seq<Step>, key: Key)
    requires Runnable(scale, steps) && CarefulRun(scale, steps, key, Alone)
    requires key in Run(scale, steps).tasks && Run(scale, steps).tasks[key].done
    ensures Run(scale, steps).tasks[key].local == Run(scale, steps).tasks[key].expected
  {
    DeterminedRun(scale, steps, key);
  }

  lemma CareGrows(scale: nat, steps: seq<Step>, key: Key, less: Care, more: Care)
    requires Runnable(scale, steps) && CarefulRun(scale, steps, key, more)
    requires less == more || less == Alone || (less == Quiet && more != Alone) || (less == Resumed && more == Kept)
    ensures CarefulRun(scale, steps, key, less)
    decreases |steps|
  {
    if steps != [] {
      CareGrows(scale, steps[..|steps| - 1], key, less, more);
    }
  }
}
