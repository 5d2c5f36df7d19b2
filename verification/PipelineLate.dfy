/**
 A start that takes a file id before the writers of the finished download are gone: the buffer
 then has more than one writer, and one of them can meet the end of the file while another still
 holds a unit.
 */
module PipelineLate {
  import opened CloudTypes
  import opened Transfer
  import opened Pipeline
  import opened PipelineProofs
  import opened PipelineResume
  import opened PipelineRuns
  import opened PipelineProgress

  // ---------------------------------------------------------------- going on

  /** A step by which running downloads go on. */
  predicate Plain(step: Step) {
    !step.Create? && !step.Start? && !step.Stick? && !step.Stop? && !step.Crash?
  }

  ghost predicate GoesOn(base: seq<Step>, steps: seq<Step>) {
    base <= steps && forall i :: |base| <= i < |steps| ==> Plain(steps[i])
  }

  lemma Go(scale: nat, base: seq<Step>, before: seq<Step>, step: Step) returns (steps: seq<Step>)
    requires Runnable(scale, before) && Enabled(Run(scale, before), step) && GoesOn(base, before) && Plain(step)
    ensures Runnable(scale, steps) && Run(scale, steps) == Apply(Run(scale, before), step) && GoesOn(base, steps)
  {
    steps := Then(scale, before, step);
  }

  lemma {:induction false} CareGoesOn(scale: nat, base: seq<Step>, steps: seq<Step>, key: Key, care: Care)
    requires Runnable(scale, base) && Runnable(scale, steps) && GoesOn(base, steps) && CarefulRun(scale, base, key, care)
    ensures CarefulRun(scale, steps, key, care)
    decreases |steps|
  {
    if |steps| == |base| {
      assert steps == base;
    } else {
      RunnableFront(scale, steps);
      CareGoesOn(scale, base, steps[..|steps| - 1], key, care);
    }
  }

  lemma RunnableFront(scale: nat, steps: seq<Step>)
    requires Runnable(scale, steps) && steps != []
    ensures Runnable(scale, steps[..|steps| - 1])
  {
  }

  /** Nothing on the way but what the sender of `id` still owes, and a writer waiting for it. */
  ghost predicate Idle(s: State, id: FileId, key: Key) {
    && Live(s, id) && s.channel == [] && id !in s.locked
    && s.sessions[id].key == key && s.sessions[id].queue == [] && s.sessions[id].writer == Waiting
    && !s.sessions[id].sender.Ended?
  }

  /** One unit from the server's disk into the hands of the writer. */
  lemma Fetch(scale: nat, base: seq<Step>, before: seq<Step>, id: FileId, key: Key) returns (steps: seq<Step>)
    requires Runnable(scale, before) && GoesOn(base, before) && Idle(Run(scale, before), id, key)
    ensures Runnable(scale, steps) && GoesOn(base, steps)
    ensures Run(scale, steps) == Fetched(Run(scale, before), id, key)
  {
    var s := Run(scale, before);
    var (unit, sender) := Emit(s.tasks[key].file, s.sessions[id].sender);
    var sent := Go(scale, base, before, Send(id));
    assert Run(scale, sent).channel == [Message(id, unit)];
    var received := Go(scale, base, sent, Receive);
    assert Run(scale, received).channel == [] && Run(scale, received).sessions[id].queue == [unit];
    steps := Go(scale, base, received, Take(id));
    assert Run(scale, steps).sessions[id] == s.sessions[id].(sender := sender, writer := Holding(unit));
    assert Run(scale, steps).sessions == Fetched(s, id, key).sessions;
  }

  function Fetched(s: State, id: FileId, key: Key): State
    requires id in s.sessions && key in s.tasks && !s.sessions[id].sender.Ended?
  {
    var (unit, sender) := Emit(s.tasks[key].file, s.sessions[id].sender);
    SetSession(s, id, s.sessions[id].(sender := sender, writer := Holding(unit)))
  }

  /** Write and report. */
  lemma Store(scale: nat, base: seq<Step>, before: seq<Step>, id: FileId, key: Key) returns (steps: seq<Step>)
    requires Runnable(scale, before) && GoesOn(base, before)
    requires var s := Run(scale, before);
             && Live(s, id) && s.sessions[id].key == key && s.channel == [] && id !in s.locked
             && s.sessions[id].queue == [] && !s.sessions[id].sender.Ended?
             && s.sessions[id].writer.Holding? && !s.sessions[id].writer.unit.isEof
    ensures Runnable(scale, steps) && GoesOn(base, steps) && Idle(Run(scale, steps), id, key)
    ensures var s, s' := Run(scale, before), Run(scale, steps);
            var unit := s.sessions[id].writer.unit;
            && s'.sessions[id] == s.sessions[id].(writer := Waiting)
            && s'.tasks[key] == s.tasks[key].(local := WriteAt(s.tasks[key].local, unit.unitId * UNIT_LEN, unit.body),
                                              recorded := unit.unitId)
  {
    var written := Go(scale, base, before, Write(id));
    steps := Go(scale, base, written, Report(id));
  }

  lemma EmitKeepsEof(file: Bytes, sender: Sender)
    requires !sender.Ended? && !Emit(file, sender).0.isEof
    ensures !Emit(file, sender).1.Ended?
  {
  }

  /** The download runs to its end with the writer that is waiting, whatever other writers do not do. */
  lemma {:induction false} Drive(scale: nat, base: seq<Step>, before: seq<Step>, id: FileId, key: Key) returns (steps: seq<Step>)
    requires Runnable(scale, before) && GoesOn(base, before) && Idle(Run(scale, before), id, key)
    ensures Runnable(scale, steps) && GoesOn(base, steps) && key in Run(scale, steps).tasks
    ensures var t, t' := Run(scale, before).tasks[key], Run(scale, steps).tasks[key];
            && t'.done && t'.file == t.file && t'.original == t.original
            && t'.local == Replay(t.local, Remaining(t.file, Run(scale, before).sessions[id].sender))
    decreases |Remaining(Run(scale, before).tasks[key].file, Run(scale, before).sessions[id].sender)|
  {
    var s := Run(scale, before);
    var file, sender0 := s.tasks[key].file, s.sessions[id].sender;
    var (unit, sender) := Emit(file, sender0);
    EmitTakesFromStream(file, sender0);
    assert Remaining(file, sender0)[1..] == Remaining(file, sender);
    var held := Fetch(scale, base, before, id, key);
    if unit.isEof {
      steps := Go(scale, base, held, Finish(id, false));
    } else {
      EmitKeepsEof(file, sender0);
      var stored := Store(scale, base, held, id, key);
      steps := Drive(scale, base, stored, id, key);
    }
  }

  /** What writing the units before `k` does to a local file. */
  ghost predicate Untouched(local: Bytes, local': Bytes, k: nat) {
    && |local| <= |local'| <= Max(|local|, k * UNIT_LEN)
    && forall i :: k * UNIT_LEN <= i < |local| ==> local'[i] == local[i]
  }

  /** The download gets on to unit `k`. */
  lemma {:induction false} Pump(scale: nat, base: seq<Step>, before: seq<Step>, id: FileId, key: Key, u: nat, k: nat)
      returns (steps: seq<Step>)
    requires Runnable(scale, before) && GoesOn(base, before) && Idle(Run(scale, before), id, key)
    requires Run(scale, before).sessions[id].sender == Sending(u)
    requires u <= k && k * UNIT_LEN < |Run(scale, before).tasks[key].file|
    ensures Runnable(scale, steps) && GoesOn(base, steps) && Idle(Run(scale, steps), id, key)
    ensures Run(scale, steps).sessions[id] == Run(scale, before).sessions[id].(sender := Sending(k))
    ensures var t, t' := Run(scale, before).tasks[key], Run(scale, steps).tasks[key];
            && t' == t.(local := t'.local, recorded := t'.recorded) && Untouched(t.local, t'.local, k)
            && (u < k ==> t'.recorded == k - 1)
    ensures u == k ==> steps == before
    decreases k - u
  {
    if u == k {
      steps := before;
    } else {
      var stored := OneUnit(scale, base, before, id, key, u);
      steps := Pump(scale, base, stored, id, key, u + 1, k);
      UntouchedStep(Run(scale, before).tasks[key].local, u, k, Run(scale, before).tasks[key].file,
                    Run(scale, steps).tasks[key].local);
    }
  }

  /** One whole unit goes all the way. */
  lemma OneUnit(scale: nat, base: seq<Step>, before: seq<Step>, id: FileId, key: Key, u: nat) returns (steps: seq<Step>)
    requires Runnable(scale, before) && GoesOn(base, before) && Idle(Run(scale, before), id, key)
    requires Run(scale, before).sessions[id].sender == Sending(u)
    requires (u + 1) * UNIT_LEN <= |Run(scale, before).tasks[key].file|
    ensures Runnable(scale, steps) && GoesOn(base, steps) && Idle(Run(scale, steps), id, key)
    ensures Run(scale, steps).sessions[id] == Run(scale, before).sessions[id].(sender := Sending(u + 1))
    ensures var t, t' := Run(scale, before).tasks[key], Run(scale, steps).tasks[key];
            t' == t.(local := WithUnit(t.local, t.file, u), recorded := u)
  {
    var held := Fetch(scale, base, before, id, key);
    steps := Store(scale, base, held, id, key);
  }

  function WithUnit(local: Bytes, file: Bytes, u: nat): Bytes
    requires (u + 1) * UNIT_LEN <= |file|
  {
    WriteAt(local, u * UNIT_LEN, file[u * UNIT_LEN..u * UNIT_LEN + UNIT_LEN])
  }

  lemma UntouchedStep(local: Bytes, u: nat, k: nat, file: Bytes, local': Bytes)
    requires u < k && (u + 1) * UNIT_LEN <= |file| && Untouched(WithUnit(local, file, u), local', k)
    ensures Untouched(local, local', k)
  {
  }

  // ---------------------------------------------------------------- holding one unit back

  /** What follows unit `k` is laid over the local file. */
  lemma AfterUnit(local: Bytes, file: Bytes, k: nat)
    requires k * UNIT_LEN < |file|
    ensures var sender := Emit(file, Sending(k)).1;
            !sender.Ended? && Replay(local, Remaining(file, sender)) == Overlay(local, file, k + 1)
  {
    if |file| - k * UNIT_LEN >= UNIT_LEN {
      ReplayStream(local, file, k + 1);
    } else {
      assert Replay(local, [EOF_UNIT]) == local;
    }
  }

  /** With a second writer waiting, unit `k` can be taken and never written. */
  lemma HoldBack(scale: nat, base: seq<Step>, before: seq<Step>, id: FileId, key: Key, u: nat, k: nat, n: nat)
      returns (steps: seq<Step>, stored: Bytes)
    requires Runnable(scale, before) && GoesOn(base, before) && Idle(Run(scale, before), id, key)
    requires Run(scale, before).sessions[id].sender == Sending(u)
    requires n < |Run(scale, before).sessions[id].others| && Run(scale, before).sessions[id].others[n] == Waiting
    requires u <= k && k * UNIT_LEN < |Run(scale, before).tasks[key].file|
    ensures Runnable(scale, steps) && GoesOn(base, steps) && key in Run(scale, steps).tasks
    ensures var t, t' := Run(scale, before).tasks[key], Run(scale, steps).tasks[key];
            && t'.done && t'.file == t.file && t'.original == t.original
            && Untouched(t.local, stored, k) && t'.local == Overlay(stored, t.file, k + 1)
  {
    var pumped := Pump(scale, base, before, id, key, u, k);
    stored := Run(scale, pumped).tasks[key].local;
    AfterUnit(stored, Run(scale, pumped).tasks[key].file, k);
    var held := Fetch(scale, base, pumped, id, key);
    var switched := Go(scale, base, held, Switch(id, n));
    steps := Drive(scale, base, switched, id, key);
  }

  /** What the local file should be in the end. */
  ghost predicate IsRight(result: Bytes, file: Bytes, local: Bytes) {
    result == file + Tail(local, |file|)
  }

  /** If the local file is too short, holding back the last unit leaves it too short. */
  lemma LastUnitMissing(file: Bytes, local: Bytes, stored: Bytes, k: nat)
    requires |local| < |file| && k * UNIT_LEN < |file| <= (k + 1) * UNIT_LEN && Untouched(local, stored, k)
    ensures !IsRight(Overlay(stored, file, k + 1), file, local)
  {
  }

  /** If it differs from the server's in unit `k`, holding that one back leaves the difference. */
  lemma UnitMissing(file: Bytes, local: Bytes, stored: Bytes, k: nat, i: nat)
    requires |local| >= |file| > i && local[i] != file[i] && Untouched(local, stored, k)
    requires k * UNIT_LEN <= i < (k + 1) * UNIT_LEN
    ensures !IsRight(Overlay(stored, file, k + 1), file, local)
  {
    assert (file + Tail(local, |file|))[i] == file[i];
    assert Overlay(stored, file, k + 1)[i] == stored[i];
  }

  /** Where a local file without the server's file in front of it falls short. */
  lemma Shortfall(file: Bytes, local: Bytes) returns (i: nat)
    requires !(file <= local)
    ensures i < |file| && (|local| >= |file| ==> local[i] != file[i])
    ensures |local| < |file| ==> i == |file| - 1
  {
    if |local| < |file| {
      i := |file| - 1;
    } else {
      i :| 0 <= i < |file| && local[i] != file[i];
    }
  }

  /** A download with a second writer waiting can lose something, if there is something to lose. */
  lemma CanLose(scale: nat, before: seq<Step>, id: FileId, key: Key, u: nat, n: nat) returns (steps: seq<Step>)
    requires Runnable(scale, before) && Idle(Run(scale, before), id, key)
    requires Run(scale, before).sessions[id].sender == Sending(u)
    requires n < |Run(scale, before).sessions[id].others| && Run(scale, before).sessions[id].others[n] == Waiting
    requires !(Run(scale, before).tasks[key].file <= Run(scale, before).tasks[key].local)
    ensures Runnable(scale, steps) && GoesOn(before, steps) && key in Run(scale, steps).tasks
    ensures var t, t' := Run(scale, before).tasks[key], Run(scale, steps).tasks[key];
            t'.done && t'.file == t.file && t'.original == t.original && !IsRight(t'.local, t.file, t.local)
  {
    var t := Run(scale, before).tasks[key];
    var i := Shortfall(t.file, t.local);
    var k := i / UNIT_LEN;
    if u <= k {
      var stored;
      steps, stored := HoldBack(scale, before, before, id, key, u, k, n);
      if |t.local| < |t.file| {
        LastUnitMissing(t.file, t.local, stored, k);
      } else {
        UnitMissing(t.file, t.local, stored, k, i);
      }
    } else {
      steps := Drive(scale, before, before, id, key);
      ReplayStream(t.local, t.file, u);
      BelowStart(t.file, t.local, u, i);
    }
  }

  lemma BelowStart(file: Bytes, local: Bytes, u: nat, i: nat)
    requires i < |file| && i < u * UNIT_LEN && (|local| >= |file| ==> local[i] != file[i])
    requires |local| < |file| ==> i == |file| - 1
    ensures !IsRight(Overlay(local, file, u), file, local)
  {
    if |local| >= |file| {
      assert (file + Tail(local, |file|))[i] == file[i];
    }
  }

  // ---------------------------------------------------------------- nothing to lose

  /** A unit that says what the server's file says. */
  ghost predicate Genuine(unit: Unit, file: Bytes) {
    unit.isEof
    || (unit.unitId * UNIT_LEN < |file|
        && unit.body == file[unit.unitId * UNIT_LEN..Min((unit.unitId + 1) * UNIT_LEN, |file|)])
  }

  ghost predicate AllGenuine(units: seq<Unit>, file: Bytes) {
    forall i :: 0 <= i < |units| ==> Genuine(units[i], file)
  }

  ghost predicate WriterGenuine(writer: Writer, file: Bytes) {
    writer.Holding? ==> Genuine(writer.unit, file)
  }

  lemma GenuineWrite(unit: Unit, file: Bytes, local: Bytes)
    requires Genuine(unit, file) && !unit.isEof && file <= local
    ensures WriteAt(local, unit.unitId * UNIT_LEN, unit.body) == local
  {
  }

  lemma EmitGenuine(file: Bytes, sender: Sender)
    requires !sender.Ended?
    ensures Genuine(Emit(file, sender).0, file)
  {
    if sender.Sending? && 0 < |file| - sender.unitId * UNIT_LEN < UNIT_LEN {
      assert file[sender.unitId * UNIT_LEN..|file|] == file[sender.unitId * UNIT_LEN..];
    }
  }

  /** All that is on the way to the local file, and in the hands of any writer, is genuine. */
  ghost predicate SessionGenuine(s: State, id: FileId, file: Bytes)
    requires id in s.sessions
  {
    var d := s.sessions[id];
    AllGenuine(Inbound(s.channel, id), file) && AllGenuine(d.queue, file) && HandsGenuine(d, file)
  }

  ghost predicate HandsGenuine(d: Session, file: Bytes) {
    WriterGenuine(d.writer, file) && forall n :: 0 <= n < |d.others| ==> WriterGenuine(d.others[n], file)
  }

  ghost predicate Harmless(s: State, id: FileId, key: Key, file: Bytes, local: Bytes) {
    && WellFormed(s) && key in s.tasks && s.tasks[key].file == file && s.tasks[key].local == local
    && (!s.tasks[key].done ==> id in s.sessions && s.sessions[id].key == key && SessionGenuine(s, id, file))
  }

  lemma HarmlessTask(s: State, step: Step, id: FileId, key: Key, file: Bytes, local: Bytes)
    requires Harmless(s, id, key, file, local) && file <= local && Enabled(s, step)
    requires !Goodbye(step, id) && !(step.Create? && step.key == key)
    ensures var s' := Apply(s, step); key in s'.tasks && s'.tasks[key].file == file && s'.tasks[key].local == local
  {
    if step.Write? && s.sessions[step.id].key == key {
      GenuineWrite(s.sessions[id].writer.unit, file, local);
    }
  }

  lemma HarmlessSession(s: State, step: Step, id: FileId, key: Key, file: Bytes, local: Bytes)
    requires Harmless(s, id, key, file, local) && Enabled(s, step) && !Goodbye(step, id) && !s.tasks[key].done
    requires key in Apply(s, step).tasks && !Apply(s, step).tasks[key].done
    ensures var s' := Apply(s, step); id in s'.sessions && s'.sessions[id].key == key && SessionGenuine(s', id, file)
  {
    if step.Receive? {
      ReceivedGenuine(s, id, file);
    } else {
      InHandGenuine(s, step, id, file);
      OnTheWayGenuine(s, step, id, file);
    }
  }

  lemma InHandGenuine(s: State, step: Step, id: FileId, file: Bytes)
    requires Enabled(s, step) && id in s.sessions && SessionGenuine(s, id, file)
    requires !Goodbye(step, id) && !step.Receive? && !(step.Release? && step.id == id)
    ensures id in Apply(s, step).sessions
    ensures var d, d' := s.sessions[id], Apply(s, step).sessions[id];
            d'.key == d.key && HandsGenuine(d', file) && AllGenuine(d'.queue, file)
  {
  }

  lemma OnTheWayGenuine(s: State, step: Step, id: FileId, file: Bytes)
    requires Enabled(s, step) && id in s.sessions && !step.Receive? && !Goodbye(step, id)
    requires AllGenuine(Inbound(s.channel, id), file)
    requires step.Send? && step.id == id ==> Live(s, id) && s.tasks[s.sessions[id].key].file == file
    ensures AllGenuine(Inbound(Apply(s, step).channel, id), file)
  {
    if step.Send? {
      var e := s.sessions[step.id];
      EmitGenuine(s.tasks[e.key].file, e.sender);
      InboundAppend(s.channel, Message(step.id, Emit(s.tasks[e.key].file, e.sender).0), id);
    } else if step.Stop? || (step.Finish? && step.id != id) {
      LastWordsElsewhere(s, step.id, step.lastWords, id);
    } else if step.Finish? {
      LastWordsGenuine(s, id, step.lastWords, file);
    }
  }

  lemma LastWordsGenuine(s: State, id: FileId, lastWords: bool, file: Bytes)
    requires id in s.sessions && AllGenuine(Inbound(s.channel, id), file)
    ensures AllGenuine(Inbound(s.channel + LastWords(s, id, lastWords), id), file)
  {
    if LastWords(s, id, lastWords) == [] {
      assert s.channel + [] == s.channel;
    } else {
      InboundAppend(s.channel, Message(id, EOF_UNIT), id);
    }
  }

  lemma ReceivedGenuine(s: State, id: FileId, file: Bytes)
    requires Enabled(s, Receive) && id in s.sessions && SessionGenuine(s, id, file)
    ensures id in Apply(s, Receive).sessions && SessionGenuine(Apply(s, Receive), id, file)
    ensures Apply(s, Receive).sessions[id].key == s.sessions[id].key
  {
    var m, rest := s.channel[0], Inbound(s.channel[1..], id);
    if m.fileId == id {
      assert Inbound(s.channel, id) == [m.unit] + rest;
      assert forall i :: 0 <= i < |rest| ==> rest[i] == Inbound(s.channel, id)[i + 1];
      assert Inbound(s.channel, id)[0] == m.unit;
    } else {
      assert Inbound(s.channel, id) == rest;
    }
  }

  lemma HarmlessStep(s: State, step: Step, id: FileId, key: Key, file: Bytes, local: Bytes)
    requires Harmless(s, id, key, file, local) && file <= local && Enabled(s, step)
    requires !Goodbye(step, id) && !(step.Create? && step.key == key)
    ensures Harmless(Apply(s, step), id, key, file, local)
  {
    WellFormedStep(s, step);
    HarmlessTask(s, step, id, key, file, local);
    if !Apply(s, step).tasks[key].done {
      if s.tasks[key].done {
        DoneStays(s, step, key);
      }
      HarmlessSession(s, step, id, key, file, local);
    }
  }

  lemma DoneStays(s: State, step: Step, key: Key)
    requires Enabled(s, step) && key in s.tasks && s.tasks[key].done && key in Apply(s, step).tasks
    requires !(step.Create? && step.key == key) && !step.Crash?
    ensures Apply(s, step).tasks[key].done
  {
  }

  lemma {:induction false} HarmlessRun(scale: nat, base: seq<Step>, steps: seq<Step>, id: FileId, key: Key, file: Bytes, local: Bytes)
    requires Runnable(scale, base) && Runnable(scale, steps) && file <= local && base <= steps
    requires Harmless(Run(scale, base), id, key, file, local)
    requires forall i :: |base| <= i < |steps| ==> !Goodbye(steps[i], id) && !(steps[i].Create? && steps[i].key == key)
    ensures Harmless(Run(scale, steps), id, key, file, local)
    decreases |steps|
  {
    if |steps| == |base| {
      assert steps == base;
    } else {
      var front := steps[..|steps| - 1];
      HarmlessRun(scale, base, front, id, key, file, local);
      HarmlessStep(Run(scale, front), steps[|steps| - 1], id, key, file, local);
    }
  }

  // ---------------------------------------------------------------- exactly when a late start is safe

  /** A start at an id that writers have still to leave, the `n`-th of them waiting, with nothing
      in the way. */
  ghost predicate LateStart(s: State, step: Step, n: nat) {
    && step.Start? && Enabled(s, step) && step.id in s.leaving && s.channel == []
    && s.leaving[step.id].queue == []
    && n < |s.leaving[step.id].writers| && s.leaving[step.id].writers[n] == Waiting
  }

  /** None of them holds a unit of an earlier file. */
  ghost predicate EmptyHands(s: State, id: FileId)
    requires id in s.leaving
  {
    forall n :: 0 <= n < |s.leaving[id].writers| ==> !s.leaving[id].writers[n].Holding?
  }

  /** A run that goes on from `base` without crash and without stopping `id`, and finishes the
      task that was started. */
  ghost predicate Ends(scale: nat, base: seq<Step>, steps: seq<Step>, id: FileId, key: Key) {
    FinishedBy(scale, base, steps, id, key)
    && forall i :: |base| <= i < |steps| ==> !(steps[i].Create? && steps[i].key == key)
  }

  ghost predicate AlwaysRight(scale: nat, base: seq<Step>, id: FileId, key: Key, file: Bytes, local: Bytes) {
    forall steps :: Ends(scale, base, steps, id, key) ==> IsRight(Run(scale, steps).tasks[key].local, file, local)
  }

  /** The state behind a late start. */
  lemma Started(s: State, step: Step, n: nat)
    requires LateStart(s, step, n)
    ensures var s', t := Apply(s, step), Opened(s.tasks[step.key], step.path, step.found);
            && Idle(s', step.id, step.key)
            && s'.sessions[step.id].sender == Sending(ResumeUnit(t.recorded, s.scale))
            && s'.sessions[step.id].others == s.leaving[step.id].writers
            && s'.tasks[step.key].file == t.file && s'.tasks[step.key].local == t.local
            && s'.tasks[step.key].original == t.original && !s'.tasks[step.key].done
  {
  }

  lemma {:induction false} LateStartLoses(scale: nat, before: seq<Step>, step: Step, n: nat) returns (steps: seq<Step>)
    requires Runnable(scale, before) && LateStart(Run(scale, before), step, n)
    requires var t := Opened(Run(scale, before).tasks[step.key], step.path, step.found); !(t.file <= t.local)
    ensures Runnable(scale, steps) && GoesOn(before + [step], steps) && step.key in Run(scale, steps).tasks
    ensures var t, t' := Opened(Run(scale, before).tasks[step.key], step.path, step.found), Run(scale, steps).tasks[step.key];
            t'.done && t'.file == t.file && t'.original == t.original && !IsRight(t'.local, t.file, t.local)
  {
    var s := Run(scale, before);
    var t := Opened(s.tasks[step.key], step.path, step.found);
    Started(s, step, n);
    RunSnoc(scale, before, step);
    steps := CanLose(scale, before + [step], step.id, step.key, ResumeUnit(t.recorded, s.scale), n);
  }

  lemma {:induction false} LateStartHarmless(scale: nat, before: seq<Step>, step: Step, n: nat, steps: seq<Step>)
    requires Runnable(scale, before) && LateStart(Run(scale, before), step, n) && EmptyHands(Run(scale, before), step.id)
    requires Ends(scale, before + [step], steps, step.id, step.key)
    requires var t := Opened(Run(scale, before).tasks[step.key], step.path, step.found); t.file <= t.local
    ensures var t := Opened(Run(scale, before).tasks[step.key], step.path, step.found);
            IsRight(Run(scale, steps).tasks[step.key].local, t.file, t.local)
  {
    var s := Run(scale, before);
    var t := Opened(s.tasks[step.key], step.path, step.found);
    Started(s, step, n);
    RunSnoc(scale, before, step);
    WellFormedRun(scale, before + [step]);
    HarmlessRun(scale, before + [step], steps, step.id, step.key, t.file, t.local);
    assert t.local == t.local[..|t.file|] + t.local[|t.file|..];
  }

  /** Wherever in a run a start takes an id that a waiting writer has still to leave: every
      continuation that finishes the task ends with the right file exactly when the local file
      has the server's in front already, so that there is nothing to lose. */
  lemma {:induction false} LateStartRightExactly(scale: nat, before: seq<Step>, step: Step, n: nat)
    requires Runnable(scale, before) && LateStart(Run(scale, before), step, n) && EmptyHands(Run(scale, before), step.id)
    ensures var t := Opened(Run(scale, before).tasks[step.key], step.path, step.found);
            AlwaysRight(scale, before + [step], step.id, step.key, t.file, t.local) <==> t.file <= t.local
  {
    var t := Opened(Run(scale, before).tasks[step.key], step.path, step.found);
    if t.file <= t.local {
      forall steps | Ends(scale, before + [step], steps, step.id, step.key)
        ensures IsRight(Run(scale, steps).tasks[step.key].local, t.file, t.local)
      {
        LateStartHarmless(scale, before, step, n, steps);
      }
    } else {
      var steps := LateStartLoses(scale, before, step, n);
      assert Ends(scale, before + [step], steps, step.id, step.key);
    }
  }

  // ---------------------------------------------------------------- such starts happen

  /** No manual stop and no crash. */
  ghost predicate Calm(steps: seq<Step>) {
    forall i :: 0 <= i < |steps| ==> !steps[i].Stop? && !steps[i].Crash?
  }

  /** The id is free, and a writer still runs on it. */
  ghost predicate Vacated(s: State, id: FileId) {
    s.sessions == map[] && s.leaving == map[id := Left([], [Waiting])] && s.channel == [] && s.locked == {}
  }

  lemma EofReleases(scale: nat, before: seq<Step>, id: FileId, key: Key) returns (steps: seq<Step>)
    requires Runnable(scale, before)
    requires var s := Run(scale, before);
             && s == State(scale, s.tasks, map[id := Session(key, Sending(0), [], Waiting, [])], map[], [], {}, Flushed)
             && key in s.tasks && s.tasks[key].file == []
    ensures Runnable(scale, steps) && GoesOn(before, steps) && Vacated(Run(scale, steps), id)
    ensures forall k :: k in Run(scale, before).tasks && k != key ==>
              k in Run(scale, steps).tasks && Run(scale, steps).tasks[k] == Run(scale, before).tasks[k]
  {
    var held := Fetch(scale, before, before, id, key);
    var done := Go(scale, before, held, Finish(id, false));
    assert Run(scale, done).channel == [];
    steps := Go(scale, before, done, Release(id));
    assert [] + [Waiting] == [Waiting];
    assert Run(scale, steps).sessions == map[];
    assert Run(scale, steps).leaving == map[id := Left([], [Waiting])];
  }

  /** For every file that is not empty there is a run, with nothing stopped by hand and no crash,
      in which a download started late ends wrong. */
  lemma {:induction false} LateStartCanLose(scale: nat, k1: Key, k2: Key, file: Bytes) returns (steps: seq<Step>)
    requires k1 != k2 && file != []
    ensures Runnable(scale, steps) && Calm(steps) && k2 in Run(scale, steps).tasks
    ensures var t := Run(scale, steps).tasks[k2];
            t.done && t.file == file && !IsRight(t.local, file, t.original)
  {
    var started := FirstStart(scale, k1, k2, file, []);
    var vacated := EofReleases(scale, started, 0, k1);
    steps := LateStartLoses(scale, vacated, Start(0, k2, "b", []), 0);
  }
}
