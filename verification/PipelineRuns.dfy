/**
 Which starts are quiet, exactly which starts lead to the right file, and what careless ones cost.
 */
module PipelineRuns {
  import opened CloudTypes
  import opened Transfer
  import opened Pipeline
  import opened PipelineProofs
  import opened PipelineResume

  lemma {:induction false} RunSnoc(scale: nat, steps: seq<Step>, step: Step)
    requires Runnable(scale, steps) && Enabled(Run(scale, steps), step)
    ensures Runnable(scale, steps + [step]) && Run(scale, steps + [step]) == Apply(Run(scale, steps), step)
    ensures forall key, care :: CarefulRun(scale, steps + [step], key, care) <==>
              CarefulRun(scale, steps, key, care) && Careful(Run(scale, steps), step, key, care)
  {
    assert (steps + [step])[..|steps + [step]| - 1] == steps;
  }

  // ---------------------------------------------------------------- without stops every start is quiet

  /** Nothing is on the way to a file id that is not in use. */
  ghost predicate NoStray(s: State) {
    forall id :: id !in s.sessions ==> Inbound(s.channel, id) == []
  }

  lemma NoStrayStep(s: State, step: Step)
    requires NoStray(s) && Enabled(s, step) && !step.Stop?
    requires forall key :: Safe(s, key, Quiet)
    ensures NoStray(Apply(s, step))
  {
    var s' := Apply(s, step);
    forall id | id !in s'.sessions
      ensures Inbound(s'.channel, id) == []
    {
      if step.Send? {
        InboundAppend(s.channel, s'.channel[|s.channel|], id);
      } else if step.Finish? {
        LastWordsElsewhere(s, step.id, step.lastWords, id);
      } else if step.Release? && step.id == id {
        assert Safe(s, s.sessions[id].key, Quiet);
      }
    }
  }

  /** As long as no download is stopped by hand and no start meets a writer of an earlier
      download, every start is quiet: finishing drains the socket of the file id, and a crash
      closes the socket. */
  lemma {:induction false} QuietWithoutStops(scale: nat, steps: seq<Step>)
    requires scale <= UNIT_LEN && Runnable(scale, steps)
    requires forall i :: 0 <= i < |steps| ==> !steps[i].Stop?
    requires forall key :: CarefulRun(scale, steps, key, Alone)
    ensures forall key :: CarefulRun(scale, steps, key, Quiet)
    ensures NoStray(Run(scale, steps))
    decreases |steps|
  {
    if steps != [] {
      var front, step := steps[..|steps| - 1], steps[|steps| - 1];
      assert forall key :: CarefulRun(scale, steps, key, Alone) ==> CarefulRun(scale, front, key, Alone);
      QuietWithoutStops(scale, front);
      forall key
        ensures Safe(Run(scale, front), key, Quiet)
      {
        SafeRun(scale, front, key, Quiet);
      }
      NoStrayStep(Run(scale, front), step);
      forall key
        ensures CarefulRun(scale, steps, key, Quiet)
      {
        assert CarefulRun(scale, steps, key, Alone) && CarefulRun(scale, front, key, Quiet);
      }
    }
  }

  /** Whether a step leaves a task at this path, with its file. */
  predicate KeepsFile(step: Step, key: Key, path: Path) {
    && ((step.Create? || step.Start?) && step.key == key ==> step.path == path)
    && !(step.Stop? && step.delFile)
  }

  /** The task, and what a crash may bring back of it, is at this path. */
  ghost predicate AtPath(s: State, key: Key, path: Path) {
    && (key in s.tasks ==> SameFile(s.tasks[key], path))
    && (s.deletion.Unflushed? && s.deletion.key == key ==> SameFile(s.deletion.task, path))
  }

  lemma PathStays(s: State, step: Step, key: Key, path: Path)
    requires WellFormed(s) && Enabled(s, step) && KeepsFile(step, key, path) && AtPath(s, key, path)
    ensures AtPath(Apply(s, step), key, path)
  {
  }

  /** As long as a task always names one path and no stop deletes files, its starts open the file
      of the start before. */
  lemma {:induction false} OnePathKept(scale: nat, steps: seq<Step>, key: Key, path: Path)
    requires scale <= UNIT_LEN && Runnable(scale, steps) && CarefulRun(scale, steps, key, Quiet)
    requires forall i :: 0 <= i < |steps| ==> KeepsFile(steps[i], key, path)
    ensures CarefulRun(scale, steps, key, Kept) && AtPath(Run(scale, steps), key, path)
    decreases |steps|
  {
    if steps != [] {
      var front, step := steps[..|steps| - 1], steps[|steps| - 1];
      OnePathKept(scale, front, key, path);
      SafeRun(scale, front, key, Quiet);
      PathStays(Run(scale, front), step, key, path);
    }
  }

  /** The usual case: nothing is stopped by hand, no start meets a writer of an earlier download,
      and the task always names one path.  Then, with any interleaving, crashes and resumptions,
      a finished download is right, and everything recorded is on the disk at any time. */
  lemma {:induction false} UsualRunsAreRight(scale: nat, steps: seq<Step>, key: Key, path: Path)
    requires scale <= UNIT_LEN && Runnable(scale, steps) && key in Run(scale, steps).tasks
    requires forall i :: 0 <= i < |steps| ==> !steps[i].Stop? && KeepsFile(steps[i], key, path)
    requires forall k :: CarefulRun(scale, steps, k, Alone)
    ensures var t := Run(scale, steps).tasks[key];
            && Agrees(t.local, t.file, t.recorded)
            && (t.done ==> t.local == t.file + Tail(t.original, |t.file|))
  {
    QuietWithoutStops(scale, steps);
    OnePathKept(scale, steps, key, path);
    SafeRun(scale, steps, key, Kept);
  }

  // ---------------------------------------------------------------- exactly which starts come out right

  /** What a start with `stale` units already in flight for its file id leads to: an end-of-file
      among them cuts the download off before its own stream, and otherwise their data is
      written first and stays wherever the server's file does not overwrite it. */
  lemma StaleOutcome(local: Bytes, stale: seq<Unit>, file: Bytes, u: nat)
    ensures Replay(local, stale + Stream(file, u)) ==
            if NoEof(stale) then Overlay(Replay(local, stale), file, u) else Replay(local, stale)
  {
    if NoEof(stale) {
      ReplayConcat(local, stale, Stream(file, u));
      ReplayStream(Replay(local, stale), file, u);
    } else {
      ReplayStopsAtEof(local, stale, Stream(file, u));
    }
  }

  /** The server sends no empty data unit. */
  ghost predicate NoEmptyData(units: seq<Unit>) {
    forall i :: 0 <= i < |units| ==> units[i].isEof || units[i].body != []
  }

  lemma {:induction false} ReplayGrows(local: Bytes, units: seq<Unit>)
    ensures |Replay(local, units)| >= |local|
    decreases |units|
  {
    if units != [] && !units[0].isEof {
      ReplayGrows(WriteAt(local, units[0].unitId * UNIT_LEN, units[0].body), units[1..]);
    }
  }

  /** Whether a start at unit `u` with `stale` units in flight ends with the right file. */
  ghost predicate EndsRight(local: Bytes, stale: seq<Unit>, file: Bytes, u: nat) {
    Replay(local, stale + Stream(file, u)) == file + Tail(local, |file|)
  }

  lemma QuietStartRight(local: Bytes, file: Bytes, u: nat)
    requires Agrees(local, file, u)
    ensures EndsRight(local, [], file, u)
  {
    assert [] + Stream(file, u) == Stream(file, u);
    ReplayStream(local, file, u);
    assert Overlay(local, file, u) == file + Tail(local, |file|);
  }

  function Filled(n: nat, b: Byte): (r: Bytes)
    ensures |r| == n && forall i :: 0 <= i < n ==> r[i] == b
  {
    seq(n, i requires 0 <= i < n => b)
  }

  /** Units in flight spoil some download, also one whose local file is right up to unit `u`. */
  lemma StaleStartWrong(stale: seq<Unit>, u: nat) returns (local: Bytes, file: Bytes)
    requires stale != [] && NoEmptyData(stale)
    ensures Agrees(local, file, u) && !EndsRight(local, stale, file, u)
  {
    if NoEof(stale) {
      local, file := [], [];
      StaleOutcome(local, stale, file, u);
      ReplayGrows(WriteAt([], stale[0].unitId * UNIT_LEN, stale[0].body), stale[1..]);
    } else {
      local := Filled(u * UNIT_LEN, 0);
      file := Filled(Max(|local|, |Replay(local, stale)|) + 1, 0);
      StaleOutcome(local, stale, file, u);
    }
  }

  /** Another local file, begun behind its start, has a hole. */
  lemma OtherFileWrong(u: nat) returns (local: Bytes, file: Bytes)
    requires u > 0
    ensures !EndsRight(local, [], file, u)
  {
    local, file := [], Filled(u * UNIT_LEN + 1, 1);
    assert [] + Stream(file, u) == Stream(file, u);
    ReplayStream(local, file, u);
    assert Overlay(local, file, u)[0] == 0 != (file + Tail(local, |file|))[0];
  }

  /** A start at unit `u` ends with the right file, whatever the server's file and the local one
      are, exactly when nothing is in flight for its file id, and either it opens the local file
      of the start before, not deleted since, which is right up to unit `u`, or `u` is 0. */
  lemma StartRightExactly(stale: seq<Unit>, u: nat, sameFile: bool)
    requires NoEmptyData(stale)
    ensures (forall file, local :: (sameFile ==> Agrees(local, file, u)) ==> EndsRight(local, stale, file, u))
            <==> stale == [] && (sameFile || u == 0)
  {
    if stale != [] {
      var local, file := StaleStartWrong(stale, u);
    } else if !sameFile && u > 0 {
      var local, file := OtherFileWrong(u);
    } else {
      forall file: Bytes, local: Bytes | sameFile ==> Agrees(local, file, u)
        ensures EndsRight(local, stale, file, u)
      {
        QuietStartRight(local, file, u);
      }
    }
  }

  lemma {:induction false} InboundData(channel: seq<Message>, id: FileId)
    requires DataOnly(channel)
    ensures NoEmptyData(Inbound(channel, id))
  {
    if channel != [] {
      assert forall i :: 0 <= i < |channel[1..]| ==> channel[1..][i] == channel[i + 1];
      InboundData(channel[1..], id);
    }
  }

  ghost predicate DataOnly(channel: seq<Message>) {
    forall i :: 0 <= i < |channel| ==> channel[i].unit.isEof || channel[i].unit.body != []
  }

  lemma DataOnlyStep(s: State, step: Step)
    requires Enabled(s, step) && DataOnly(s.channel)
    ensures DataOnly(Apply(s, step).channel)
  {
  }

  /** In every run no empty data unit is ever on the socket, so `StartRightExactly` applies to
      whatever a start finds there. */
  lemma {:induction false} ChannelCarriesData(scale: nat, steps: seq<Step>, id: FileId)
    requires Runnable(scale, steps)
    ensures DataOnly(Run(scale, steps).channel) && NoEmptyData(Inbound(Run(scale, steps).channel, id))
    decreases |steps|
  {
    if steps != [] {
      ChannelCarriesData(scale, steps[..|steps| - 1], id);
      DataOnlyStep(Run(scale, steps[..|steps| - 1]), steps[|steps| - 1]);
    }
    InboundData(Run(scale, steps).channel, id);
  }

  // ---------------------------------------------------------------- a start behind a stop

  /** A run of the code as it is in which stopping one download makes the next one, with the
      same file id, end at once with nothing received. */
  lemma {:induction false} StopThenStartCanTruncate(scale: nat, k1: Key, k2: Key) returns (steps: seq<Step>)
    requires k1 != k2
    ensures Runnable(scale, steps) && CarefulRun(scale, steps, k2, Alone) && !CarefulRun(scale, steps, k2, Quiet)
    ensures k2 in Run(scale, steps).tasks && Run(scale, steps).tasks[k2].done
    ensures Run(scale, steps).tasks[k2].file == [7] && Run(scale, steps).tasks[k2].local == []
  {
    var id: FileId := 0;
    steps := StopLeavesEof(scale, k1, k2, id);
    steps := Then(scale, steps, Create(k2, [7], "b", []));
    assert Inbound(Run(scale, steps).channel, id) != [];
    steps := Then(scale, steps, Start(id, k2, "b", []));
    steps := EofEnds(scale, steps, id, k2);
  }

  /** A download for which an end of file comes next is over. */
  lemma EofEnds(scale: nat, before: seq<Step>, id: FileId, key: Key) returns (steps: seq<Step>)
    requires Runnable(scale, before)
    requires Run(scale, before).channel == [Message(id, EOF_UNIT)] && id !in Run(scale, before).locked
    requires Live(Run(scale, before), id) && Run(scale, before).sessions[id].key == key
    requires Run(scale, before).sessions[id].queue == [] && Run(scale, before).sessions[id].writer.Waiting?
    ensures Runnable(scale, steps) && forall care :: CarefulRun(scale, steps, key, care) <==> CarefulRun(scale, before, key, care)
    ensures key in Run(scale, steps).tasks
    ensures Run(scale, steps).tasks[key] == Run(scale, before).tasks[key].(done := true)
  {
    steps := Then(scale, before, Receive);
    steps := Then(scale, steps, Take(id));
    steps := Then(scale, steps, Finish(id, false));
  }

  lemma StopLeavesEof(scale: nat, k1: Key, k2: Key, id: FileId) returns (steps: seq<Step>)
    requires k1 != k2 && id == 0
    ensures Runnable(scale, steps) && forall care :: CarefulRun(scale, steps, k2, care)
    ensures var s := Run(scale, steps); s == State(scale, map[], map[], map[], [Message(id, EOF_UNIT)], {}, s.deletion)
  {
    steps := Then(scale, [], Create(k1, [7], "a", []));
    steps := Then(scale, steps, Start(id, k1, "a", []));
    steps := Then(scale, steps, Stop(id, true, false));
  }

  lemma Then(scale: nat, before: seq<Step>, step: Step) returns (steps: seq<Step>)
    requires Runnable(scale, before) && Enabled(Run(scale, before), step)
    ensures steps == before + [step] && Runnable(scale, steps) && Run(scale, steps) == Apply(Run(scale, before), step)
    ensures forall key, care :: CarefulRun(scale, steps, key, care) <==>
              CarefulRun(scale, before, key, care) && Careful(Run(scale, before), step, key, care)
  {
    steps := before + [step];
    RunSnoc(scale, before, step);
  }

  /** Two tasks, the first one, for an empty file, started. */
  lemma FirstStart(scale: nat, k1: Key, k2: Key, file: Bytes, found: Bytes) returns (steps: seq<Step>)
    requires k1 != k2
    ensures Runnable(scale, steps) && CarefulRun(scale, steps, k1, Kept) && CarefulRun(scale, steps, k2, Kept)
    ensures forall i :: 0 <= i < |steps| ==> !steps[i].Stop? && !steps[i].Crash?
    ensures var s := Run(scale, steps);
            && s == State(scale, s.tasks, map[0 := Session(k1, Sending(0), [], Waiting, [])], map[], [], {}, Flushed)
            && k1 in s.tasks && s.tasks[k1].file == [] && !s.tasks[k1].done
            && k2 in s.tasks && s.tasks[k2] == Task(file, "b", false, found, found, 0, false, found)
  {
    var created := TwoTasks(scale, k1, k2, file, found);
    steps := Then(scale, created, Start(0, k1, "a", []));
    assert Run(scale, steps).sessions == map[0 := Session(k1, Sending(0), [], Waiting, [])];
    assert Run(scale, steps).locked == {} && Run(scale, steps).leaving == map[];
  }

  lemma TwoTasks(scale: nat, k1: Key, k2: Key, file: Bytes, found: Bytes) returns (steps: seq<Step>)
    requires k1 != k2
    ensures Runnable(scale, steps) && CarefulRun(scale, steps, k1, Kept) && CarefulRun(scale, steps, k2, Kept)
    ensures forall i :: 0 <= i < |steps| ==> !steps[i].Stop? && !steps[i].Crash?
    ensures Run(scale, steps) ==
            Init(scale).(tasks := map[k2 := Task(file, "b", false, found, found, 0, false, found), k1 := Task([], "a", false, [], [], 0, false, [])])
  {
    var first := Then(scale, [], Create(k2, file, "b", found));
    steps := Then(scale, first, Create(k1, [], "a", []));
  }
}
