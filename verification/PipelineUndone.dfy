/**
 A stop that deletes the local file, and a crash before the checkpoint is flushed: the task comes
 back with what it had recorded, and the file does not.
 */
module PipelineUndone {
  import opened CloudTypes
  import opened Transfer
  import opened Pipeline
  import opened PipelineProofs
  import opened PipelineResume
  import opened PipelineRuns
  import opened PipelineLate

  ghost predicate OnlyPath(steps: seq<Step>, path: Path) {
    forall i :: 0 <= i < |steps| && steps[i].Start? ==> steps[i].path == path
  }

  lemma FreshStart(scale: nat, key: Key, file: Bytes) returns (steps: seq<Step>)
    requires file != []
    ensures Runnable(scale, steps) && CarefulRun(scale, steps, key, Kept) && OnlyPath(steps, "a")
    ensures Idle(Run(scale, steps), 0, key) && Run(scale, steps).sessions[0].sender == Sending(0)
    ensures var t := Run(scale, steps).tasks[key]; t.file == file && t.path == "a" && !t.done
  {
    var created := Then(scale, [], Create(key, file, "a", []));
    steps := Then(scale, created, Start(0, key, "a", []));
    assert Run(scale, steps).sessions[0] == Session(key, Sending(0), [], Waiting, []);
  }

  lemma PlainKeepsPath(base: seq<Step>, steps: seq<Step>, path: Path)
    requires OnlyPath(base, path) && GoesOn(base, steps)
    ensures OnlyPath(steps, path)
  {
  }

  /** A run in which a task has recorded unit `r`. */
  lemma {:induction false} Recorded(scale: nat, key: Key, file: Bytes, r: nat) returns (steps: seq<Step>)
    requires (r + 1) * UNIT_LEN < |file|
    ensures Runnable(scale, steps) && CarefulRun(scale, steps, key, Kept) && OnlyPath(steps, "a")
    ensures Idle(Run(scale, steps), 0, key)
    ensures var t := Run(scale, steps).tasks[key]; t.file == file && t.path == "a" && !t.done && t.recorded == r
  {
    var started := FreshStart(scale, key, file);
    steps := Pump(scale, started, started, 0, key, 0, r + 1);
    CareGoesOn(scale, started, steps, key, Kept);
    PlainKeepsPath(started, steps, "a");
  }

  /** It is stopped with its local file, and a crash undoes the stop. */
  lemma Undo(scale: nat, before: seq<Step>, key: Key) returns (steps: seq<Step>)
    requires Runnable(scale, before) && CarefulRun(scale, before, key, Kept) && OnlyPath(before, "a")
    requires Idle(Run(scale, before), 0, key)
    ensures Runnable(scale, steps) && CarefulRun(scale, steps, key, Kept) && OnlyPath(steps, "a")
    ensures var s, s' := Run(scale, before), Run(scale, steps);
            && s'.sessions == map[] && s'.leaving == map[] && s'.channel == [] && s'.locked == {}
            && key in s'.tasks && s'.tasks[key] == Stopped(s.tasks[key], true)
  {
    var stopped := Then(scale, before, Stop(0, false, true));
    steps := Then(scale, stopped, Crash(false));
  }

  /** It is started again, at the same path. */
  lemma StartAgain(scale: nat, before: seq<Step>, key: Key) returns (steps: seq<Step>)
    requires Runnable(scale, before) && CarefulRun(scale, before, key, Kept) && OnlyPath(before, "a")
    requires var s := Run(scale, before);
             && s.sessions == map[] && s.leaving == map[] && s.channel == [] && s.locked == {}
             && key in s.tasks && !s.tasks[key].done && s.tasks[key].gone && s.tasks[key].path == "a"
    ensures Runnable(scale, steps) && CarefulRun(scale, steps, key, Quiet) && OnlyPath(steps, "a")
    ensures Idle(Run(scale, steps), 0, key)
    ensures var t, t' := Run(scale, before).tasks[key], Run(scale, steps).tasks[key];
            && t'.file == t.file && t'.original == [] && t'.local == []
            && Run(scale, steps).sessions[0].sender == Sending(ResumeUnit(t.recorded, scale))
  {
    ScaleStays(scale, before);
    CareGrows(scale, before, key, Quiet, Kept);
    steps := Then(scale, before, Start(0, key, "a", []));
  }

  /** The result lacks every byte below the unit at which the server took up again that is not 0. */
  lemma HoleStays(file: Bytes, u: nat, i: nat)
    requires i < |file| && i < u * UNIT_LEN && file[i] != 0
    ensures Overlay([], file, u) != file + Tail([], |file|)
  {
    assert (file + Tail([], |file|))[i] == file[i];
  }

  /** A run in which a task records unit `r`, is stopped with its local file deleted, is brought
      back by a crash because that had not been flushed, and is resumed at the same path and
      finished, every start alone and quiet: what the server does not send again is missing. */
  lemma {:induction false} UndoneStopLeavesHole(scale: nat, key: Key, file: Bytes, r: nat, i: nat)
      returns (steps: seq<Step>)
    requires (r + 1) * UNIT_LEN < |file| && i < |file| && i < ResumeUnit(r, scale) * UNIT_LEN && file[i] != 0
    ensures Runnable(scale, steps) && CarefulRun(scale, steps, key, Quiet) && OnlyPath(steps, "a")
    ensures key in Run(scale, steps).tasks
    ensures var t := Run(scale, steps).tasks[key];
            t.done && t.file == file && t.local != file + Tail(t.original, |file|)
  {
    var recorded := Recorded(scale, key, file, r);
    var undone := Undo(scale, recorded, key);
    var resumed := StartAgain(scale, undone, key);
    steps := Drive(scale, resumed, resumed, 0, key);
    CareGoesOn(scale, resumed, steps, key, Quiet);
    PlainKeepsPath(resumed, steps, "a");
    ReplayStream([], file, ResumeUnit(r, scale));
    HoleStays(file, ResumeUnit(r, scale), i);
  }
}
