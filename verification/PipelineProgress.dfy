/** Exactly when a started download can still be brought to its end. */
module PipelineProgress {
  import opened CloudTypes
  import opened Transfer
  import opened Pipeline
  import opened PipelineProofs
  import opened PipelineResume
  import opened PipelineRuns

  predicate Going(s: State, id: FileId, key: Key) {
    Live(s, id) && s.sessions[id].key == key && !s.sessions[id].writer.Stopping?
  }

  predicate HoldsEof(s: State, id: FileId)
    requires id in s.sessions
  {
    s.sessions[id].writer.Holding? && s.sessions[id].writer.unit.isEof
  }

  /** Whether something this download waits for stands at or behind place `i` of the socket. */
  predicate Awaited(s: State, id: FileId, i: nat)
    requires id in s.sessions && i < |s.channel|
  {
    !s.sessions[id].sender.Ended? || Inbound(s.channel[i..], id) != []
  }

  ghost predicate StuckAt(s: State, id: FileId, i: nat)
    requires id in s.sessions
  {
    i < |s.channel| && s.channel[i].fileId in s.locked && Awaited(s, id, i)
  }

  /** The writer waits for ever for its own mutex, or the receiver for that of a message in front
      of something this download needs. */
  ghost predicate Blocked(s: State, id: FileId)
    requires id in s.sessions
  {
    id in s.locked || exists i :: StuckAt(s, id, i)
  }

  /** The writer has the end of the file in hand, or nothing blocks the download. */
  ghost predicate Free(s: State, id: FileId)
    requires id in s.sessions
  {
    HoldsEof(s, id) || !Blocked(s, id)
  }

  // ---------------------------------------------------------------- a free download moves on

  /** Work left for one download; messages of other downloads on the socket count. */
  function Work(s: State, id: FileId): nat
    requires Live(s, id)
  {
    var d := s.sessions[id];
    5 * |Remaining(s.tasks[d.key].file, d.sender)| + 4 * |s.channel| + 3 * |d.queue|
    + match d.writer
      case Holding(_) => 2
      case Reporting(_) => 1
      case _ => 0
  }

  function WorkLeft(s: State, id: FileId): nat { if Live(s, id) then Work(s, id) else 0 }

  /** A waiting writer with nothing on the way has a sender that still has something to send. */
  lemma SenderNotEnded(s: State, id: FileId, key: Key)
    requires Safe(s, key, Quiet) && Going(s, id, key) && s.sessions[id].writer.Waiting?
    requires s.sessions[id].queue == [] && Inbound(s.channel, id) == []
    ensures !s.sessions[id].sender.Ended?
  {
    var t := s.tasks[key];
    var w :| Carries(s, id, w, Quiet);
    StreamStep(t.file, w);
    assert |Pipe(s, id)| > 0;
  }

  ghost predicate OwnStep(step: Step, id: FileId) {
    step in {Send(id), Receive, Take(id), Write(id), Report(id), Finish(id, false)}
  }

  /** Some thread of a free download can move, or clear the socket ahead of it. */
  lemma NextMove(s: State, id: FileId, key: Key) returns (step: Step)
    requires Safe(s, key, Quiet) && Going(s, id, key) && Free(s, id)
    ensures Enabled(s, step) && OwnStep(step, id)
    ensures step != Finish(id, false) ==>
              && Going(Apply(s, step), id, key) && WorkLeft(Apply(s, step), id) < WorkLeft(s, id)
              && Free(Apply(s, step), id)
    ensures step == Finish(id, false) ==> key in Apply(s, step).tasks && Apply(s, step).tasks[key].done
  {
    var d := s.sessions[id];
    forall s': State | id in s'.sessions && SameWay(s, s', id)
      ensures Blocked(s', id) == Blocked(s, id)
    {
      StaysBlocked(s, s', id);
    }
    match d.writer
    case Holding(unit) => step := if unit.isEof then Finish(id, false) else Write(id);
    case Reporting(_) => step := Report(id);
    case Waiting =>
      if d.queue != [] {
        step := Take(id);
      } else if Inbound(s.channel, id) != [] {
        step := Receive;
        FreeReceive(s, id);
      } else {
        step := Send(id);
        SenderNotEnded(s, id, key);
        EmitTakesFromStream(s.tasks[key].file, d.sender);
        FreeSend(s, id);
      }
  }

  /** The same on the way to the writer, and the same mutexes locked. */
  predicate SameWay(s: State, s': State, id: FileId)
    requires id in s.sessions && id in s'.sessions
  {
    s'.channel == s.channel && s'.locked == s.locked && s'.sessions[id].sender == s.sessions[id].sender
  }

  lemma StaysBlocked(s: State, s': State, id: FileId)
    requires id in s.sessions && id in s'.sessions && SameWay(s, s', id)
    ensures Blocked(s', id) == Blocked(s, id)
  {
    assert forall i: nat :: StuckAt(s', id, i) == StuckAt(s, id, i);
  }

  lemma FreeReceive(s: State, id: FileId)
    requires Live(s, id) && !s.sessions[id].writer.Stopping? && !Blocked(s, id) && Inbound(s.channel, id) != []
    ensures Enabled(s, Receive) && id in Apply(s, Receive).sessions && !Blocked(Apply(s, Receive), id)
  {
    assert s.channel[0..] == s.channel;
    assert !StuckAt(s, id, 0);
    var s' := Apply(s, Receive);
    forall i: nat
      ensures !StuckAt(s', id, i)
    {
      if i < |s'.channel| {
        assert s'.channel[i..] == s.channel[i + 1..];
        assert !StuckAt(s, id, i + 1);
      }
    }
  }

  lemma FreeSend(s: State, id: FileId)
    requires Live(s, id) && !Blocked(s, id) && !s.sessions[id].sender.Ended?
    ensures id in Apply(s, Send(id)).sessions && !Blocked(Apply(s, Send(id)), id)
  {
    var s' := Apply(s, Send(id));
    forall i: nat
      ensures !StuckAt(s', id, i)
    {
      assert !StuckAt(s, id, i);
    }
  }

  // ---------------------------------------------------------------- a blocked download stays blocked

  /** Messages added behind leave what is awaited awaited. */
  lemma AwaitedAppend(channel: seq<Message>, more: seq<Message>, i: nat, id: FileId)
    requires i < |channel| && |more| <= 1
    ensures Inbound(channel[i..], id) != [] ==> Inbound((channel + more)[i..], id) != []
    ensures more != [] && more[0].fileId == id ==> Inbound((channel + more)[i..], id) != []
  {
    assert (channel + more)[i..] == channel[i..] + more;
    if more == [] {
      assert channel[i..] + more == channel[i..];
    } else {
      assert more == [more[0]];
      InboundAppend(channel[i..], more[0], id);
    }
  }

  /** The socket with at most one message added, nothing unlocked, and a sender that ends only
      with a message. */
  ghost predicate OnlyAdds(s: State, s': State, id: FileId, more: seq<Message>)
    requires id in s.sessions && id in s'.sessions
  {
    && |more| <= 1 && s'.channel == s.channel + more && s.locked <= s'.locked
    && (s'.sessions[id].sender.Ended? ==>
          s.sessions[id].sender.Ended? || (more != [] && more[0].fileId == id))
  }

  lemma BlockedAdds(s: State, s': State, id: FileId, more: seq<Message>)
    requires id in s.sessions && id in s'.sessions && OnlyAdds(s, s', id, more) && Blocked(s, id)
    ensures Blocked(s', id)
  {
    if id !in s.locked {
      var i: nat :| StuckAt(s, id, i);
      AwaitedAppend(s.channel, more, i, id);
      assert StuckAt(s', id, i);
    }
  }

  /** What a step adds to the socket. */
  function Added(s: State, step: Step): seq<Message>
    requires Enabled(s, step)
  {
    match step
    case Send(id) => [Message(id, Emit(s.tasks[s.sessions[id].key].file, s.sessions[id].sender).0)]
    case Finish(id, lastWords) => LastWords(s, id, lastWords)
    case Stop(id, lastWords, _) => LastWords(s, id, lastWords)
    case _ => []
  }

  ghost predicate Goodbye(step: Step, id: FileId) {
    step.Crash? || (step.Stop? && step.id == id)
  }

  lemma BlockedStep(s: State, step: Step, id: FileId, key: Key)
    requires WellFormed(s) && Enabled(s, step) && Going(s, id, key) && Blocked(s, id) && !HoldsEof(s, id)
    requires !Goodbye(step, id)
    ensures Going(Apply(s, step), id, key) && Blocked(Apply(s, step), id)
  {
    if step.Receive? {
      BlockedReceive(s, id);
    } else {
      StaysGoing(s, step, id, key);
      BlockedAdds(s, Apply(s, step), id, Added(s, step));
    }
  }

  lemma StaysGoing(s: State, step: Step, id: FileId, key: Key)
    requires WellFormed(s) && Enabled(s, step) && Going(s, id, key) && !HoldsEof(s, id)
    requires !Goodbye(step, id) && !step.Receive?
    ensures Going(Apply(s, step), id, key) && OnlyAdds(s, Apply(s, step), id, Added(s, step))
  {
    assert s.channel + [] == s.channel;
  }

  lemma BlockedReceive(s: State, id: FileId)
    requires Live(s, id) && Enabled(s, Receive) && Blocked(s, id)
    ensures id in Apply(s, Receive).sessions && Blocked(Apply(s, Receive), id)
  {
    if id !in s.locked {
      var i: nat :| StuckAt(s, id, i);
      assert s.channel[1..][i - 1..] == s.channel[i..];
      assert StuckAt(Apply(s, Receive), id, i - 1);
    }
  }

  /** As long as something is still to come, what the writer takes is not the end of the file. */
  lemma NoEofYet(s: State, id: FileId, key: Key)
    requires Safe(s, key, Quiet) && Going(s, id, key) && Enabled(s, Take(id)) && Blocked(s, id)
    ensures !s.sessions[id].queue[0].isEof
  {
    var d, file := s.sessions[id], s.tasks[key].file;
    var w :| Carries(s, id, w, Quiet);
    StreamCarriesFile(file, w);
    StillToCome(s, id);
    HeadIsNotLast(d.queue, Inbound(s.channel, id), Remaining(file, d.sender));
    assert Held(d.writer) + d.queue == d.queue;
  }

  lemma StillToCome(s: State, id: FileId)
    requires Live(s, id) && id !in s.locked && Blocked(s, id)
    ensures |Inbound(s.channel, id)| + |Remaining(s.tasks[s.sessions[id].key].file, s.sessions[id].sender)| > 0
  {
    var i: nat :| StuckAt(s, id, i);
    InboundSuffix(s.channel, i, id);
  }

  lemma HeadIsNotLast(a: seq<Unit>, b: seq<Unit>, c: seq<Unit>)
    requires a != [] && |b| + |c| > 0
    ensures EndsWithOnlyEof(a + b + c) ==> !a[0].isEof
  {
    var units := a + b + c;
    assert units[..|units| - 1][0] == a[0];
  }

  lemma {:induction false} InboundSuffix(channel: seq<Message>, i: nat, id: FileId)
    requires i <= |channel|
    ensures |Inbound(channel, id)| >= |Inbound(channel[i..], id)|
    decreases i
  {
    if i > 0 {
      assert channel[1..][i - 1..] == channel[i..];
      InboundSuffix(channel[1..], i - 1, id);
    } else {
      assert channel[0..] == channel;
    }
  }

  /** A blocked download whose writer does not have the end of the file in hand never gets it. */
  ghost predicate Frozen(s: State, id: FileId, key: Key) {
    Safe(s, key, Quiet) && Going(s, id, key) && !Free(s, id)
  }

  lemma FrozenStep(s: State, step: Step, id: FileId, key: Key)
    requires Frozen(s, id, key) && Enabled(s, step) && !Goodbye(step, id)
    ensures Frozen(Apply(s, step), id, key)
  {
    BlockedStep(s, step, id, key);
    SafeStep(s, step, key, Quiet);
    if step == Take(id) {
      NoEofYet(s, id, key);
    }
    NoEofInHand(s, step, id, key);
  }

  lemma NoEofInHand(s: State, step: Step, id: FileId, key: Key)
    requires Safe(s, key, Quiet) && Going(s, id, key) && !HoldsEof(s, id) && Enabled(s, step)
    requires Going(Apply(s, step), id, key) && (step == Take(id) ==> !s.sessions[id].queue[0].isEof)
    ensures !HoldsEof(Apply(s, step), id)
  {
    assert s.sessions[id].others == [];
  }

  // ---------------------------------------------------------------- main results

  /** A run that goes on from `steps` without crash and without stopping `id`, and finishes `key`. */
  ghost predicate FinishedBy(scale: nat, steps: seq<Step>, steps': seq<Step>, id: FileId, key: Key) {
    && steps <= steps' && Runnable(scale, steps')
    && (forall i :: |steps| <= i < |steps'| ==> !Goodbye(steps'[i], id))
    && key in Run(scale, steps').tasks && Run(scale, steps').tasks[key].done
  }

  ghost predicate CanBeFinished(scale: nat, steps: seq<Step>, id: FileId, key: Key) {
    exists steps' :: FinishedBy(scale, steps, steps', id, key)
  }

  lemma {:induction false} FrozenRun(scale: nat, steps: seq<Step>, steps': seq<Step>, id: FileId, key: Key)
    requires Runnable(scale, steps) && Frozen(Run(scale, steps), id, key)
    requires steps <= steps' && Runnable(scale, steps')
    requires forall i :: |steps| <= i < |steps'| ==> !Goodbye(steps'[i], id)
    ensures Frozen(Run(scale, steps'), id, key)
    decreases |steps'|
  {
    if |steps'| == |steps| {
      assert steps' == steps;
    } else {
      var front := steps'[..|steps'| - 1];
      FrozenRun(scale, steps, front, id, key);
      FrozenStep(Run(scale, front), steps'[|steps'| - 1], id, key);
    }
  }

  ghost predicate FreeRun(scale: nat, steps: seq<Step>, id: FileId, key: Key) {
    && scale <= UNIT_LEN && Runnable(scale, steps) && CarefulRun(scale, steps, key, Quiet)
    && Going(Run(scale, steps), id, key) && Free(Run(scale, steps), id)
  }

  /** One step of a run towards the end of a download. */
  lemma Advance(scale: nat, steps: seq<Step>, id: FileId, key: Key) returns (step: Step)
    requires FreeRun(scale, steps, id, key)
    ensures OwnStep(step, id) && Runnable(scale, steps + [step])
    ensures if step == Finish(id, false)
            then key in Run(scale, steps + [step]).tasks && Run(scale, steps + [step]).tasks[key].done
            else FreeRun(scale, steps + [step], id, key)
                 && WorkLeft(Run(scale, steps + [step]), id) < WorkLeft(Run(scale, steps), id)
  {
    SafeRun(scale, steps, key, Quiet);
    step := NextMove(Run(scale, steps), id, key);
    RunSnoc(scale, steps, step);
  }

  /** A free download can be brought to its end by its own threads and the receiver alone. */
  lemma {:induction false} CanFinish(scale: nat, steps: seq<Step>, id: FileId, key: Key) returns (steps': seq<Step>)
    requires FreeRun(scale, steps, id, key)
    ensures FinishedBy(scale, steps, steps', id, key)
    ensures forall i :: |steps| <= i < |steps'| ==> OwnStep(steps'[i], id)
    decreases WorkLeft(Run(scale, steps), id)
  {
    var step := Advance(scale, steps, id, key);
    steps' := steps + [step];
    if step != Finish(id, false) {
      steps' := CanFinish(scale, steps', id, key);
    }
  }

  /** At any point of any run a download (with quiet starts) can still be finished exactly when
      its writer has the end of the file in hand, or its own mutex is not locked for good and
      neither is one that the receiver must take before what the download waits for. */
  lemma {:induction false} CanFinishExactly(scale: nat, steps: seq<Step>, id: FileId, key: Key)
    requires scale <= UNIT_LEN && Runnable(scale, steps) && CarefulRun(scale, steps, key, Quiet)
    requires Going(Run(scale, steps), id, key)
    ensures CanBeFinished(scale, steps, id, key) <==> Free(Run(scale, steps), id)
  {
    SafeRun(scale, steps, key, Quiet);
    if Free(Run(scale, steps), id) {
      var steps' := CanFinish(scale, steps, id, key);
    } else if CanBeFinished(scale, steps, id, key) {
      var steps' :| FinishedBy(scale, steps, steps', id, key);
      FrozenRun(scale, steps, steps', id, key);
      assert false;
    }
  }

  /** Starting another download freezes every running one with a lower id for good, unless it
      already has the end of its file in hand. */
  lemma {:induction false} NextStartFreezes(scale: nat, steps: seq<Step>, step: Step, id: FileId, key: Key)
    requires scale <= UNIT_LEN && Runnable(scale, steps) && CarefulRun(scale, steps, key, Quiet)
    requires Going(Run(scale, steps), id, key) && !HoldsEof(Run(scale, steps), id)
    requires Enabled(Run(scale, steps), step) && step.Start? && id < step.id
    ensures Runnable(scale, steps + [step]) && !CanBeFinished(scale, steps + [step], id, key)
  {
    RunSnoc(scale, steps, step);
    CanFinishExactly(scale, steps + [step], id, key);
  }

  /** Two starts, one unit on the way in between: neither download can be finished any more. */
  lemma TwoStartsFreezeBoth(scale: nat, k1: Key, k2: Key) returns (steps: seq<Step>)
    requires scale <= UNIT_LEN && k1 != k2
    ensures Runnable(scale, steps) && CarefulRun(scale, steps, k1, Kept) && CarefulRun(scale, steps, k2, Kept)
    ensures Going(Run(scale, steps), 0, k1) && !CanBeFinished(scale, steps, 0, k1)
    ensures Going(Run(scale, steps), 1, k2) && !CanBeFinished(scale, steps, 1, k2)
  {
    steps := TwoStarts(scale, k1, k2);
    CareGrows(scale, steps, k1, Quiet, Kept);
    CareGrows(scale, steps, k2, Quiet, Kept);
    CanFinishExactly(scale, steps, 0, k1);
    CanFinishExactly(scale, steps, 1, k2);
    assert StuckAt(Run(scale, steps), 1, 0);
  }

  lemma TwoStarts(scale: nat, k1: Key, k2: Key) returns (steps: seq<Step>)
    requires k1 != k2
    ensures Runnable(scale, steps) && CarefulRun(scale, steps, k1, Kept) && CarefulRun(scale, steps, k2, Kept)
    ensures var s := Run(scale, steps);
            && Going(s, 0, k1) && Going(s, 1, k2) && s.locked == {0}
            && s.channel == [Message(0, EOF_UNIT)] && s.sessions[1].sender == Sending(0)
            && s.sessions[0].writer == Waiting && s.sessions[1].writer == Waiting
  {
    var sent := FirstSends(scale, k1, k2);
    assert Inbound(Run(scale, sent).channel, 1) == [];
    steps := Then(scale, sent, Start(1, k2, "b", []));
    assert Below(1) == {0};
  }

  lemma FirstSends(scale: nat, k1: Key, k2: Key) returns (steps: seq<Step>)
    requires k1 != k2
    ensures Runnable(scale, steps) && CarefulRun(scale, steps, k1, Kept) && CarefulRun(scale, steps, k2, Kept)
    ensures var s := Run(scale, steps);
            && Going(s, 0, k1) && s.locked == {} && s.leaving == map[] && s.sessions.Keys == {0}
            && s.channel == [Message(0, EOF_UNIT)] && s.sessions[0].writer == Waiting
            && k2 in s.tasks && s.tasks[k2] == Task([], "b", false, [], [], 0, false, []) && s.scale == scale
  {
    var started := FirstStart(scale, k1, k2, [], []);
    steps := Then(scale, started, Send(0));
  }

  /** At most the first two file ids are in use, and the second only with the first one's mutex
      locked. */
  ghost predicate TwoAtMost(s: State) {
    && (forall id :: id in s.sessions ==> id <= 1)
    && s.locked <= {0}
    && (1 in s.sessions ==> 0 in s.locked)
  }

  lemma TwoAtMostStep(s: State, step: Step)
    requires TwoAtMost(s) && Enabled(s, step)
    ensures TwoAtMost(Apply(s, step))
  {
    assert Below(0) == {} && Below(1) == {0};
  }

  /** No run ever has three downloads at a time. */
  lemma {:induction false} NeverThree(scale: nat, steps: seq<Step>)
    requires Runnable(scale, steps)
    ensures TwoAtMost(Run(scale, steps))
    decreases |steps|
  {
    if steps != [] {
      NeverThree(scale, steps[..|steps| - 1]);
      TwoAtMostStep(Run(scale, steps[..|steps| - 1]), steps[|steps| - 1]);
    }
  }

  /** As long as only the first file id is ever given out, no mutex stays locked. */
  lemma {:induction false} OneAtATime(scale: nat, steps: seq<Step>)
    requires Runnable(scale, steps)
    requires forall i :: 0 <= i < |steps| && steps[i].Start? ==> steps[i].id == 0
    ensures Run(scale, steps).locked == {}
    decreases |steps|
  {
    if steps != [] {
      OneAtATime(scale, steps[..|steps| - 1]);
      LocksNothing(Run(scale, steps[..|steps| - 1]), steps[|steps| - 1]);
    }
  }

  lemma LocksNothing(s: State, step: Step)
    requires Enabled(s, step) && s.locked == {} && (step.Start? ==> step.id == 0)
    ensures Apply(s, step).locked == {}
  {
    assert Below(0) == {};
  }

  /** Downloads that do not overlap can all be finished. */
  lemma {:induction false} OneAtATimeCanFinish(scale: nat, steps: seq<Step>, key: Key) returns (steps': seq<Step>)
    requires scale <= UNIT_LEN && Runnable(scale, steps) && CarefulRun(scale, steps, key, Quiet)
    requires forall i :: 0 <= i < |steps| && steps[i].Start? ==> steps[i].id == 0
    requires Going(Run(scale, steps), 0, key)
    ensures FinishedBy(scale, steps, steps', 0, key)
  {
    OneAtATime(scale, steps);
    steps' := CanFinish(scale, steps, 0, key);
  }
}
