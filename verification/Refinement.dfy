/**
 The objects that carry out the steps of the state machine: the ring of each file id, the local
 file, and the checkpoint with its task list.
 */
module Refinement {
  import opened CloudTypes
  import opened Transfer
  import opened Pipeline
  import opened PipelineProofs
  import opened UnitRing
  import opened FileWriter
  import opened Checkpoint
  import opened DownloadTasks
  import opened FileIdPool

  // ---------------------------------------------------------------- the ring of a file id

  /** The ring holds what the state machine says is buffered at `id`, and its flags tell whether
      the id is in use and whether its writers are to stop. */
  ghost predicate Represents(info: DwldFileInfo, s: State, id: FileId)
    reads info, info.head, info.repr
  {
    && info.Valid()
    && if id in s.sessions
       then info.isUsing && info.isStopWriteFileThr == s.sessions[id].writer.Stopping? && info.pending == s.sessions[id].queue
       else !info.isUsing && info.isStopWriteFileThr && info.pending == LeftAt(s, id).queue
  }

  method StartStep(info: DwldFileInfo, ghost s: State, ghost step: Step)
    requires step.Start? && Enabled(s, step)
    requires info.Valid() && !info.isUsing && info.pending == LeftAt(s, step.id).queue
    modifies info`isStopWriteFileThr, info`isUsing
    ensures Represents(info, Apply(s, step), step.id)
  {
    info.StartDwld();
  }

  /** A unit arrives, to be buffered or dropped. */
  method ReceiveStep(info: DwldFileInfo, unit: Unit, ghost s: State, ghost id: FileId)
    requires Represents(info, s, id) && Enabled(s, Receive) && s.channel[0] == Message(id, unit)
    modifies info`nodes, info`unused, info`pending, info`repr, info.head, info.repr
    ensures Represents(info, Apply(s, Receive), id)
  {
    var ret := info.SaveDataToBuffer(unit);
  }

  method TakeStep(info: DwldFileInfo, ghost s: State, ghost id: FileId) returns (taken: Taken)
    requires Represents(info, s, id) && Enabled(s, Take(id))
    modifies info`nodes, info`unused, info`pending, info.head, info.repr
    ensures Represents(info, Apply(s, Take(id)), id)
    ensures taken.Got? && Apply(s, Take(id)).sessions[id].writer == Holding(taken.unit)
  {
    taken := info.TakeOldest();
  }

  method FinishStep(info: DwldFileInfo, ghost s: State, ghost step: Step)
    requires step.Finish? && Represents(info, s, step.id) && Enabled(s, step)
    modifies info`isStopWriteFileThr
    ensures Represents(info, Apply(s, step), step.id)
  {
    info.SetStop();
  }

  method ReleaseStep(info: DwldFileInfo, ghost s: State, ghost id: FileId)
    requires Represents(info, s, id) && Enabled(s, Release(id))
    modifies info`isStopWriteFileThr, info`isUsing
    ensures Represents(info, Apply(s, Release(id)), id)
  {
    var ret := info.StopDwld();
  }

  method ExitStep(info: DwldFileInfo, ghost s: State, ghost step: Step)
    requires step.Exit? && Represents(info, s, step.id) && Enabled(s, step) && step.id !in s.sessions
    modifies info, info.head
    ensures Represents(info, Apply(s, step), step.id)
  {
    info.DropAll();
  }

  /** A manual stop waits until the writer has dropped the buffer. */
  method StopStep(info: DwldFileInfo, ghost s: State, ghost step: Step)
    requires step.Stop? && Represents(info, s, step.id) && Enabled(s, step)
    modifies info, info.head
    ensures Represents(info, Apply(s, step), step.id)
  {
    info.SetStop();
    info.DropAll();
  }

  // ---------------------------------------------------------------- the pool of file ids

  /** Which ids are in use, for which keys, and which mutexes stay locked. */
  ghost predicate Pools(files: DwldFiles, s: State)
    reads files, files.isUsing, files.keys
  {
    && files.Valid() && files.locked == s.locked
    && forall i: FileId :: (files.isUsing[i] <==> i in s.sessions) && (i in s.sessions ==> files.keys[i] == s.sessions[i].key)
  }

  /** A start takes an id, or finds none, or waits for ever, as the state machine says. */
  method PoolStep(files: DwldFiles, key: Key, ghost s: State, ghost path: Path, ghost found: Bytes)
      returns (r: StartResult)
    requires Pools(files, s) && Startable(s, key)
    modifies files`locked, files.isUsing, files.keys
    ensures r.Started? ==>
              r.fileId < TASK_MAX_NUM && Enabled(s, Start(r.fileId, key, path, found))
              && Pools(files, Apply(s, Start(r.fileId, key, path, found)))
    ensures r.Stuck? ==>
              r.fileId < TASK_MAX_NUM && Enabled(s, Stick(key, r.fileId)) && Pools(files, Apply(s, Stick(key, r.fileId)))
    ensures r.Refused? ==> r.ret == -3 && forall i: FileId :: i in s.sessions
  {
    ghost var flags := files.isUsing[..];
    assert !files.Busy(key);
    r := files.CliDataStartDwld(key, true);
    assert forall i: FileId :: i < FirstFreeId(flags) ==> flags[i];
  }

  // ---------------------------------------------------------------- the local file

  /** What the writer does with a unit is a write and a report. */
  method WriteStep(local: LocalFile, unit: Unit, ghost s: State, ghost id: FileId)
    requires Enabled(s, Write(id)) && s.sessions[id].writer == Holding(unit)
    requires local.contents == s.tasks[s.sessions[id].key].local
    modifies local
    ensures Enabled(Apply(s, Write(id)), Report(id))
    ensures var t := Apply(Apply(s, Write(id)), Report(id)).tasks[s.sessions[id].key];
            local.contents == t.local && local.recorded == t.recorded
  {
    local.WriteFile(unit);
  }

  // ---------------------------------------------------------------- checkpoint and task list

  /** The tasks that are not done are remembered, with the recorded unit. */
  ghost predicate Remembers(list: seq<TaskNode>, s: State) {
    forall key ::
      match Lookup(list, key)
      case NotFound => key !in s.tasks || s.tasks[key].done
      case Found(node) => key in s.tasks && !s.tasks[key].done && node.info.unitId == s.tasks[key].recorded
  }

  /** So they are in the task list, and in what has reached the disk, where a task may remain
      whose deletion has not. */
  ghost predicate Tracks(tasks: DwldTasks, s: State)
    reads tasks
  {
    tasks.Valid() && Remembers(tasks.list, s) && Remembers(tasks.flushed, s.(tasks := Remembered(s, false)))
  }

  /** The task found first by this file id is that of its download. */
  ghost predicate Knows(list: seq<TaskNode>, s: State, id: FileId) {
    Live(s, id) && IndexOfId(list, id) < |list| && list[IndexOfId(list, id)].info.key == s.sessions[id].key
  }

  /** What is remembered of each task. */
  lemma RemembersAlike(list: seq<TaskNode>, s: State, s': State)
    requires Remembers(list, s) && s'.tasks.Keys == s.tasks.Keys
    requires forall key :: key in s.tasks ==>
               s'.tasks[key].done == s.tasks[key].done && s'.tasks[key].recorded == s.tasks[key].recorded
    ensures Remembers(list, s')
  {
  }

  /** Setting a task running changes nothing that is remembered of it. */
  lemma RemembersRunning(before: seq<TaskNode>, list: seq<TaskNode>, s: State, key: Key)
    requires Remembers(before, s) && Lookup(before, key).Found?
    requires forall k :: k != key ==> Lookup(list, k) == Lookup(before, k)
    requires Lookup(list, key).Found? && Lookup(list, key).node.info.unitId == Lookup(before, key).node.info.unitId
    ensures Remembers(list, s)
  {
  }

  lemma RemembersNew(before: seq<TaskNode>, list: seq<TaskNode>, s: State, step: Step)
    requires step.Create? && Enabled(s, step) && Remembers(before, s)
    requires forall k :: k != step.key ==> Lookup(list, k) == Lookup(before, k)
    requires Lookup(list, step.key).Found? && Lookup(list, step.key).node.info.unitId == 0
    ensures Remembers(list, Apply(s, step))
  {
  }

  /** A start changes nothing that is remembered of any task. */
  lemma StartRemembers(list: seq<TaskNode>, s: State, start: Step)
    requires start.Start? && Enabled(s, start) && Remembers(list, s)
    ensures var s' := Apply(s, start);
            && Remembers(list, s') && s'.deletion == Flushed
            && s'.sessions[start.id].sender == Sending(ResumeUnit(s.tasks[start.key].recorded, s.scale))
  {
    RemembersAlike(list, s, Apply(s, start));
  }

  lemma FinishRemembers(before: seq<TaskNode>, list: seq<TaskNode>, s: State, step: Step, key: Key)
    requires step.Finish? && Enabled(s, step) && s.sessions[step.id].key == key && Remembers(before, s)
    requires forall k :: Lookup(list, k) == if k == key then NotFound else Lookup(before, k)
    ensures Remembers(list, Apply(s, step)) && Apply(s, step).deletion == Flushed
  {
  }

  /** A new task: one call creates it and yields the offset of its first start, which is 0. */
  method NewTaskStep(tasks: DwldTasks, fileLength: nat, key: Key, path: Path, ghost s: State, ghost create: Step, ghost start: Step)
      returns (ret: int, startOffset: nat)
    requires create.Create? && create.key == key && Enabled(s, create)
    requires start.Start? && start.key == key && Enabled(Apply(s, create), start)
    requires Tracks(tasks, s)
    modifies tasks
    ensures ret == 0 ==>
              var s' := Apply(Apply(s, create), start);
              Tracks(tasks, s') && startOffset == 0 && s'.sessions[start.id].sender == Sending(startOffset / UNIT_LEN)
    ensures ret != 0 ==> Tracks(tasks, s)
  {
    ghost var before, created := tasks.list, Apply(s, create);
    assert Lookup(before, key) == NotFound;
    ret, startOffset := tasks.GetOneDwldNode(key, fileLength, path);
    if ret == 0 {
      RemembersNew(before, tasks.list, s, create);
      StartRemembers(tasks.list, created, start);
    }
  }

  /** A known task: the offset it asks for leads the server to the unit at which the state machine
      starts. */
  method ResumeStep(tasks: DwldTasks, fileLength: nat, key: Key, path: Path, ghost s: State, ghost start: Step)
      returns (ret: int, startOffset: nat)
    requires start.Start? && start.key == key && Enabled(s, start) && s.scale == OFFSET_SCALE
    requires Tracks(tasks, s)
    modifies tasks
    ensures ret == 0 ==>
              var s' := Apply(s, start);
              Tracks(tasks, s') && s'.sessions[start.id].sender == Sending(startOffset / UNIT_LEN)
    ensures ret != 0 ==> Tracks(tasks, s)
  {
    ghost var before := tasks.list;
    assert Lookup(before, key).Found?;
    ret, startOffset := tasks.GetOneDwldNode(key, fileLength, path);
    if ret == 0 {
      RemembersRunning(before, tasks.list, s, key);
      StartRemembers(tasks.list, s, start);
    }
  }

  method ReportStep(tasks: DwldTasks, unitId: nat, ghost s: State, id: FileId)
    requires Enabled(s, Report(id)) && s.sessions[id].writer == Reporting(unitId)
    requires Tracks(tasks, s) && Knows(tasks.list, s, id)
    modifies tasks
    ensures Tracks(tasks, Apply(s, Report(id)))
  {
    ghost var i := IndexOfId(tasks.list, id);
    tasks.SetDwldProgress(id, unitId, false);
    assert Remembers(tasks.list, Apply(s, Report(id)));
  }

  method FinishTaskStep(tasks: DwldTasks, ghost s: State, ghost step: Step, id: FileId)
    requires step.Finish? && step.id == id && Enabled(s, step)
    requires Tracks(tasks, s) && Knows(tasks.list, s, id)
    modifies tasks
    ensures Tracks(tasks, Apply(s, step))
  {
    ghost var before := tasks.list;
    tasks.SetDwldProgress(id, 0, true);
    FinishRemembers(before, tasks.list, s, step, s.sessions[id].key);
  }

  /** What has reached the disk is the list as it was before the stop. */
  lemma StopRemembers(before: seq<TaskNode>, s: State, step: Step)
    requires step.Stop? && WellFormed(s) && Enabled(s, step) && Remembers(before, s)
    ensures var s' := Apply(s, step); Remembers(before, s'.(tasks := Remembered(s', false)))
  {
    var s' := Apply(s, step);
    RemembersAlike(before, s, s'.(tasks := Remembered(s', false)));
  }

  method StopTaskStep(tasks: DwldTasks, key: Key, ghost s: State, ghost step: Step)
    requires step.Stop? && WellFormed(s) && Enabled(s, step) && s.sessions[step.id].key == key
    requires Tracks(tasks, s)
    modifies tasks
    ensures Tracks(tasks, Apply(s, step))
  {
    ghost var before := tasks.list;
    assert Lookup(before, key).Found? by { assert !s.tasks[key].done; }
    var ret := tasks.DelDwldNode(key);
    StopRemembers(before, s, step);
    assert Remembers(tasks.list, Apply(s, step));
  }

  /** After a crash and a restart the tasks are there that were not done, with the unit recorded
      last; a stop whose deletion had not been `written` is undone. */
  method CrashStep(tasks: DwldTasks, written: bool, ghost s: State)
    requires Tracks(tasks, s)
    modifies tasks
    ensures Tracks(tasks, Apply(s, Crash(written)))
  {
    ghost var before := if written then tasks.list else tasks.flushed;
    assert Remembers(before, s.(tasks := Remembered(s, written)));
    tasks.Restart(written);
    RemembersRestarted(before, tasks.list, s.(tasks := Remembered(s, written)));
    RemembersAlike(tasks.list, s.(tasks := Remembered(s, written)), Apply(s, Crash(written)));
  }

  lemma RemembersRestarted(before: seq<TaskNode>, list: seq<TaskNode>, s: State)
    requires Remembers(before, s) && forall key :: Lookup(list, key) == Restarted(Lookup(before, key))
    ensures Remembers(list, s)
  {
  }
}
