/**
 The download pipeline as a state machine.

 Every download is three threads: the server's sender, the client's receiver (one for all
 downloads, reading one socket), and the client's writer.  A run is any sequence of their
 atomic steps, together with starting, stopping and crashing.  What each download still
 carries, between the server's disk and the client's, is its `Pipe`.

 A file id is given back by the writer that met the end of the file, while that writer is still
 running; a start that takes the id before the writer is gone gets it as a second writer.  A
 start locks the mutexes of the busy ids it passes over, for good.
 */
module Pipeline {
  import opened CloudTypes
  import opened Transfer

  /** A download task as the client remembers it across restarts, and its local file.
      `path` is the file opened last and `local` what it holds, unless it is `gone`: deleted.
      `original` (what it held when the task first opened it) and `expected` (what consuming
      everything in the pipe at the last start would leave) are history. */
  datatype Task = Task(
    file: Bytes, path: Path, gone: bool, original: Bytes, local: Bytes, recorded: nat, done: bool, expected: Bytes)

  /** The last change of the checkpoint, when it took a task out and may not have reached the disk. */
  datatype Deletion = Flushed | Unflushed(key: Key, task: Task)

  datatype Sender = Sending(unitId: nat) | EofDue | Ended

  /** Between a take and the matching progress report the writer holds no lock. */
  datatype Writer = Waiting | Holding(unit: Unit) | Reporting(unitId: nat) | Stopping

  /** A file id in use: the writer whose turn it is, and others on the same buffer. */
  datatype Session = Session(key: Key, sender: Sender, queue: seq<Unit>, writer: Writer, others: seq<Writer>)

  /** What remains at a file id that has been given back: buffered units, and writers that have
      not looked at the stop flag since. */
  datatype Left = Left(queue: seq<Unit>, writers: seq<Writer>)

  datatype State = State(
    scale: nat,  // by which the client scales the recorded unit
    tasks: map<Key, Task>,
    sessions: map<FileId, Session>,
    leaving: map<FileId, Left>,
    channel: seq<Message>,
    locked: set<nat>,
    deletion: Deletion)

  datatype Step =
    | Create(key: Key, file: Bytes, path: Path, found: Bytes)
    | Start(id: FileId, key: Key, path: Path, found: Bytes)
    | Stick(key: Key, at: FileId)
    | Send(id: FileId)
    | Receive
    | Take(id: FileId)
    | Write(id: FileId)
    | Report(id: FileId)
    | Switch(id: FileId, n: nat)
    | Finish(id: FileId, lastWords: bool)
    | Release(id: FileId)
    | Exit(id: FileId, n: nat)
    | Stop(id: FileId, lastWords: bool, delFile: bool)
    | Crash(written: bool)

  function Init(scale: nat): State { State(scale, map[], map[], map[], [], {}, Flushed) }

  /** The unit at which the server takes a download up again. */
  function ResumeUnit(recorded: nat, scale: nat): nat { recorded * scale / UNIT_LEN }

  predicate KeyBusy(s: State, key: Key) {
    exists id :: id in s.sessions && s.sessions[id].key == key
  }

  predicate Startable(s: State, key: Key) {
    key in s.tasks && !s.tasks[key].done && !KeyBusy(s, key)
  }

  /** A start that looks at id after id arrives at `id`: those below are busy, and none is locked. */
  predicate Reaches(s: State, id: FileId) {
    forall i: FileId :: i < id ==> i in s.sessions && i !in s.locked
  }

  predicate Live(s: State, id: FileId) {
    id in s.sessions && s.sessions[id].key in s.tasks
  }

  predicate Enabled(s: State, step: Step) {
    match step
    case Create(key, _, _, _) => key !in s.tasks || (s.tasks[key].done && !KeyBusy(s, key))
    case Start(id, key, _, _) => Startable(s, key) && Reaches(s, id) && id !in s.sessions && id !in s.locked
    case Stick(key, at) => Startable(s, key) && Reaches(s, at) && at in s.locked
    case Send(id) => Live(s, id) && !s.sessions[id].sender.Ended?
    case Receive => s.channel != [] && s.channel[0].fileId !in s.locked
    case Take(id) => Live(s, id) && s.sessions[id].writer.Waiting? && s.sessions[id].queue != [] && id !in s.locked
    case Write(id) => Live(s, id) && s.sessions[id].writer.Holding? && !s.sessions[id].writer.unit.isEof
    case Report(id) => Live(s, id) && s.sessions[id].writer.Reporting?
    case Switch(id, n) => Live(s, id) && !s.sessions[id].writer.Stopping? && n < |s.sessions[id].others|
    case Finish(id, _) => Live(s, id) && s.sessions[id].writer.Holding? && s.sessions[id].writer.unit.isEof
    case Release(id) => Live(s, id) && s.sessions[id].writer.Stopping? && id !in s.locked
    case Exit(id, n) => id in s.leaving && n < |s.leaving[id].writers| && s.leaving[id].writers[n].Waiting? && id !in s.locked
    case Stop(id, _, _) => Live(s, id) && !s.sessions[id].writer.Stopping? && id !in s.locked
    case Crash(_) => true
  }

  // ---------------------------------------------------------------- what is still in flight

  /** The units on the socket that are addressed to `id`, in order. */
  function Inbound(channel: seq<Message>, id: FileId): seq<Unit> {
    if channel == [] then []
    else (if channel[0].fileId == id then [channel[0].unit] else []) + Inbound(channel[1..], id)
  }

  /** What a sender has yet to put on the socket. */
  function Remaining(file: Bytes, sender: Sender): seq<Unit> {
    match sender
    case Sending(u) => Stream(file, u)
    case EofDue => [EOF_UNIT]
    case Ended => []
  }

  function Held(writer: Writer): seq<Unit> {
    if writer.Holding? then [writer.unit] else []
  }

  /** Everything between the server's disk and the client's for one download, oldest first. */
  function Pipe(s: State, id: FileId): seq<Unit>
    requires Live(s, id)
  {
    var d := s.sessions[id];
    Held(d.writer) + d.queue + Inbound(s.channel, id) + Remaining(s.tasks[d.key].file, d.sender)
  }

  // ---------------------------------------------------------------- steps

  /** One turn of the sending loop. */
  function Emit(file: Bytes, sender: Sender): (Unit, Sender)
    requires !sender.Ended?
  {
    if sender.EofDue? || sender.unitId * UNIT_LEN >= |file| then (EOF_UNIT, Ended)
    else
      var at := sender.unitId * UNIT_LEN;
      if |file| - at < UNIT_LEN then (Unit(false, sender.unitId, file[at..]), EofDue)
      else (Unit(false, sender.unitId, file[at..at + UNIT_LEN]), Sending(sender.unitId + 1))
  }

  function SetSession(s: State, id: FileId, session: Session): State {
    s.(sessions := s.sessions[id := session])
  }

  /** The server closes its file before it stops the sender, which can make the sender emit an
      end-of-file header. */
  function LastWords(s: State, id: FileId, lastWords: bool): seq<Message>
    requires id in s.sessions
  {
    if lastWords && !s.sessions[id].sender.Ended? then [Message(id, EOF_UNIT)] else []
  }

  /** What is left behind at `id`, if any writer is. */
  function Leave(leaving: map<FileId, Left>, id: FileId, left: Left): map<FileId, Left> {
    if left.writers == [] then leaving - {id} else leaving[id := left]
  }

  function LeftAt(s: State, id: FileId): Left {
    if id in s.leaving then s.leaving[id] else Left([], [])
  }

  /** Whether opening `path` opens the file of the start before. */
  predicate SameFile(t: Task, path: Path) { path == t.path && !t.gone }

  /** The task as a start finds it: another file holds whatever it holds. */
  function Opened(t: Task, path: Path, found: Bytes): Task {
    if SameFile(t, path) then t else t.(path := path, gone := false, original := found, local := found)
  }

  /** What the checkpoint on the disk keeps of a task that was stopped, until it is flushed. */
  function Stopped(t: Task, delFile: bool): Task {
    if delFile then t.(gone := true, original := [], local := []) else t
  }

  /** The tasks a restart finds. */
  function Remembered(s: State, written: bool): map<Key, Task> {
    if s.deletion.Unflushed? && !written then s.tasks[s.deletion.key := s.deletion.task] else s.tasks
  }

  function Apply(s: State, step: Step): State
    requires Enabled(s, step)
  {
    match step
    case Create(key, file, path, found) =>
      s.(tasks := s.tasks[key := Task(file, path, false, found, found, 0, false, found)], deletion := Flushed)
    case Start(id, key, path, found) =>
      var t := Opened(s.tasks[key], path, found);
      var u := ResumeUnit(t.recorded, s.scale);
      var left := LeftAt(s, id);
      var pipe := left.queue + Inbound(s.channel, id) + Stream(t.file, u);
      s.(sessions := s.sessions[id := Session(key, Sending(u), left.queue, Waiting, left.writers)],
         tasks := s.tasks[key := t.(expected := Replay(t.local, pipe))],
         leaving := s.leaving - {id},
         locked := s.locked + Below(id),
         deletion := Flushed)
    case Stick(key, at) =>
      s.(locked := s.locked + Below(at), deletion := Flushed)
    case Send(id) =>
      var d := s.sessions[id];
      var (unit, sender) := Emit(s.tasks[d.key].file, d.sender);
      SetSession(s, id, d.(sender := sender)).(channel := s.channel + [Message(id, unit)])
    case Receive =>
      var m := s.channel[0];
      var s' := s.(channel := s.channel[1..]);
      // a receiver that finds the stop flag set drops the unit
      if m.fileId !in s.sessions || s.sessions[m.fileId].writer.Stopping? then s'
      else
        var d := s.sessions[m.fileId];
        SetSession(s', m.fileId, d.(queue := d.queue + [m.unit]))
    case Take(id) =>
      var d := s.sessions[id];
      SetSession(s, id, d.(queue := d.queue[1..], writer := Holding(d.queue[0])))
    case Write(id) =>
      var d := s.sessions[id];
      var t := s.tasks[d.key];
      var unit := d.writer.unit;
      SetSession(s, id, d.(writer := Reporting(unit.unitId)))
      .(tasks := s.tasks[d.key := t.(local := WriteAt(t.local, unit.unitId * UNIT_LEN, unit.body))])
    case Report(id) =>
      var d := s.sessions[id];
      SetSession(s, id, d.(writer := Waiting))
      .(tasks := s.tasks[d.key := s.tasks[d.key].(recorded := d.writer.unitId)], deletion := Flushed)
    case Switch(id, n) =>
      var d := s.sessions[id];
      SetSession(s, id, d.(writer := d.others[n], others := d.others[n := d.writer]))
    case Finish(id, lastWords) =>
      // the stop flag is set, the checkpoint forgets the task, and both files are closed
      var d := s.sessions[id];
      SetSession(s, id, d.(writer := Stopping, sender := Ended))
      .(tasks := s.tasks[d.key := s.tasks[d.key].(done := true)],
        channel := s.channel + LastWords(s, id, lastWords),
        deletion := Flushed)
    case Release(id) =>
      // the file id is given back, and the task list forgets the task
      var d := s.sessions[id];
      s.(sessions := s.sessions - {id}, leaving := s.leaving[id := Left(d.queue, d.others + [Waiting])],
         deletion := Flushed)
    case Exit(id, n) =>
      // the stop flag is found set: the buffer is dropped
      var writers := s.leaving[id].writers;
      s.(leaving := Leave(s.leaving, id, Left([], writers[..n] + writers[n + 1..])))
    case Stop(id, lastWords, delFile) =>
      // seeking flushes what was written before; the freed slot itself is not flushed
      var d := s.sessions[id];
      s.(tasks := s.tasks - {d.key}, sessions := s.sessions - {id},
         leaving := Leave(s.leaving, id, Left([], d.others)),
         channel := s.channel + LastWords(s, id, lastWords),
         deletion := Unflushed(d.key, Stopped(s.tasks[d.key], delFile)))
    case Crash(written) =>
      State(s.scale, Remembered(s, written), map[], map[], [], {}, Flushed)
  }

  // ---------------------------------------------------------------- runs

  predicate Runnable(scale: nat, steps: seq<Step>)
    decreases |steps|, 0
  {
    steps == [] ||
    (Runnable(scale, steps[..|steps| - 1]) && Enabled(Run(scale, steps[..|steps| - 1]), steps[|steps| - 1]))
  }

  /** The state a sequence of steps leads to. */
  function Run(scale: nat, steps: seq<Step>): State
    requires Runnable(scale, steps)
    decreases |steps|, 1
  {
    if steps == [] then Init(scale) else Apply(Run(scale, steps[..|steps| - 1]), steps[|steps| - 1])
  }

  // ---------------------------------------------------------------- how carefully a task is started

  /** What the starts of a task observe, each case in addition to those before it.
      `Alone`: no writer of an earlier download is left at the file id.
      `Quiet`: nothing addressed to the file id is on the socket.
      `Resumed`: the file is that of the last start, with the same path and not deleted, unless
      the server starts at unit 0.
      `Kept`: the file is that of the last start, unless nothing is recorded. */
  datatype Care = Alone | Quiet | Resumed | Kept

  predicate FileFits(t: Task, path: Path, scale: nat, care: Care) {
    match care
    case Alone => true
    case Quiet => true
    case Resumed => SameFile(t, path) || ResumeUnit(t.recorded, scale) == 0
    case Kept => SameFile(t, path) || t.recorded == 0
  }

  /** A step that is not a careless start of `key`. */
  predicate Careful(s: State, step: Step, key: Key, care: Care)
    requires Enabled(s, step)
  {
    step.Start? && step.key == key ==>
      && step.id !in s.leaving
      && (care != Alone ==> Inbound(s.channel, step.id) == [])
      && FileFits(s.tasks[key], step.path, s.scale, care)
  }

  predicate CarefulRun(scale: nat, steps: seq<Step>, key: Key, care: Care)
    requires Runnable(scale, steps)
    decreases |steps|
  {
    steps == [] ||
    (CarefulRun(scale, steps[..|steps| - 1], key, care)
     && Careful(Run(scale, steps[..|steps| - 1]), steps[|steps| - 1], key, care))
  }
}
