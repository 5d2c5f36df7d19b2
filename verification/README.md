# Verified models of the C/C++ project collection

The repository is a collection of C and C++ projects. This Dafny project models the parts whose
correctness is hardest to see and proves what they promise, or exactly when they keep it:

* **moCloud downloads.** The server cuts a file into 1024-byte units (`Transfer.dfy`); the client
  buffers them in a ring of recycled nodes (`UnitRing.dfy`) from which a writer thread fills the
  local file (`FileWriter.dfy`). `Pipeline.dfy` is the whole as a state machine over the atomic
  steps of all threads of all downloads, with starting, stopping and crashing, the mutexes that
  stay locked, and writers that are still running when their file id is given out again.
  `PipelineProofs.dfy`, `PipelineResume.dfy`, `PipelineRuns.dfy`, `PipelineProgress.dfy`,
  `PipelineLate.dfy`, `PipelineUndone.dfy` and `PipelineOutcome.dfy` prove what its runs keep, and exactly when. `Checkpoint.dfy` and
  `DownloadTasks.dfy` are the checkpoint file and the list of tasks that mirrors it,
  `FileIdPool.dfy` the pool of file ids with its mutexes. `Refinement.dfy` shows that these
  objects carry out the steps of the state machine: a session's `queue` is a ring's `pending`,
  `recorded` is what a restart reads back, and a start takes the id the pool gives.
* **Textbook RSA** (`NumberTheory.dfy`, `Rsa.dfy`, `RsaProofs.dfy`): RSAEP and RSADP of sections
  5.1.1 and 5.1.2 of RFC 8017, from trial division and extended Euclid to the round trip.
* **The INI parser** (`IniLine.dfy`, `IniFormat.dfy`, `IniStore.dfy`, `IniProofs.dfy`).
* **Request bodies and the file list** (`Strings.dfy`, `Requests.dfy`, `FileList.dfy`) and
  **Sunday substring search** (`Sunday.dfy`).
* **A bounded display list** (`DisplayList.dfy`) and **the heartbeat sweep** over a linked list of
  clients (`ClientManager.dfy`).

Code that works by updating fields, arrays or linked nodes is modelled by classes and loops proved
against specification functions; code made of expressions is modelled by functions.

## What the proofs found

* A finished download leaves the server's file followed by whatever the local file had beyond that
  length: an existing file is opened `rb+` and never cut (cliData.c:693-704). The result equals the
  server's file exactly when the local file was not longer (`DownloadReproducesFile`).
* That needs three things of the download's own starts, whatever happens to other downloads.
  (1) No writer of an earlier download is left at the file id. At end of file the writer itself
  gives its id back (cliData.c:873-875) before it looks at its stop flag again; a start in between
  clears the flag, and two writers share the ring. `LateStartRightExactly`: wherever in a run that
  happens, some continuation ends wrong unless there is nothing to lose. (2) Nothing is on the
  socket for the file id, and (3) the file opened is that of the start before, or the server starts
  at unit 0: a known task keeps its unit and ignores a new path (moCloudClientLib.c:2466-2489), and
  it also keeps it when its file is gone. `StartRightExactly` shows that (2) and (3) are exact, for
  starts at any unit. (2) follows from (1) as long as nothing is stopped by hand
  (`QuietWithoutStops`); `StopThenStartCanTruncate` is a run with a stop.
* A manual stop frees its checkpoint record without flushing it; a crash can bring the last deleted
  task back, and no other (`DelDwldNode`, `Restart`). If the stop deleted the local file
  (moCloudClientLib.c:2757-2761), the task comes back with its recorded unit and without its file,
  and a resumption at the same path leaves a hole (`UndoneStopLeavesHole`). `CrashNeverLeavesHole`
  holds exactly but for such tasks.
* `cliDataStartDwld` (cliData.c:806-817) leaves the mutexes of the busy slots it passes over locked.
  The second start already freezes the first download, whose writer and whose units at the receiver
  wait for that mutex for ever (`NextStartFreezes`); with a unit of the first on its way the second
  one starves as well (`TwoStartsFreezeBoth`), and a third start never returns (`ThirdStartSticks`),
  so that no run has three downloads at a time (`NeverThree`).
  `CanFinishExactly` is the exact condition for a download to be finishable.
* The resume offset is scaled by `sizeof` of the unit length, 4, not by the unit length
  (moCloudClientLib.c:2488). A resumed download therefore starts again at 1/256 of what was recorded:
  too early, but never too late. The results on runs hold for every scale up to the unit length.
* The generated RSA keys work exactly when the two primes differ and neither is 23
  (`KeysWorkExactly`); key generation checks neither.
* The duplicate check for sections skips the last one, so a header may directly repeat itself
  (`ParsesExactly`, `ListAlwaysShaped`).
* A download request is read back as sent exactly when its file name holds no ", startOffset=" and
  no ", fileId=" other than one followed by the request's own id (`RequestRoundTrip`).

## Model

| member | source | states |
|---|---|---|
| Transfer.StreamCarriesFile | moProject/moCloud/moCloudServer/src/cliCtrl.cpp:39-92 | from unit u on, the units carry each byte of the file once and in order, are numbered consecutively, and end with the only end-of-file unit |
| Transfer.CliData.Run | moProject/moCloud/moCloudServer/src/cliCtrl.cpp:39-92 | whenever the loop is stopped it has sent an initial part of that stream, one turn per poll, and all of it once polls suffice; nothing without an open file |
| Transfer.ReplayStream | moProject/moCloud/moCloudClientLib/src/cliData.c:323-367 | consuming the stream from unit u on lays the server's file over the local one from there on and changes nothing else |
| Transfer.ReplayStopsAtEof | moProject/moCloud/moCloudClientLib/src/cliData.c:462-470 | what follows an end-of-file unit has no effect |
| UnitRing.DwldFileInfo.SaveDataToBuffer | moProject/moCloud/moCloudClientLib/src/cliData.c:102-199 | enqueue on a FIFO queue: the unit goes behind all pending ones, or is refused when stopped; a node is allocated exactly when all are in use; next/prev stay inverse and unused nodes stay in front |
| UnitRing.DwldFileInfo.LinkFirst | moProject/moCloud/moCloudClientLib/src/cliData.c:143-147 | a new node comes first in the ring, empty or not |
| UnitRing.DwldFileInfo.MoveLastToFirst | moProject/moCloud/moCloudClientLib/src/cliData.c:449-460 | the ring is rotated by one and stays linked both ways, also with two nodes |
| UnitRing.DwldFileInfo.TakeOldest | moProject/moCloud/moCloudClientLib/src/cliData.c:425-462 | dequeue: the oldest pending unit, and nothing exactly when none is pending; the node is kept for reuse |
| UnitRing.DwldFileInfo.StopDwld | moProject/moCloud/moCloudClientLib/src/cliData.c:856-879 | the id is given back while the writer has still to find the stop flag set; -2 when it was not in use |
| UnitRing.DwldFileInfo.DropAll | moProject/moCloud/moCloudClientLib/src/cliData.c:400-423 | the stopped ring ends empty, and the id is free, also when it was given back before |
| FileWriter.LocalFile.WriteFile | moProject/moCloud/moCloudClientLib/src/cliData.c:323-367 | byte by byte: the body stands at its place, everything else is as it was, a gap reads as zero, an empty body changes nothing; the unit is reported |
| FileWriter.LocalFile.WriteFileThr | moProject/moCloud/moCloudClientLib/src/cliData.c:392-490 | the writer leaves what replaying the buffered units up to the first end-of-file unit leaves, has reported the last unit written, and exits exactly when stopped or at such a unit |
| PipelineProofs.WellFormedStep | moProject/moCloud/moCloudClientLib/src/cliData.c:780-879 | every step, a start at an id some writer has not left included, keeps sessions apart: distinct tasks, ids in use not among those left, and stopping exactly when the task is done |
| PipelineProofs.EmitTakesFromStream | moProject/moCloud/moCloudServer/src/cliCtrl.cpp:46-89 | one turn of the sender takes exactly the head off what it still owes |
| PipelineProofs.PipeConserved | moProject/moCloud/moCloudClientLib/src/cliData.c:204-281 | sending, receiving, taking and reporting by any download neither lose, duplicate nor reorder a unit of any running download |
| PipelineProofs.DeterminedStep | moProject/moCloud/moCloudClientLib/src/cliData.c:377-490 | after any step, replaying what a download's pipe carries onto its local file still gives the outcome fixed at its start, if no start of this task meets an earlier writer |
| PipelineProofs.ScheduleDoesNotMatter | moProject/moCloud/moCloudClientLib/src/cliData.c:377-490 | in every run in which no start of this task meets an earlier writer, quiet or not, the finished download has left exactly what the pipe at its last start determined, however all steps were interleaved |
| PipelineResume.ResumeNotBeyond | moProject/moCloud/moCloudClientLib/src/moCloudClientLib.c:2488 | for any scale up to the unit length the server takes up at or before the recorded unit, and exactly there for the unit length |
| PipelineResume.WriteExtends | moProject/moCloud/moCloudClientLib/src/cliData.c:332-346 | writing unit w makes w + 1 units correct, spoils nothing that was correct further on, and leaves the tail alone |
| PipelineResume.FinishLosesNothing | moProject/moCloud/moCloudClientLib/src/cliData.c:464-470 | when the writer meets end of file, buffer, socket and sender hold nothing more, and the local file is complete |
| PipelineResume.CarriesTransport | moProject/moCloud/moCloudClientLib/src/cliData.c:204-281 | moving units keeps a running download's pipe the stream from the first unit not yet written on |
| PipelineResume.StartCarries | moProject/moCloud/moCloudClientLib/src/moCloudClientLib.c:2466-2489 | a careful start makes the pipe the stream from the resume unit on, below which the opened file is correct |
| PipelineResume.DrainedStep | moProject/moCloud/moCloudClientLib/src/cliData.c:400-423 | a download that is ending never has anything in flight again |
| PipelineResume.SafeStep | moProject/moCloud/moCloudClientLib/src/moCloudClientLib.c:2342-2354 | every step, crashes that undo a stop and careless starts of other tasks included, keeps the safety invariant of a task whose own starts are careful |
| PipelineResume.DownloadReproducesFile | moProject/moCloud/moCloudClientLib/src/cliData.c:323-490 | for every scale up to the unit length and every run, a finished task whose own starts met no earlier writer, found the socket quiet, and opened the file of the start before (same path, not deleted since) or started at unit 0, has left the server's file and the old tail beyond it; that equals the server's file if and only if the old file was not longer |
| PipelineResume.CrashNeverLeavesHole | moProject/moCloud/moCloudClientLib/src/moCloudClientLib.c:2475-2488 | at every point of such a run all units below the one a restart would take up are correct on disk if and only if the file was not deleted by a stop that a crash undid, or there is nothing below that unit; it is at or before the recorded one |
| PipelineResume.RecordedIsOnDisk | moProject/moCloud/moCloudClientLib/src/moCloudClientLib.c:2342-2354 | the same for all units below the recorded one, if the file changes only while nothing is recorded |
| PipelineRuns.NoStrayStep | moProject/moCloud/moCloudClientLib/src/cliData.c:780-845 | without manual stops, nothing is in flight for a file id that is not in use |
| PipelineRuns.QuietWithoutStops | moProject/moCloud/moCloudClientLib/src/moCloudClientLib.c:2685-2720 | in runs without manual stops in which no start meets an earlier writer, every start is quiet |
| PipelineRuns.UsualRunsAreRight | moProject/moCloud/moCloudClientLib/src/cliData.c:323-490 | without manual stops, without starts that meet an earlier writer, and with one path per task, every finished download is right and everything recorded is on disk at any time |
| PipelineRuns.StaleOutcome | moProject/moCloud/moCloudServer/src/cliCtrl.cpp:1294-1372 | what a start with units already in flight leads to: cut off before its stream by an end of file among them, else overlaid by the stream |
| PipelineRuns.StartRightExactly | moProject/moCloud/moCloudClientLib/src/cliData.c:671-845 | a start at any unit u is right for all files and local contents if and only if nothing is in flight, and it opens the file of the start before or u is 0 |
| PipelineRuns.ChannelCarriesData | moProject/moCloud/moCloudServer/src/cliCtrl.cpp:46-89 | no run ever has an empty data unit on the socket |
| PipelineRuns.StopThenStartCanTruncate | moProject/moCloud/moCloudServer/src/cliCtrl.cpp:1294-1372 | a concrete run in which stopping one download makes the next one finish with nothing received |
| PipelineLate.Drive | moProject/moCloud/moCloudClientLib/src/cliData.c:377-490 | whatever other writers hold on to, the waiting writer can finish the download with exactly what the sender still owed |
| PipelineLate.HoldBack | moProject/moCloud/moCloudClientLib/src/cliData.c:425-470 | with a second writer waiting, any one unit can be taken and never written, all others being written |
| PipelineLate.HarmlessStep | moProject/moCloud/moCloudClientLib/src/cliData.c:377-490 | as long as only units of the server's file are on the way and the local file has that file in front, no step of any writer changes it |
| PipelineLate.LateStartRightExactly | moProject/moCloud/moCloudClientLib/src/cliData.c:464-481 | wherever in a run a start takes an id that a waiting writer has still to leave: all continuations that finish the task end right if and only if the local file has the server's in front already |
| PipelineLate.LateStartCanLose | moProject/moCloud/moCloudClientLib/src/cliData.c:464-481 | for every non-empty file there is a run without stop or crash in which such a start ends wrong |
| PipelineUndone.UndoneStopLeavesHole | moProject/moCloud/moCloudClientLib/src/moCloudClientLib.c:2757-2764 | a run, every start alone, quiet and at one path, in which a stop that deleted the local file is undone by a crash and the resumed task finishes with a hole |
| PipelineOutcome.StartOpens | moProject/moCloud/moCloudClientLib/src/cliData.c:687-704 | a start at another path, or of a task whose file is gone, goes on with whatever is found there; one at the same path with the same file; no other task changes |
| PipelineOutcome.LastStartDecides | moProject/moCloud/moCloudClientLib/src/cliData.c:671-845 | whatever happened before and whatever other downloads do: a finished download has left what replaying the units on the socket at its last start and then the server's stream onto the file then opened leaves |
| PipelineOutcome.LastStartRight | moProject/moCloud/moCloudClientLib/src/moCloudClientLib.c:2466-2489 | in particular, started with a quiet socket at unit 0, or on a file right so far, it has left the server's file and what the opened file had beyond it |
| PipelineOutcome.NewDownloadRight | moProject/moCloud/moCloudClientLib/src/moCloudClientLib.c:2685-2720 | a new download leaves the server's file and what was found at its path beyond that length |
| PipelineOutcome.CrashThenFinish | moProject/moCloud/moCloudClientLib/src/moCloudClientLib.c:1339-1424 | after a crash at any point every unfinished task can be started under the first id and finished, with the server's file from the resume unit on laid over the opened file |
| PipelineOutcome.EndOfSession | moProject/moCloud/moCloudServer/src/cliCtrl.cpp:1294-1372 | after the end of a download the server sends nothing for its id but perhaps one last end of file; other writers keep what they hold |
| PipelineOutcome.WritersComeAndGo | moProject/moCloud/moCloudClientLib/src/cliData.c:377-490 | a writer comes with a start and goes with an exit, a stop or a crash, and at no other time |
| PipelineOutcome.HandsKept | moProject/moCloud/moCloudClientLib/src/cliData.c:671-845 | what the writers of an id hold stays with them when another goes on, and when the id is given back or taken again |
| PipelineOutcome.LockedStayUsed | moProject/moCloud/moCloudClientLib/src/cliData.c:856-879 | in every state of every run an id whose mutex is locked is in use |
| PipelineOutcome.CanClear | moProject/moCloud/moCloudClientLib/src/cliData.c:398-423 | writers that wait at a given-back id can all exit, one by one, changing nothing else, until a start there meets none |
| PipelineProgress.NextMove | moProject/moCloud/moCloudClientLib/src/cliData.c:377-490 | some thread of a free download can always move, with less work left, and it stays free |
| PipelineProgress.FrozenStep | moProject/moCloud/moCloudClientLib/src/cliData.c:806-817 | a blocked download stays blocked under every step but a crash or its own stop |
| PipelineProgress.CanFinishExactly | moProject/moCloud/moCloudClientLib/src/cliData.c:204-490 | at any point of any run a download can be finished without crash or stop if and only if its writer has the end of file in hand, or its mutex is not leaked and neither is one of a message in front of what it waits for |
| PipelineProgress.NextStartFreezes | moProject/moCloud/moCloudClientLib/src/cliData.c:806-817 | starting another download freezes every running one with a lower id, unless that has its end of file in hand |
| PipelineProgress.TwoStartsFreezeBoth | moProject/moCloud/moCloudClientLib/src/cliData.c:806-817 | a run of two starts after which no continuation finishes either download |
| PipelineProgress.NeverThree | moProject/moCloud/moCloudClientLib/src/cliData.c:806-817 | in every state of every run only the first two ids are in use, only the first mutex is locked, and the second id is in use only with that one locked |
| PipelineProgress.OneAtATimeCanFinish | moProject/moCloud/moCloudClientLib/src/cliData.c:806-817 | as long as only the first id is given out, every download can be finished |
| Refinement.ReceiveStep | moProject/moCloud/moCloudClientLib/src/cliData.c:102-199 | saving a unit in the ring is the state machine's receiving step, dropped units included |
| Refinement.TakeStep | moProject/moCloud/moCloudClientLib/src/cliData.c:425-462 | taking the oldest unit is its taking step |
| Refinement.ReleaseStep | moProject/moCloud/moCloudClientLib/src/cliData.c:856-879 | giving the id back leaves ring and flags as its release leaves them |
| Refinement.ExitStep | moProject/moCloud/moCloudClientLib/src/cliData.c:398-423 | dropping the ring is its exit |
| Refinement.PoolStep | moProject/moCloud/moCloudClientLib/src/cliData.c:780-845 | a start takes the id, locks the mutexes or waits for ever exactly as its start and stick do |
| Refinement.NewTaskStep | moProject/moCloud/moCloudClientLib/src/moCloudClientLib.c:2412-2465 | creating a task and starting it at offset 0 is one call; list and disk then remember it |
| Refinement.ResumeStep | moProject/moCloud/moCloudClientLib/src/moCloudClientLib.c:2466-2489 | the start offset the client computes for a known task leads the server to the unit at which the state machine starts |
| Refinement.ReportStep | moProject/moCloud/moCloudClientLib/src/moCloudClientLib.c:2318-2376 | progress keeps list and disk remembering every unfinished task with its recorded unit |
| Refinement.StopTaskStep | moProject/moCloud/moCloudClientLib/src/moCloudClientLib.c:2501-2547 | after a stop the list has forgotten the task, and the disk remembers what the state machine says a crash may bring back |
| Refinement.CrashStep | moProject/moCloud/moCloudClientLib/src/moCloudClientLib.c:1339-1424 | after a crash, with or without the last deletion on disk, a restart remembers exactly the tasks and units of the state machine |
| Checkpoint.MirroredAfterAdd | moProject/moCloud/moCloudClientLib/src/moCloudClientLib.c:2415-2472 | the first free slot is nobody else's, and file and list still mirror each other after a new task took it |
| Checkpoint.MirroredAfterUpdate | moProject/moCloud/moCloudClientLib/src/moCloudClientLib.c:2342-2354 | they still do after an update in place |
| Checkpoint.MirroredAfterRemove | moProject/moCloud/moCloudClientLib/src/moCloudClientLib.c:2528-2543 | and after a slot was freed and its node removed |
| Checkpoint.BuiltNodes | moProject/moCloud/moCloudClientLib/src/moCloudClientLib.c:1339-1424 | reading the file back yields one node for each used slot and no other, in decreasing order of offset |
| Checkpoint.RecoveryKeepsTasks | moProject/moCloud/moCloudClientLib/src/moCloudClientLib.c:1339-1424 | the rebuilt list agrees with the rewritten file and finds every key with the old offset, unit, length and path, not running and without a file id; a second restart changes nothing |
| Checkpoint.LookupAfterRemove | moProject/moCloud/moCloudClientLib/src/moCloudClientLib.c:2538-2543 | removing a node forgets its key and no other |
| DownloadTasks.DwldTasks.GetDwldFileInfo | moProject/moCloud/moCloudClientLib/src/moCloudClientLib.c:2268-2296 | a task of the list with this key, or, exactly when there is none, that there is none |
| DownloadTasks.DwldTasks.FindFreeSlot | moProject/moCloud/moCloudClientLib/src/moCloudClientLib.c:2433-2447 | the first slot not in use, or the end of the file |
| Checkpoint.CountIsSize | moProject/moCloud/moCloudClientLib/src/moCloudClientLib.c:2390-2405 | the count of running tasks is the size of the set of their positions |
| DownloadTasks.DwldTasks.GetOneDwldNode | moProject/moCloud/moCloudClientLib/src/moCloudClientLib.c:2384-2494 | -1 exactly when 8 tasks or more are running, -3 for one that is; a new key gets a record and a node with its length and path, unit 0, running, in the first free slot, and offset 0; a known one keeps all but that it is running, and its offset is its unit times 4; all other tasks are untouched; file and list still agree |
| DownloadTasks.DwldTasks.AssignFileId | moProject/moCloud/moCloudClientLib/src/moCloudClientLib.c:2700 | one task gets the id and the others keep theirs; ids stay distinct if and only if no other task, say one whose writer is still deleting it, has the id |
| DownloadTasks.DwldTasks.SetDwldProgress | moProject/moCloud/moCloudClientLib/src/moCloudClientLib.c:2318-2376 | the first task with this id has the new unit in list and file, or is gone from both at end of file, and that is flushed; other tasks are untouched |
| DownloadTasks.DwldTasks.DelDwldNode | moProject/moCloud/moCloudClientLib/src/moCloudClientLib.c:2501-2547 | the key is forgotten in list and file, other tasks are untouched; certain to be on disk is only what was there before; -1 exactly when there was none |
| DownloadTasks.DwldTasks.InitDwldTasksInfo | moProject/moCloud/moCloudClientLib/src/moCloudClientLib.c:1339-1462 | a file of records with the right mark and checksum is rewritten and read back; any record without, or a partial one at the end, empties it |
| DownloadTasks.DwldTasks.Restart | moProject/moCloud/moCloudClientLib/src/moCloudClientLib.c:1339-1424 | after any operations and a crash the file passes the format check, and every task is found again with its length, path, unit and place, not running and without a file id, as it was before the last deletion if that was not written |
| FileIdPool.DwldFiles.CliDataStartDwld | moProject/moCloud/moCloudClientLib/src/cliData.c:780-845 | started, with the first free id, exactly when the key is not busy, an id is free, the file can be opened and no mutex on the way is held; each refusal and its condition; stuck exactly when such a mutex is held; which mutexes stay locked |
| FileIdPool.DwldFiles.ThirdStartSticks | moProject/moCloud/moCloudClientLib/src/cliData.c:806-817 | from a pool at rest the second start leaves the mutex of the running first download locked, and the third never returns |
| Rsa.IsPrimeNumber | moDemos/RSA/rsaDemo.c:38-60 | 1 exactly for odd primes |
| Rsa.GetRandPrimeNum | moDemos/RSA/rsaDemo.c:65-73 | ends from every start with the next prime, at most 37 |
| Rsa.ExtendEuclidSolves | moDemos/RSA/rsaDemo.c:108-123 | E*D + L*k is the returned number, and the coefficients are no larger than the other argument |
| Rsa.EuclidComputesGcd | moDemos/RSA/rsaDemo.c:108-123 | the returned number is the greatest common divisor |
| Rsa.PrivateExponentInverts | moDemos/RSA/rsaDemo.c:160-186 | the corrected D lies strictly between 0 and L, and E*D is the greatest common divisor modulo L: 1 when they are coprime |
| Rsa.GenKeys | moDemos/RSA/rsaDemo.c:169-189 | E is 11, N the product of two primes between 5 and 37, and D between 0 and L with E*D the greatest common divisor of 11 and L modulo L |
| Rsa.RsaCrypt | moDemos/RSA/rsaDemo.c:194-207 | for a positive exponent the result lies between 0 and N and differs from the power of the message by a multiple of N; for any other it is 1 |
| RsaProofs.FermatLittle | moDemos/RSA/rsaDemo.c:194-207 | Fermat's little theorem |
| RsaProofs.PowerFixes | moDemos/RSA/rsaDemo.c:194-207 | exponents that are 1 modulo p - 1 fix every m modulo p, multiples of p included |
| RsaProofs.DecryptUndoesEncrypt | moDemos/RSA/rsaDemo.c:160-207 | decrypting what was encrypted gives m modulo N for every m, all distinct primes, and every E coprime to (p - 1)(q - 1) |
| RsaProofs.EqualPrimesFail | moDemos/RSA/rsaDemo.c:169-189 | equal primes lose a message |
| RsaProofs.TwentyThreeFails | moDemos/RSA/rsaDemo.c:169-189 | the prime 23 loses a message |
| RsaProofs.KeysWorkExactly | moDemos/RSA/rsaDemo.c:169-207 | for the primes that can be drawn, all messages survive if and only if the primes differ and 11 is coprime to (p - 1)(q - 1), that is, neither is 23 |
| IniLine.GetLineType | moSdk/Logger/src/iniParser.c:484-530 | the kind of a line and its parts, as `Classify` gives them |
| IniLine.GetSectionNameFromLine | moSdk/Logger/src/iniParser.c:309-358 | the name up to the last bracket, or an error |
| IniLine.GetAttrFromLine | moSdk/Logger/src/iniParser.c:369-466 | key and value around the only equal sign, trimmed and within their lengths, or an error |
| IniLine.TrimExactly | moSdk/Logger/src/iniParser.c:406-443 | trimming takes away the blanks around and nothing else |
| IniFormat.AttrTextParses | moSdk/Logger/src/iniParser.c:369-466 | key = value with any blanks and any comment is that attribute |
| IniFormat.AttrLineIsText | moSdk/Logger/src/iniParser.c:369-466 | only such lines are that attribute |
| IniFormat.SectionTextParses | moSdk/Logger/src/iniParser.c:309-358 | [name] with any blanks and comment is that section, closing brackets in the name included |
| IniFormat.SectionLineIsText | moSdk/Logger/src/iniParser.c:309-358 | only such lines are that section |
| IniFormat.SpaceAndComment | moSdk/Logger/src/iniParser.c:265-300 | which lines are empty and which are comments |
| IniStore.SectionList.AddSecInfoNode | moSdk/Logger/src/iniParser.c:126-185 | appends a section unless the name is the empty one of the head or occurs before the last section |
| IniStore.SectionList.AddAttrInfoNode | moSdk/Logger/src/iniParser.c:192-257 | appends to the first section of the name, or each refusal and its condition |
| IniStore.SectionList.GetSectionList | moSdk/Logger/src/iniParser.c:543-628 | the list and the return value after all lines, or after the first error |
| IniStore.SectionList.GetAttrValue | moSdk/Logger/src/iniParser.c:710-759 | the value found, or which of section and key is missing |
| IniProofs.ParsesExactly | moSdk/Logger/src/iniParser.c:543-628 | a file parses if and only if no line is malformed, attributes stand under non-empty headers, no (section, key) is declared twice, and headers repeat only directly |
| IniProofs.StopsAtFirstMisfit | moSdk/Logger/src/iniParser.c:543-628 | otherwise parsing stops at the first line with which the file does not fit, whose kind tells the return value, with the list of the lines before it |
| IniProofs.LookupReturnsDeclared | moSdk/Logger/src/iniParser.c:710-759 | after a successful parse (s, k) yields v if and only if exactly one line k = v has s as its most recent header |
| IniProofs.ListAlwaysShaped | moSdk/Logger/src/iniParser.c:140-157 | whatever the lines, a name occurs at most twice, copies are neighbours and the second is empty, and keys are unique in a section |
| Sunday.SundayGenNext | moDemos/ClassString/src/moString.cpp:161-180 | every entry is the distance from the character's last occurrence to just behind the pattern |
| Sunday.ShiftSkipsNoMatch | moDemos/ClassString/src/moString.cpp:211-233 | a shift by the table passes over no match |
| Sunday.SundaySearch | moDemos/ClassString/src/moString.cpp:183-252 | the least matching position, negative exactly when there is none; what is read beyond the source does not matter |
| Sunday.SubString | moDemos/ClassString/src/moString.cpp:143-152 | the same with the table it builds |
| Requests.BodyNeverCut | moProject/moCloud/moCloudClientLib/src/moCloudClientLib.c:2554-2560 | the body of 32-bit numbers and a legal name is the printed text, letter by letter; it never reaches the end of its buffer |
| Strings.ItoaForm | moProject/moCloud/moCloudClientLib/src/moCloudClientLib.c:2556-2559 | a number is printed with a minus sign if negative and without leading zeros |
| Strings.AtoiForm | moProject/moCloud/moCloudServer/src/cliCtrl.cpp:1165-1185 | a number is read behind blanks and one sign, as far as its digits go |
| Requests.RefusedExactly | moProject/moCloud/moCloudServer/src/cliCtrl.cpp:1106-1160 | a body is refused exactly when it does not begin with "filetype=", and throws exactly when another symbol is missing |
| Requests.PiecesRead | moProject/moCloud/moCloudServer/src/cliCtrl.cpp:1160-1191 | what is read from any other body: the pieces between the first places of the symbols, or the rest where they are out of order; the name cut to 256 bytes |
| Requests.NameField | moProject/moCloud/moCloudServer/src/cliCtrl.cpp:1106-1191 | which part of any name the server reads back |
| Requests.OffsetField | moProject/moCloud/moCloudServer/src/cliCtrl.cpp:1106-1191 | the offset survives whenever the name holds no ", startOffset=", even when the name confuses the file id |
| Requests.IdField | moProject/moCloud/moCloudServer/src/cliCtrl.cpp:1106-1191 | which file id the server reads back for any name |
| Requests.RequestRoundTrip | moProject/moCloud/moCloudServer/src/cliCtrl.cpp:1106-1191 | a request is read back as sent if and only if its name is transparent |
| Requests.LoginExactly | moProject/moCloud/moCloudServer/src/cliCtrl.cpp:787-850 | what is made of a body by its first ", password=": accepted as it is, or refused for the length of the name, or else of the password |
| Requests.LoginForms | moProject/moCloud/moCloudServer/src/cliCtrl.cpp:787-850 | every other body is refused, or throws |
| Requests.LoginRoundTrip | moProject/moCloud/moCloudServer/src/cliCtrl.cpp:787-850 | a log-in is read back as sent if and only if its lengths are accepted and the user name holds no ", password=" |
| FileList.ClientFilelist.FreeLocalFilelist | moProject/moCloud/moCloudClientLib/src/moCloudClientLib.c:238-264 | empties the lists 1, 2, 4, 8 for all types and the one of a single type, and no other |
| FileList.ClientFilelist.SetFilelistValue | moProject/moCloud/moCloudClientLib/src/moCloudClientLib.c:838-902 | the lists freed for this type, and all that records of accepted types go to, have the received records of their type in front, last one first |
| FileList.ClientFilelist.RefreshFilelist | moProject/moCloud/moCloudClientLib/src/moCloudClientLib.c:907-1010 | the same for an answer, which is not looked at when empty |
| FileList.ClientFilelist.GetFilelist | moProject/moCloud/moCloudClientLib/src/moCloudClientLib.c:2020-2084 | a query yields the lists reversed, for all types in the order 8, 4, 2, 1 |
| FileList.TransferAll | moProject/moCloud/moCloudClientLib/src/moCloudClientLib.c:2034-2066 | a full refresh and query give the server's records by type 8, 4, 2, 1, each in server order, none lost or made up |
| FileList.TransferOne | moProject/moCloud/moCloudClientLib/src/moCloudClientLib.c:907-1010 | a refresh and a query of one type give the answer's records of that type in server order, whatever the list held before; other lists are unchanged |
| FileList.ReversedTwice | moProject/moCloud/moCloudClientLib/src/moCloudClientLib.c:2034-2066 | the two reversals cancel |
| FileList.SortingConserves | moProject/moCloud/moCloudClientLib/src/moCloudClientLib.c:854-893 | sorting by type conserves the records |
| FileList.OfTypeConcat | moProject/moCloud/moCloudClientLib/src/moCloudClientLib.c:854-893 | the records of one type are selected one by one and stay in order |
| DisplayList.TopUnique | moProject/moFaceRec/moFaceRec/src/fileMgr.cpp:449-473 | "the k largest" determines a multiset |
| DisplayList.TopStep | moProject/moFaceRec/moFaceRec/src/fileMgr.cpp:449-473 | taking one in and the smallest out keeps the k largest |
| DisplayList.FileMgr.MinElement | moProject/moFaceRec/moFaceRec/src/fileMgr.cpp:77-80 | the first of the smallest timestamps |
| DisplayList.FileMgr.EvictOldest | moProject/moFaceRec/moFaceRec/src/fileMgr.cpp:449-473 | the first of the oldest goes and is deleted, the others stay as and where they are, and show the K - 1 newest of all insertions |
| DisplayList.FileMgr.InsertDisplayFileInfo | moProject/moFaceRec/moFaceRec/src/fileMgr.cpp:449-473 | the picture goes to the end, behind the others or, in a full list, behind all but the first of the oldest; over any run the timestamps are the latest insertion and the K - 1 newest earlier ones, and those shown and deleted are all inserted ones |
| ClientManager.SweepKeepsTheOthers | moSdk/Cps/Server/src/cliMgr.c:42-90 | exactly the clients not stopped at the start survive, in order; each is as it was, but that one in heartbeat state for more than 7 seconds is stopped; the sockets of the others are reported in order; ids stay unique |
| ClientManager.NotifiedExactly | moSdk/Cps/Server/src/cliMgr.c:42-90 | a socket is reported if and only if it belonged to a stopped client |
| ClientManager.CliMgr.CheckHeartbeat | moSdk/Cps/Server/src/cliMgr.c:42-90 | one sweep over the linked list does exactly that |
| ClientManager.CliMgr.InsertNewCli | moSdk/Cps/Server/src/cliMgr.c:215-266 | appends, or -3 exactly when the id is there; ids stay unique |
| ClientManager.CliMgr.DeleteCli | moSdk/Cps/Server/src/cliMgr.c:274-305 | removes the first client with the socket and no other |

## Left out

- Sockets, `select`, threads, signals and joins: a reliable in-order channel of messages, each a header with its body, and atomic steps stand for them; the resynchronisation in `getDataHeader` is not modelled.
- The download model takes the server's file as constant during a download and the files two tasks have open as different; a write to a local file reaches the disk as a whole when it is made.
- Starts and manual stops are taken one after another, each as one step, and a writer's exit with its second clearing of `isUsing` (cliData.c:417-481) as one step. Left out with that: a start between the two clearings, which the results exclude as one that meets an earlier writer; a writer that takes the sender's early end of file while a manual stop is under way (moCloudClientLib.c:2736-2746), whose task is forgotten either way; and a new writer that runs before the start has set its callback and file id (cliData.c:717 and 841-842).
- After a start that met an earlier writer, the model lets the writers share the buffer and the file; what a writer does that is left holding a unit when another one closes the file (it would use a null `FILE *`) is left out.
- A start that fails after its file id was taken (the server refuses, the local file cannot be opened) is undone by the code as a manual stop is; it is a start followed by a stop here.
- A manual stop whose id is locked never returns; what it does before it hangs is left out. It makes nothing finish.
- Transfer.CliData.Run: the sender's polls are a parameter, and 32-bit overflow of `unitId * 1024` is not modelled.
- PipelineResume.CrashNeverLeavesHole: the recorded unit itself can go backwards after a resumption, since an earlier unit is written and reported again.
- PipelineLate.LateStartRightExactly: for a start with nothing on the socket and in the ring, one earlier writer waiting and none holding a unit.
- PipelineUndone.UndoneStopLeavesHole: the task stopped last before the crash; whether the freed record was written is a parameter of the crash.
- Refinement.ReceiveStep: for ids that were started before, since the stop flag of an id that never was is still clear; no message is addressed to such an id.
- DownloadTasks.DwldTasks.SetDwldProgress: at end of file the freed slot and the removed node are one step, although the code gives up its mutex in between.
- DownloadTasks.DwldTasks.GetDwldFileInfo: a plain lookup; the loop at moCloudClientLib.c:2278 never advances past a first node with another key.
- DownloadTasks.DwldTasks.InitDwldTasksInfo: record by record; the missing seek between reading and rewriting a record is not modelled.
- The task list, the section list and the client's file lists are sequences, not linked nodes; the unit ring and the client list are linked nodes.
- FileIdPool.DwldFiles.CliDataStartDwld: whether the local file can be opened is a parameter.
- Allocation failures, the checksum stub (a constant) and the encryption stubs.
- RsaProofs.DecryptUndoesEncrypt: needs distinct primes and E coprime to (p - 1)(q - 1), which the code does not check; `KeysWorkExactly` shows that both are necessary for the primes the program draws.
- Rsa.IsPrimeNumber: an integer square root stands for the floating-point one; `rand` is a parameter of `GetRandPrimeNum`. The function `gcd`, which always returns 0, is left out.
- IniLine.GetLineType: starts from whole lines shorter than the line buffer; how `fgets` splits longer ones, and the pointer that is returned although freed after a failed parse, are left out.
- Sunday.SundaySearch: ASCII bytes, and a table for a pattern of at most 126 characters, as table entries are chars.
- Requests.RequestRoundTrip: for file names below the buffer's 256 bytes and 32-bit numbers; a name cut to exactly 256 bytes by the server's copy lies outside.
- Requests.GetDwldReqInfo: as on a 64-bit target, where positions are 32 bits wide and never equal `string::npos`: the returns -2, -4, -5 and -6 for a missing symbol cannot happen, and a missing one makes a substring throw.
- Requests.LoginRoundTrip: the server's parser against the client's format; the client's own length check, which looks at the user name twice and never at the password, is left out.
- FileList.ClientFilelist.SetFilelistValue: whole records; the word behind the array of lists, which a record of type 15 reaches when all types are refreshed, is a cell of its own.
- DisplayList.FileMgr.InsertDisplayFileInfo: for a capacity of at least 1; deleting a file is recorded, not performed. `insertCaptFileTask` and `delCaptFileTask` are plain appends and removals.
- ClientManager.CliMgr.CheckHeartbeat: the time elapsed since each heartbeat is a function given to the sweep; how ids are drawn and the lookup of states are left out.
- SQL back ends, image libraries, user interface, logging output, Python capture and the socket demos: glue over libraries that are not part of this model.
