/** The client's writer thread (cliData.c): from the ring to the local file. */
module FileWriter {
  import opened CloudTypes
  import opened Transfer
  import opened UnitRing

  /** The unit reported last once `units` have been consumed, `before` being the one reported
      last until then. */
  function LastReported(units: seq<Unit>, before: nat): nat
    decreases |units|
  {
    if units == [] || units[0].isEof then before else LastReported(units[1..], units[0].unitId)
  }

  class LocalFile {
    var contents: Bytes
    var recorded: nat  // what the last progress report said

    constructor (contents: Bytes, recorded: nat)
      ensures this.contents == contents && this.recorded == recorded
    {
      this.contents, this.recorded := contents, recorded;
    }

    /** Seek, write, flush, report. */
    method WriteFile(unit: Unit)
      modifies this
      ensures contents == WriteAt(old(contents), unit.unitId * UNIT_LEN, unit.body) && recorded == unit.unitId
      ensures unit.body == [] ==> contents == old(contents)
      ensures unit.body != [] ==>
                var at, was := unit.unitId * UNIT_LEN, old(contents);
                && |contents| == (if |was| > at + |unit.body| then |was| else at + |unit.body|)
                && forall i :: 0 <= i < |contents| ==>
                     contents[i] == if at <= i < at + |unit.body| then unit.body[i - at]
                                    else if i < |was| then was[i] else 0
    {
      contents := WriteAt(contents, unit.unitId * UNIT_LEN, unit.body);
      recorded := unit.unitId;
    }

    /** The writer's loop until it exits or finds nothing to take.  It exits exactly when it is
        stopped or an end-of-file unit was buffered; what was buffered in front of that unit, and
        nothing else, has been written, in order. */
    method WriteFileThr(info: DwldFileInfo) returns (isExit: bool)
      requires info.Valid()
      modifies this, info, info.head, info.repr
      ensures info.Valid() && info.pending == []
      ensures isExit == (old(info.isStopWriteFileThr) || !NoEof(old(info.pending)))
      ensures isExit ==> info.nodes == [] && !info.isUsing && info.isStopWriteFileThr
      ensures !isExit ==> |info.nodes| == |old(info.nodes)|
      ensures old(info.isStopWriteFileThr) ==> contents == old(contents) && recorded == old(recorded)
      ensures !old(info.isStopWriteFileThr) ==>
                contents == Replay(old(contents), old(info.pending))
                && recorded == LastReported(old(info.pending), old(recorded))
    {
      ghost var all, local0, recorded0 := info.pending, contents, recorded;
      ghost var stopped := info.isStopWriteFileThr;
      while true
        invariant info.Valid() && |info.nodes| == |old(info.nodes)|
        invariant info.repr == old(info.repr)
        invariant stopped ==> info.isStopWriteFileThr && contents == local0 && recorded == recorded0
        invariant !stopped ==>
                    Progress(info.isStopWriteFileThr, all, info.pending, local0, contents, recorded0, recorded)
        decreases |info.pending|, !info.isStopWriteFileThr
      {
        if info.isStopWriteFileThr {
          info.DropAll();
          return true;
        }
        ghost var pending := info.pending;
        var taken := info.TakeOldest();
        if taken.Nothing? {
          return false;
        }
        ProgressStep(all, pending, local0, contents, recorded0, recorded);
        if taken.unit.isEof {
          info.MeetEof();
        } else {
          WriteFile(taken.unit);
          assert info.Valid();
        }
      }
    }
  }

  /** Of `all`, `pending` is left, and consuming it leads where consuming `all` from the start
      does; or an end-of-file unit has been met and everything in front of it is done. */
  ghost predicate Progress(isStop: bool, all: seq<Unit>, pending: seq<Unit>, local0: Bytes, local: Bytes,
      recorded0: nat, recorded: nat)
  {
    if isStop
    then !NoEof(all) && local == Replay(local0, all) && recorded == LastReported(all, recorded0)
    else && Replay(local, pending) == Replay(local0, all)
         && LastReported(pending, recorded) == LastReported(all, recorded0)
         && (NoEof(pending) <==> NoEof(all))
  }

  lemma ProgressStep(all: seq<Unit>, pending: seq<Unit>, local0: Bytes, local: Bytes, recorded0: nat, recorded: nat)
    requires Progress(false, all, pending, local0, local, recorded0, recorded) && pending != []
    ensures pending[0].isEof ==> Progress(true, all, pending[1..], local0, local, recorded0, recorded)
    ensures !pending[0].isEof ==>
              Progress(false, all, pending[1..], local0, WriteAt(local, pending[0].unitId * UNIT_LEN, pending[0].body),
                       recorded0, pending[0].unitId)
  {
    assert pending == [pending[0]] + pending[1..];
    if NoEof(pending[1..]) && !pending[0].isEof {
      assert NoEof(pending);
    }
  }
}
