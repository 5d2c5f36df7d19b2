/** The operations on the checkpoint file and the task list, loop by loop. */
module DownloadTasks {
  import opened CloudTypes
  import opened Checkpoint

  class DwldTasks {
    var slots: seq<Slot>      // the checkpoint file, record by record
    var partialRecord: bool   // whether the file ends in part of a record
    var list: seq<TaskNode>   // the task list behind its head node
    var disk: seq<Slot>       // what of the file has reached the disk for certain

    ghost var flushed: seq<TaskNode>  // the task list as it was then

    ghost predicate Valid()
      reads this
    {
      && !partialRecord && Agree(slots, list) && CountDwlding(list) <= TASK_MAX_NUM
      && Agree(disk, flushed)
    }

    constructor ()
      ensures Valid() && slots == [] && list == [] && flushed == []
    {
      slots, partialRecord, list, disk, flushed := [], false, [], [], [];
    }

    /** What was written before reaches the disk. */
    method Flush()
      requires Valid()
      modifies this`disk, this`flushed
      ensures Valid() && disk == slots && flushed == list
    {
      disk, flushed := slots, list;
    }

    /** Plain lookup of a task by key. */
    method GetDwldFileInfo(key: Key) returns (r: Found)
      ensures r == Lookup(list, key)
      ensures r.NotFound? <==> forall n :: n in list ==> n.info.key != key
      ensures r.Found? ==> r.node in list && r.node.info.key == key
    {
      var i := 0;
      while i < |list| && list[i].info.key != key
        invariant 0 <= i <= |list|
        invariant i <= IndexOf(list, key)
      {
        i := i + 1;
      }
      return if i < |list| then Found(list[i]) else NotFound;
    }

    /** Scan of the checkpoint file for the first record not in use. */
    method FindFreeSlot() returns (k: nat)
      ensures k == FirstFree(slots)
    {
      k := 0;
      while k < |slots| && slots[k].isUsing
        invariant 0 <= k <= FirstFree(slots)
      {
        k := k + 1;
      }
    }

    /** Begin or take up the task of `key`: -1 when too many downloads run, -3 when this one
        does; a new task gets the first free slot and starts at 0, a known one at what its
        recorded unit yields. */
    method GetOneDwldNode(key: Key, fileLength: nat, path: string) returns (ret: int, startOffset: nat)
      requires Valid()
      modifies this
      ensures Valid()
      ensures var was := old(list);
              ret == -1 <==> |set i | 0 <= i < |was| && was[i].info.isDwlding| >= TASK_MAX_NUM
      ensures ret != -1 ==>
              ret == match old(Lookup(list, key))
                     case NotFound => 0
                     case Found(n) => if n.info.isDwlding then -3 else 0
      ensures ret != 0 ==> slots == old(slots) && list == old(list) && flushed == old(flushed)
      ensures ret == 0 ==> flushed == list
      ensures ret == 0 ==> forall k :: k != key ==> Lookup(list, k) == old(Lookup(list, k))
      ensures ret == 0 && old(Lookup(list, key)).NotFound? ==>
                var info, k := DwldInfo(key, fileLength, path, 0, true), FirstFree(old(slots));
                && startOffset == 0
                && Lookup(list, key) == Found(TaskNode(info, k * SLOT_LEN, -1))
                && k < |slots| && slots[k] == Slot(MARK_DWLD, true, info, CHECKSUM)
      ensures ret == 0 && old(Lookup(list, key)).Found? ==>
                var n := old(Lookup(list, key)).node;
                && startOffset == n.info.unitId * OFFSET_SCALE
                && Lookup(list, key) == Found(n.(info := n.info.(isDwlding := true)))
                && At(slots, Lookup(list, key).node, n.offset / SLOT_LEN)
    {
      var cnt, i, task := 0, 0, |list|;
      while i < |list|
        invariant 0 <= i <= |list| && cnt == CountDwlding(list[..i])
        invariant task == if IndexOf(list, key) < i then IndexOf(list, key) else |list|
      {
        if list[i].info.isDwlding {
          cnt := cnt + 1;
        }
        if list[i].info.key == key {
          task := i;
        }
        i := i + 1;
        assert list[..i][..i - 1] == list[..i - 1];
      }
      assert list[..i] == list;
      CountIsSize(list);
      if cnt >= TASK_MAX_NUM {
        return -1, 0;
      }
      if task == |list| {
        var k := FindFreeSlot();
        var info := DwldInfo(key, fileLength, path, 0, true);
        AddTask(k, info);
        Flush();
        return 0, 0;
      }
      var node := list[task];
      if node.info.isDwlding {
        return -3, 0;
      }
      assert HasSlot(slots, node);
      ghost var m: nat :| At(slots, node, m);
      SlotNumber(node.offset, m);
      var k := node.offset / SLOT_LEN;
      SetInfo(task, k, node.info.(isDwlding := true));
      Flush();
      return 0, node.info.unitId * OFFSET_SCALE;
    }

    /** Write the record of a new task and put its node in front. */
    method AddTask(k: nat, info: DwldInfo)
      requires Valid() && CountDwlding(list) < TASK_MAX_NUM
      requires Lookup(list, info.key) == NotFound && k == FirstFree(slots) && info.isDwlding
      modifies this`slots, this`list
      ensures Valid()
      ensures list == [TaskNode(info, k * SLOT_LEN, -1)] + old(list)
      ensures slots == SetSlot(old(slots), k, Slot(MARK_DWLD, true, info, CHECKSUM))
      ensures forall key :: Lookup(list, key) ==
                if key == info.key then Found(TaskNode(info, k * SLOT_LEN, -1)) else old(Lookup(list, key))
    {
      ghost var list0 := list;
      var node := TaskNode(info, k * SLOT_LEN, -1);
      MirroredAfterAdd(slots, list, info, -1);
      CountAppend([node], list);
      CountOne(node);
      slots := SetSlot(slots, k, Slot(MARK_DWLD, true, info, CHECKSUM));
      list := [node] + list;
      forall key
        ensures Lookup(list, key) == if key == info.key then Found(node) else Lookup(list0, key)
      {
        LookupAfterAdd(list0, node, key);
      }
    }

    /** Overwrite the info of node `i` and its record, `k`. */
    method SetInfo(i: nat, k: nat, info: DwldInfo)
      requires Valid() && i < |list| && At(slots, list[i], k)
      requires info.key == list[i].info.key && info.isDwlding
      requires list[i].info.isDwlding || CountDwlding(list) < TASK_MAX_NUM
      modifies this`slots, this`list
      ensures Valid()
      ensures slots == UpdateSlots(old(slots), k, info, true) && list == UpdateNode(old(list), i, info)
      ensures forall key :: Lookup(list, key) ==
                if key == info.key then Found(old(list)[i].(info := info)) else old(Lookup(list, key))
    {
      ghost var list0 := list;
      MirroredAfterUpdate(slots, list, i, k, info);
      CountAfterUpdate(list, i, list[i].(info := info));
      slots := UpdateSlots(slots, k, info, true);
      list := UpdateNode(list, i, info);
      forall key
        ensures Lookup(list, key) ==
                if key == info.key then Found(list0[i].(info := info)) else Lookup(list0, key)
      {
        LookupAfterUpdate(list0, i, list0[i].(info := info), key);
      }
    }

    /** Mark record `k` unused and take node `i` out of the list. */
    method RemoveTask(i: nat, k: nat, info: DwldInfo)
      requires Valid() && i < |list| && At(slots, list[i], k)
      modifies this`slots, this`list
      ensures Valid()
      ensures slots == UpdateSlots(old(slots), k, info, false) && list == RemoveAt(old(list), i)
      ensures forall key :: Lookup(list, key) ==
                if key == old(list)[i].info.key then NotFound else old(Lookup(list, key))
    {
      ghost var list0 := list;
      MirroredAfterRemove(slots, list, i, k, info);
      CountAfterRemove(list, i);
      slots := UpdateSlots(slots, k, info, false);
      list := RemoveAt(list, i);
      forall key
        ensures Lookup(list, key) == if key == list0[i].info.key then NotFound else Lookup(list0, key)
      {
        LookupAfterRemove(list0, i, key);
      }
    }

    /** The file id a started task was given by the pool. */
    method AssignFileId(key: Key, fileId: int)
      requires Valid() && 0 <= fileId < TASK_MAX_NUM
      requires Lookup(list, key).Found? && Lookup(list, key).node.info.isDwlding
      modifies this`list
      ensures Valid()
      ensures DistinctIds(old(list)) ==>
                (DistinctIds(list) <==> !HeldByOther(old(list), key, fileId))
      ensures forall k :: Lookup(list, k) ==
                if k == key then Found(old(Lookup(list, key)).node.(fileId := fileId)) else old(Lookup(list, k))
    {
      ghost var list0 := list;
      var i := IndexOf(list, key);
      ghost var node := list[i].(fileId := fileId);
      list := list[i := list[i].(fileId := fileId)];
      DistinctIdsAfter(list0, i, fileId);
      CountAfterUpdate(list0, i, node);
      MirroredAfterFileId(slots, list0, i, fileId);
      forall k
        ensures Lookup(list, k) == if k == key then Found(node) else Lookup(list0, k)
      {
        LookupAfterUpdate(list0, i, node, k);
      }
    }

    /** Progress of the download with this file id; at end of file its task is forgotten. */
    method SetDwldProgress(fileId: int, unitId: nat, isEof: bool)
      requires Valid() && 0 <= fileId
      modifies this
      ensures Valid()
      ensures var i := IndexOfId(old(list), fileId);
              if i == |old(list)| then slots == old(slots) && list == old(list) && flushed == old(flushed)
              else flushed == list
      ensures var i := IndexOfId(old(list), fileId);
              i < |old(list)| ==>
                forall key :: Lookup(list, key) ==
                  if key != old(list)[i].info.key then old(Lookup(list, key))
                  else if isEof then NotFound
                  else Found(old(list)[i].(info := old(list)[i].info.(unitId := unitId)))
    {
      var i := 0;
      while i < |list| && list[i].fileId != fileId
        invariant 0 <= i <= IndexOfId(list, fileId)
      {
        i := i + 1;
      }
      if i < |list| && list[i].info.isDwlding {
        assert HasSlot(slots, list[i]);
        ghost var m: nat :| At(slots, list[i], m);
        SlotNumber(list[i].offset, m);
        var k := list[i].offset / SLOT_LEN;
        var info := list[i].info.(unitId := unitId);
        if isEof {
          RemoveTask(i, k, info.(isDwlding := false));
        } else {
          SetInfo(i, k, info);
        }
        Flush();
      }
    }

    /** Forget the task of `key`: -1 when there is none.  Only what was written before is certain
        to be on the disk. */
    method DelDwldNode(key: Key) returns (ret: int)
      requires Valid()
      modifies this
      ensures Valid()
      ensures ret == if old(Lookup(list, key)).NotFound? then -1 else 0
      ensures ret == -1 ==> slots == old(slots) && list == old(list) && flushed == old(flushed)
      ensures ret == 0 ==> flushed == old(list)
      ensures Lookup(list, key) == NotFound
      ensures forall k :: k != key ==> Lookup(list, k) == old(Lookup(list, k))
    {
      var i := 0;
      while i < |list| && list[i].info.key != key
        invariant 0 <= i <= IndexOf(list, key)
      {
        i := i + 1;
      }
      if i == |list| {
        return -1;
      }
      assert HasSlot(slots, list[i]);
      ghost var m: nat :| At(slots, list[i], m);
      SlotNumber(list[i].offset, m);
      var k := list[i].offset / SLOT_LEN;
      Flush();  // by seeking
      RemoveTask(i, k, slots[k].info.(isDwlding := false));
      return 0;
    }

    /** Check record `k` and take it over: a used one is no longer running and gets a node. */
    method ReadRecord(k: nat) returns (right: bool)
      requires k < |slots|
      modifies this`slots, this`list
      ensures right == RightFormat(old(slots)[k])
      ensures !right ==> slots == old(slots) && list == old(list)
      ensures right ==> slots == old(slots)[k := ClearSlot(old(slots)[k])]
      ensures right ==> list == NodeOf(old(slots)[k], k) + old(list)
    {
      var unitInfo := slots[k];
      if unitInfo.mark != MARK_DWLD || unitInfo.checkSum != CHECKSUM {
        return false;
      }
      if unitInfo.isUsing && unitInfo.info.isDwlding {
        slots := slots[k := unitInfo.(info := unitInfo.info.(isDwlding := false))];
      }
      if unitInfo.isUsing {
        list := [TaskNode(unitInfo.info.(isDwlding := false), k * SLOT_LEN, -1)] + list;
      }
      return true;
    }

    /** Read the checkpoint file back after a restart.  A file in the wrong format is emptied. */
    method InitDwldTasksInfo()
      modifies this
      ensures !partialRecord && disk == slots && flushed == list
      ensures !old(partialRecord) && (forall s :: s in old(slots) ==> s.mark == MARK_DWLD && s.checkSum == CHECKSUM) ==>
                slots == ClearDwlding(old(slots)) && list == Rebuilt(old(slots))
      ensures old(partialRecord) || (exists s :: s in old(slots) && (s.mark != MARK_DWLD || s.checkSum != CHECKSUM)) ==>
                slots == [] && list == []
    {
      ghost var slots0 := slots;
      list := [];
      var k, right := 0, true;
      while k < |slots| && right
        invariant 0 <= k <= |slots0| && partialRecord == old(partialRecord)
        invariant |slots| == |slots0|
        invariant forall j :: 0 <= j < |slots| ==> slots[j] == if j < k then ClearSlot(slots0[j]) else slots0[j]
        invariant list == BuiltUpTo(slots0, k)
        invariant forall j :: 0 <= j < k ==> RightFormat(slots0[j])
        invariant !right ==> k < |slots0| && !RightFormat(slots0[k])
        decreases |slots0| - k, right
      {
        right := ReadRecord(k);
        if right {
          k := k + 1;
        }
      }
      // a bad record, or a short read at the end
      if !right || partialRecord {
        assert partialRecord || !AllRight(slots0);
        slots, partialRecord, list := [], false, [];
      }
      disk, flushed := slots, list;
    }

    /** A restart at any point of any run: the memory is lost, the file is not, but for what was
        `written` last and not flushed. */
    method Restart(written: bool)
      requires Valid()
      modifies this
      ensures Valid() && CountDwlding(list) == 0 && flushed == list
      ensures forall key ::
                Lookup(list, key) == Restarted(if written then old(Lookup(list, key)) else Lookup(old(flushed), key))
      ensures forall key ::
                match if written then old(Lookup(list, key)) else Lookup(old(flushed), key)
                case NotFound => Lookup(list, key) == NotFound
                case Found(n) =>
                  Lookup(list, key) ==
                  Found(TaskNode(DwldInfo(key, n.info.fileLength, n.info.localFilepath, n.info.unitId, false), n.offset, -1))
    {
      ghost var before := if written then list else flushed;
      if !written {
        slots := disk;
      }
      RecoveryKeepsTasks(slots, before);
      CountBuilt(slots, |slots|);
      RightRecords(slots);
      InitDwldTasksInfo();
      forall key
        ensures match Lookup(before, key)
                case NotFound => Lookup(list, key) == NotFound
                case Found(n) =>
                  Lookup(list, key) ==
                  Found(TaskNode(DwldInfo(key, n.info.fileLength, n.info.localFilepath, n.info.unitId, false), n.offset, -1))
      {
        assert Lookup(list, key) == Restarted(Lookup(before, key));
      }
    }
  }

  lemma RightRecords(slots: seq<Slot>)
    requires AllRight(slots)
    ensures forall s :: s in slots ==> s.mark == MARK_DWLD && s.checkSum == CHECKSUM
  {
  }

  lemma SlotNumber(offset: nat, k: nat)
    requires offset == k * SLOT_LEN
    ensures offset / SLOT_LEN == k
  {
  }
}
