/**
 The client's book-keeping of downloads (moCloudClientLib.c): a checkpoint file of fixed-size
 slots, mirrored by a list of task nodes in memory and read back after a restart.
 */
module Checkpoint {
  import opened CloudTypes

  datatype DwldInfo = DwldInfo(key: Key, fileLength: nat, localFilepath: string, unitId: nat, isDwlding: bool)

  /** One record of the checkpoint file. */
  datatype Slot = Slot(mark: string, isUsing: bool, info: DwldInfo, checkSum: Byte)

  /** One node of the task list; `offset` is the place of its slot in the file. */
  datatype TaskNode = TaskNode(info: DwldInfo, offset: nat, fileId: int)

  datatype Found = NotFound | Found(node: TaskNode)

  const MARK_DWLD := "MOCLOUD_DWLD"
  const CHECKSUM: Byte := 0xa

  /** sizeof(DWLD_FILE_UNIT_INFO) on a 64-bit target; the proofs only use that it is positive. */
  const SLOT_LEN: nat := 1336

  // ---------------------------------------------------------------- reading the list and the file

  /** Index of the node of `key`, or the length of the list. */
  function IndexOf(list: seq<TaskNode>, key: Key): (i: nat)
    ensures i <= |list| && (i < |list| ==> list[i].info.key == key)
    ensures forall j :: 0 <= j < i ==> list[j].info.key != key
  {
    if list == [] || list[0].info.key == key then 0 else 1 + IndexOf(list[1..], key)
  }

  function IndexOfId(list: seq<TaskNode>, fileId: int): (i: nat)
    ensures i <= |list| && (i < |list| ==> list[i].fileId == fileId)
    ensures forall j :: 0 <= j < i ==> list[j].fileId != fileId
  {
    if list == [] || list[0].fileId == fileId then 0 else 1 + IndexOfId(list[1..], fileId)
  }

  function Lookup(list: seq<TaskNode>, key: Key): Found {
    var i := IndexOf(list, key);
    if i < |list| then Found(list[i]) else NotFound
  }

  function CountDwlding(list: seq<TaskNode>): nat {
    if list == [] then 0
    else CountDwlding(list[..|list| - 1]) + (if list[|list| - 1].info.isDwlding then 1 else 0)
  }

  function FirstFree(slots: seq<Slot>): (k: nat)
    ensures k <= |slots| && (k < |slots| ==> !slots[k].isUsing)
    ensures forall j :: 0 <= j < k ==> slots[j].isUsing
  {
    if slots == [] || !slots[0].isUsing then 0 else 1 + FirstFree(slots[1..])
  }

  function SetSlot(slots: seq<Slot>, k: nat, slot: Slot): seq<Slot>
    requires k <= |slots|
  {
    if k < |slots| then slots[k := slot] else slots + [slot]
  }

  // ---------------------------------------------------------------- file and list agree

  predicate RightFormat(slot: Slot) { slot.mark == MARK_DWLD && slot.checkSum == CHECKSUM }

  /** What the check of the file's format accepts. */
  ghost predicate AllRight(slots: seq<Slot>) {
    forall k :: 0 <= k < |slots| ==> RightFormat(slots[k])
  }

  /** The node's slot is the `k`-th one, is in use and says the same. */
  ghost predicate At(slots: seq<Slot>, node: TaskNode, k: nat) {
    k < |slots| && node.offset == k * SLOT_LEN && slots[k].isUsing && slots[k].info == node.info
  }

  ghost predicate HasSlot(slots: seq<Slot>, node: TaskNode) {
    exists k :: At(slots, node, k)
  }

  ghost predicate HasNode(list: seq<TaskNode>, k: nat) {
    exists i :: 0 <= i < |list| && list[i].offset == k * SLOT_LEN
  }

  ghost predicate Mirrored(slots: seq<Slot>, list: seq<TaskNode>) {
    && (forall i {:trigger HasSlot(slots, list[i])} :: 0 <= i < |list| ==> HasSlot(slots, list[i]))
    && (forall k {:trigger HasNode(list, k)} :: 0 <= k < |slots| && slots[k].isUsing ==> HasNode(list, k))
  }

  ghost predicate Distinct(list: seq<TaskNode>) {
    && (forall i, j :: 0 <= i < j < |list| ==>
          list[i].offset != list[j].offset && list[i].info.key != list[j].info.key)
    && (forall i :: 0 <= i < |list| && list[i].fileId >= 0 ==> list[i].info.isDwlding)
  }

  /** Every record is well formed; every node has a slot of its own that says the same; every
      used slot has a node; no key occurs twice. */
  ghost predicate Agree(slots: seq<Slot>, list: seq<TaskNode>) {
    && AllRight(slots)
    && Mirrored(slots, list)
    && Distinct(list)
  }

  // ---------------------------------------------------------------- the operations, as functions

  /** Both mirrors with the info of node `i` replaced and its slot in use or not. */
  function UpdateSlots(slots: seq<Slot>, k: nat, info: DwldInfo, isUsing: bool): seq<Slot>
    requires k < |slots|
  {
    slots[k := Slot(MARK_DWLD, isUsing, info, CHECKSUM)]
  }

  function UpdateNode(list: seq<TaskNode>, i: nat, info: DwldInfo): seq<TaskNode>
    requires i < |list|
  {
    list[i := list[i].(info := info)]
  }

  function RemoveAt(list: seq<TaskNode>, i: nat): seq<TaskNode>
    requires i < |list|
  {
    list[..i] + list[i + 1..]
  }

  lemma MirroredAfterAdd(slots: seq<Slot>, list: seq<TaskNode>, info: DwldInfo, fileId: int)
    requires Mirrored(slots, list)
    ensures var k := FirstFree(slots);
            && Mirrored(SetSlot(slots, k, Slot(MARK_DWLD, true, info, CHECKSUM)), [TaskNode(info, k * SLOT_LEN, fileId)] + list)
            && forall i :: 0 <= i < |list| ==> list[i].offset != k * SLOT_LEN
  {
    var k := FirstFree(slots);
    var slots' := SetSlot(slots, k, Slot(MARK_DWLD, true, info, CHECKSUM));
    var node := TaskNode(info, k * SLOT_LEN, fileId);
    var list' := [node] + list;
    forall i | 0 <= i < |list'|
      ensures HasSlot(slots', list'[i])
      ensures i > 0 ==> list[i - 1].offset != k * SLOT_LEN
    {
      if i == 0 {
        assert At(slots', list'[i], k);
      } else {
        assert HasSlot(slots, list[i - 1]);
        var m :| At(slots, list[i - 1], m);
        assert At(slots', list'[i], m);
      }
    }
    forall i | 0 <= i < |list|
      ensures list[i].offset != k * SLOT_LEN
    {
      assert list'[i + 1] == list[i];
    }
    forall m | 0 <= m < |slots'| && slots'[m].isUsing
      ensures HasNode(list', m)
    {
      if m == k {
        assert list'[0].offset == m * SLOT_LEN;
      } else {
        assert HasNode(list, m);
        var i :| 0 <= i < |list| && list[i].offset == m * SLOT_LEN;
        assert list'[i + 1].offset == m * SLOT_LEN;
      }
    }
  }

  lemma MirroredAfterUpdate(slots: seq<Slot>, list: seq<TaskNode>, i: nat, k: nat, info: DwldInfo)
    requires Mirrored(slots, list) && Distinct(list) && i < |list| && At(slots, list[i], k)
    ensures Mirrored(UpdateSlots(slots, k, info, true), UpdateNode(list, i, info))
  {
    var slots', list' := UpdateSlots(slots, k, info, true), UpdateNode(list, i, info);
    forall j | 0 <= j < |list'|
      ensures HasSlot(slots', list'[j])
    {
      assert HasSlot(slots, list[j]);
      var m :| At(slots, list[j], m);
      assert At(slots', list'[j], m);
    }
    forall m | 0 <= m < |slots'| && slots'[m].isUsing
      ensures HasNode(list', m)
    {
      assert slots[m].isUsing && HasNode(list, m);
      var j :| 0 <= j < |list| && list[j].offset == m * SLOT_LEN;
      assert list'[j].offset == m * SLOT_LEN;
    }
  }

  lemma MirroredAfterRemove(slots: seq<Slot>, list: seq<TaskNode>, i: nat, k: nat, info: DwldInfo)
    requires Mirrored(slots, list) && Distinct(list) && i < |list| && At(slots, list[i], k)
    ensures Mirrored(UpdateSlots(slots, k, info, false), RemoveAt(list, i))
  {
    var slots', list' := UpdateSlots(slots, k, info, false), RemoveAt(list, i);
    forall j | 0 <= j < |list'|
      ensures HasSlot(slots', list'[j])
    {
      var j' := if j < i then j else j + 1;
      assert list'[j] == list[j'];
      assert HasSlot(slots, list[j']);
      var m :| At(slots, list[j'], m);
      assert At(slots', list'[j], m);
    }
    forall m | 0 <= m < |slots'| && slots'[m].isUsing
      ensures HasNode(list', m)
    {
      assert slots[m].isUsing && HasNode(list, m);
      var j :| 0 <= j < |list| && list[j].offset == m * SLOT_LEN;
      assert list'[if j < i then j else j - 1].offset == m * SLOT_LEN;
    }
  }

  lemma MirroredAfterFileId(slots: seq<Slot>, list: seq<TaskNode>, i: nat, fileId: int)
    requires Mirrored(slots, list) && i < |list|
    ensures Mirrored(slots, list[i := list[i].(fileId := fileId)])
  {
    var list' := list[i := list[i].(fileId := fileId)];
    forall j | 0 <= j < |list'|
      ensures HasSlot(slots, list'[j])
    {
      assert HasSlot(slots, list[j]);
      var m: nat :| At(slots, list[j], m);
      assert At(slots, list'[j], m);
    }
    forall m | 0 <= m < |slots| && slots[m].isUsing
      ensures HasNode(list', m)
    {
      assert HasNode(list, m);
      var j :| 0 <= j < |list| && list[j].offset == m * SLOT_LEN;
      assert list'[j].offset == m * SLOT_LEN;
    }
  }

  // ---------------------------------------------------------------- recovery

  /** A record after a restart: a used one is not being downloaded any more. */
  function ClearSlot(slot: Slot): Slot {
    if slot.isUsing then slot.(info := slot.info.(isDwlding := false)) else slot
  }

  function ClearDwlding(slots: seq<Slot>): seq<Slot> {
    seq(|slots|, k requires 0 <= k < |slots| => ClearSlot(slots[k]))
  }

  /** The node read back from the `k`-th record, if it is in use. */
  function NodeOf(slot: Slot, k: nat): seq<TaskNode> {
    if slot.isUsing then [TaskNode(slot.info.(isDwlding := false), k * SLOT_LEN, -1)] else []
  }

  /** The task list read back from the first `k` records; each node is put in front. */
  function BuiltUpTo(slots: seq<Slot>, k: nat): seq<TaskNode>
    requires k <= |slots|
  {
    if k == 0 then [] else NodeOf(slots[k - 1], k - 1) + BuiltUpTo(slots, k - 1)
  }

  function Rebuilt(slots: seq<Slot>): seq<TaskNode> { BuiltUpTo(slots, |slots|) }

  /** No file id occurs twice: the tasks of running downloads, as long as no id is given out
      before the task that had it is forgotten. */
  ghost predicate DistinctIds(list: seq<TaskNode>) {
    forall i, j :: 0 <= i < j < |list| && list[i].fileId == list[j].fileId ==> list[i].fileId < 0
  }

  ghost predicate HeldByOther(list: seq<TaskNode>, key: Key, fileId: int) {
    exists j :: 0 <= j < |list| && list[j].info.key != key && list[j].fileId == fileId
  }

  /** Giving out a file id keeps the ids distinct exactly when no other task has it. */
  lemma DistinctIdsAfter(list: seq<TaskNode>, i: nat, fileId: int)
    requires Distinct(list) && i < |list| && fileId >= 0
    ensures DistinctIds(list) ==>
              (DistinctIds(list[i := list[i].(fileId := fileId)]) <==> !HeldByOther(list, list[i].info.key, fileId))
  {
    var list' := list[i := list[i].(fileId := fileId)];
    if j :| 0 <= j < |list| && list[j].info.key != list[i].info.key && list[j].fileId == fileId {
      assert list'[j].fileId == list'[i].fileId == fileId;
    }
  }

  /** What a restart makes of a node. */
  function Restarted(f: Found): Found {
    match f
    case NotFound => NotFound
    case Found(n) => Found(n.(info := n.info.(isDwlding := false), fileId := -1))
  }

  /** `node` is what a restart makes of the `k`-th record. */
  ghost predicate ReadFrom(slots: seq<Slot>, node: TaskNode, k: nat) {
    k < |slots| && slots[k].isUsing && node == TaskNode(slots[k].info.(isDwlding := false), k * SLOT_LEN, -1)
  }

  ghost predicate IsRead(slots: seq<Slot>, node: TaskNode) {
    exists k :: ReadFrom(slots, node, k)
  }

  /** Rebuilt nodes stand for exactly the used records, in decreasing order of offset. */
  lemma {:induction false} BuiltNodes(slots: seq<Slot>, n: nat)
    requires n <= |slots|
    ensures forall i {:trigger IsRead(slots, BuiltUpTo(slots, n)[i])} :: 0 <= i < |BuiltUpTo(slots, n)| ==>
              IsRead(slots, BuiltUpTo(slots, n)[i]) && BuiltUpTo(slots, n)[i].offset < n * SLOT_LEN
    ensures forall i, j :: 0 <= i < j < |BuiltUpTo(slots, n)| ==>
              BuiltUpTo(slots, n)[i].offset > BuiltUpTo(slots, n)[j].offset
    ensures forall k {:trigger HasNode(BuiltUpTo(slots, n), k)} :: 0 <= k < n && slots[k].isUsing ==>
              HasNode(BuiltUpTo(slots, n), k)
  {
    if n > 0 {
      BuiltNodes(slots, n - 1);
      var first, rest := NodeOf(slots[n - 1], n - 1), BuiltUpTo(slots, n - 1);
      var list := first + rest;
      forall i | 0 <= i < |list|
        ensures IsRead(slots, list[i]) && list[i].offset < n * SLOT_LEN
      {
        if i < |first| {
          assert ReadFrom(slots, list[i], n - 1);
        } else {
          assert IsRead(slots, rest[i - |first|]);
        }
      }
      forall i, j | 0 <= i < j < |list|
        ensures list[i].offset > list[j].offset
      {
        assert IsRead(slots, rest[j - |first|]);
      }
      forall k | 0 <= k < n && slots[k].isUsing
        ensures HasNode(list, k)
      {
        if k < n - 1 {
          assert HasNode(rest, k);
          var i :| 0 <= i < |rest| && rest[i].offset == k * SLOT_LEN;
          assert list[i + |first|].offset == k * SLOT_LEN;
        } else {
          assert list[0].offset == k * SLOT_LEN;
        }
      }
    }
  }

  lemma {:induction false} ClearThenBuild(slots: seq<Slot>, n: nat)
    requires n <= |slots|
    ensures BuiltUpTo(ClearDwlding(slots), n) == BuiltUpTo(slots, n)
  {
    if n > 0 {
      ClearThenBuild(slots, n - 1);
    }
  }

  /** After a restart from any checkpoint that agreed with the list, every task is found again
      with its offset, unit, length and path, no longer running and without a file id; file and
      list agree; and a second restart changes nothing. */
  lemma RecoveryKeepsTasks(slots: seq<Slot>, list: seq<TaskNode>)
    requires Agree(slots, list)
    ensures Agree(ClearDwlding(slots), Rebuilt(slots))
    ensures forall key :: Lookup(Rebuilt(slots), key) == Restarted(Lookup(list, key))
    ensures ClearDwlding(ClearDwlding(slots)) == ClearDwlding(slots) && Rebuilt(ClearDwlding(slots)) == Rebuilt(slots)
  {
    BuiltNodes(slots, |slots|);
    ClearThenBuild(slots, |slots|);
    RebuiltMirrored(slots);
    RebuiltDistinct(slots, list);
    forall key
      ensures Lookup(Rebuilt(slots), key) == Restarted(Lookup(list, key))
    {
      RebuiltLookup(slots, list, key);
    }
  }

  lemma RebuiltMirrored(slots: seq<Slot>)
    ensures Mirrored(ClearDwlding(slots), Rebuilt(slots))
  {
    BuiltNodes(slots, |slots|);
    forall i | 0 <= i < |Rebuilt(slots)|
      ensures HasSlot(ClearDwlding(slots), Rebuilt(slots)[i])
    {
      assert IsRead(slots, Rebuilt(slots)[i]);
      var k :| ReadFrom(slots, Rebuilt(slots)[i], k);
      assert At(ClearDwlding(slots), Rebuilt(slots)[i], k);
    }
  }

  /** Each rebuilt node comes from a node of the list. */
  lemma RebuiltOrigin(slots: seq<Slot>, list: seq<TaskNode>, i: nat) returns (j: nat)
    requires Agree(slots, list) && i < |Rebuilt(slots)|
    ensures j < |list| && list[j].offset == Rebuilt(slots)[i].offset
    ensures Rebuilt(slots)[i] == list[j].(info := list[j].info.(isDwlding := false), fileId := -1)
  {
    BuiltNodes(slots, |slots|);
    assert IsRead(slots, Rebuilt(slots)[i]);
    var k: nat :| ReadFrom(slots, Rebuilt(slots)[i], k);
    assert HasNode(list, k);
    j :| 0 <= j < |list| && list[j].offset == k * SLOT_LEN;
    assert HasSlot(slots, list[j]);
    var m :| At(slots, list[j], m);
    assert m == k;
  }

  lemma RebuiltDistinct(slots: seq<Slot>, list: seq<TaskNode>)
    requires Agree(slots, list)
    ensures Distinct(Rebuilt(slots))
  {
    BuiltNodes(slots, |slots|);
    var built := Rebuilt(slots);
    forall i, j | 0 <= i < j < |built|
      ensures built[i].info.key != built[j].info.key && built[i].fileId == -1
    {
      var i' := RebuiltOrigin(slots, list, i);
      var j' := RebuiltOrigin(slots, list, j);
      assert i' != j';
    }
    forall i | 0 <= i < |built|
      ensures built[i].fileId == -1
    {
      var i' := RebuiltOrigin(slots, list, i);
    }
  }

  lemma RebuiltLookup(slots: seq<Slot>, list: seq<TaskNode>, key: Key)
    requires Agree(slots, list)
    ensures Lookup(Rebuilt(slots), key) == Restarted(Lookup(list, key))
  {
    var built := Rebuilt(slots);
    var i, j := IndexOf(built, key), IndexOf(list, key);
    if j < |list| {
      BuiltNodes(slots, |slots|);
      assert HasSlot(slots, list[j]);
      var k: nat :| At(slots, list[j], k);
      assert HasNode(built, k);
      var m :| 0 <= m < |built| && built[m].offset == k * SLOT_LEN;
      var j' := RebuiltOrigin(slots, list, m);
      assert j' == j;
      assert built[m].info.key == key;
    }
    if i < |built| {
      var j' := RebuiltOrigin(slots, list, i);
      assert j' == j;
    }
  }

  // ---------------------------------------------------------------- effects on lookups

  lemma LookupAfterAdd(list: seq<TaskNode>, node: TaskNode, key: Key)
    ensures Lookup([node] + list, key) == if node.info.key == key then Found(node) else Lookup(list, key)
  {
    assert ([node] + list)[1..] == list;
  }

  lemma LookupAfterUpdate(list: seq<TaskNode>, i: nat, node: TaskNode, key: Key)
    requires i == IndexOf(list, node.info.key) < |list|
    ensures Lookup(list[i := node], key) == if node.info.key == key then Found(node) else Lookup(list, key)
  {
    var list' := list[i := node];
    var j, j' := IndexOf(list, key), IndexOf(list', key);
    assert j < |list| ==> list'[j].info.key == list[j].info.key;
    assert j' < |list| ==> list'[j'].info.key == list[j'].info.key;
    assert j == j';
  }

  lemma LookupAfterRemove(list: seq<TaskNode>, i: nat, key: Key)
    requires Distinct(list) && i < |list|
    ensures Lookup(RemoveAt(list, i), key) == if list[i].info.key == key then NotFound else Lookup(list, key)
  {
    var list' := RemoveAt(list, i);
    var j, j' := IndexOf(list, key), IndexOf(list', key);
    assert forall m :: 0 <= m < |list'| ==> list'[m] == list[if m < i then m else m + 1];
    if j < |list| && j != i {
      assert list'[if j < i then j else j - 1] == list[j];
    }
  }

  lemma {:induction false} CountAppend(list: seq<TaskNode>, other: seq<TaskNode>)
    ensures CountDwlding(list + other) == CountDwlding(list) + CountDwlding(other)
    decreases |other|
  {
    if other == [] {
      assert list + other == list;
    } else {
      assert (list + other)[..|list + other| - 1] == list + other[..|other| - 1];
      CountAppend(list, other[..|other| - 1]);
    }
  }

  /** The count is the number of running tasks. */
  lemma {:induction false} CountIsSize(list: seq<TaskNode>)
    ensures CountDwlding(list) == |set i | 0 <= i < |list| && list[i].info.isDwlding|
  {
    if list != [] {
      var front, n := list[..|list| - 1], |list| - 1;
      CountIsSize(front);
      var all, before := set i | 0 <= i < |list| && list[i].info.isDwlding, set i | 0 <= i < n && front[i].info.isDwlding;
      assert all == before + if list[n].info.isDwlding then {n} else {};
    }
  }

  lemma CountOne(node: TaskNode)
    ensures CountDwlding([node]) == if node.info.isDwlding then 1 else 0
  {
    assert CountDwlding([node]) == CountDwlding([node][..0]) + (if node.info.isDwlding then 1 else 0);
  }

  lemma {:induction false} CountSplit(list: seq<TaskNode>, i: nat)
    requires i < |list|
    ensures CountDwlding(list) ==
            CountDwlding(list[..i]) + (if list[i].info.isDwlding then 1 else 0) + CountDwlding(list[i + 1..])
  {
    assert list == list[..i] + ([list[i]] + list[i + 1..]);
    CountAppend(list[..i], [list[i]] + list[i + 1..]);
    CountAppend([list[i]], list[i + 1..]);
    CountOne(list[i]);
  }

  lemma CountAfterUpdate(list: seq<TaskNode>, i: nat, node: TaskNode)
    requires i < |list|
    ensures CountDwlding(list[i := node]) ==
            CountDwlding(list) - (if list[i].info.isDwlding then 1 else 0) + (if node.info.isDwlding then 1 else 0)
  {
    CountSplit(list, i);
    CountSplit(list[i := node], i);
    assert list[i := node][..i] == list[..i] && list[i := node][i + 1..] == list[i + 1..];
  }

  lemma {:induction false} CountAfterRemove(list: seq<TaskNode>, i: nat)
    requires i < |list|
    ensures CountDwlding(RemoveAt(list, i)) <= CountDwlding(list)
  {
    CountSplit(list, i);
    CountAppend(list[..i], list[i + 1..]);
  }

  lemma NoneRunning(list: seq<TaskNode>)
    requires forall i :: 0 <= i < |list| ==> !list[i].info.isDwlding
    ensures CountDwlding(list) == 0
  {
  }

  lemma CountBuilt(slots: seq<Slot>, n: nat)
    requires n <= |slots|
    ensures CountDwlding(BuiltUpTo(slots, n)) == 0
  {
    var list := BuiltUpTo(slots, n);
    BuiltNodes(slots, n);
    forall i | 0 <= i < |list|
      ensures !list[i].info.isDwlding
    {
      assert IsRead(slots, list[i]);
    }
    NoneRunning(list);
  }
}
