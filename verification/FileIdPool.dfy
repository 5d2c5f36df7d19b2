/**
 The pool of file ids (cliData.c), with its mutexes.  Starting a download locks the mutex of
 every slot it looks at and unlocks only that of the slot it takes: the mutexes of the busy
 slots it passes over stay locked.
 */
module FileIdPool {
  import opened CloudTypes

  datatype StartResult =
    | Started(fileId: nat)
    | Refused(ret: int)
    | Stuck(fileId: nat)  // waits for ever for the mutex of this slot

  function FirstFreeId(isUsing: seq<bool>): (i: nat)
    ensures i <= |isUsing| && (i < |isUsing| ==> !isUsing[i])
    ensures forall j :: 0 <= j < i ==> isUsing[j]
  {
    if isUsing == [] || !isUsing[0] then 0 else 1 + FirstFreeId(isUsing[1..])
  }

  class DwldFiles {
    const isUsing: array<bool>
    const keys: array<Key>
    var locked: set<nat>  // slots whose mutex is held by a call that has returned or is stuck

    /** No file is being downloaded under two ids. */
    ghost predicate Valid()
      reads this, isUsing, keys
    {
      && isUsing.Length == keys.Length == TASK_MAX_NUM
      && (forall i, j :: 0 <= i < j < TASK_MAX_NUM && isUsing[i] && isUsing[j] ==> keys[i] != keys[j])
      && (forall i :: i in locked ==> i < TASK_MAX_NUM)
    }

    predicate Busy(key: Key)
      requires isUsing.Length == keys.Length == TASK_MAX_NUM
      reads this, isUsing, keys
    {
      exists i :: 0 <= i < TASK_MAX_NUM && isUsing[i] && keys[i] == key
    }

    constructor ()
      ensures Valid() && locked == {} && fresh(isUsing) && fresh(keys)
      ensures forall i :: 0 <= i < TASK_MAX_NUM ==> !isUsing[i]
    {
      isUsing := new bool[TASK_MAX_NUM](_ => false);
      keys := new Key[TASK_MAX_NUM](_ => Key(0, ""));
      locked := {};
    }

    /** Take the first free slot for `key`.  `canOpen` is whether the local file could be opened. */
    method CliDataStartDwld(key: Key, canOpen: bool) returns (r: StartResult)
      requires Valid()
      modifies this`locked, isUsing, keys
      ensures Valid()
      ensures old(Busy(key)) ==> r == Refused(-2) && locked == old(locked)
      ensures r.Started? ==>
                && r.fileId == FirstFreeId(old(isUsing[..])) < TASK_MAX_NUM
                && Below(r.fileId) !! old(locked) && r.fileId !in old(locked)
                && locked == old(locked) + Below(r.fileId)
                && isUsing[..] == old(isUsing[..])[r.fileId := true] && keys[..] == old(keys[..])[r.fileId := key]
      ensures !r.Started? ==> isUsing[..] == old(isUsing[..]) && keys[..] == old(keys[..])
      ensures r.Stuck? <==> !old(Busy(key)) && exists i :: i in old(locked) && i <= FirstFreeId(old(isUsing[..]))
      ensures r.Stuck? ==>
                && r.fileId in old(locked) && r.fileId <= FirstFreeId(old(isUsing[..]))
                && Below(r.fileId) !! old(locked) && locked == old(locked) + Below(r.fileId)
      ensures r.Started? <==>
                && canOpen && !old(Busy(key)) && FirstFreeId(old(isUsing[..])) < TASK_MAX_NUM
                && forall i :: i in old(locked) ==> i > FirstFreeId(old(isUsing[..]))
      ensures r.Refused? ==> (r.ret == -2 && old(Busy(key))) || r.ret == -3
      ensures r == Refused(-3) ==>
                (FirstFreeId(old(isUsing[..])) == TASK_MAX_NUM || !canOpen)
                && locked == old(locked) + Below(FirstFreeId(old(isUsing[..])))
    {
      var i := 0;
      while i < TASK_MAX_NUM
        invariant 0 <= i <= TASK_MAX_NUM
        invariant forall j :: 0 <= j < i ==> !(isUsing[j] && keys[j] == key)
      {
        if isUsing[i] && keys[i] == key {
          return Refused(-2);
        }
        i := i + 1;
      }
      ghost var flags := isUsing[..];
      i := 0;
      while i < TASK_MAX_NUM
        invariant 0 <= i <= FirstFreeId(flags)
        invariant locked == old(locked) + Below(i) && Below(i) !! old(locked)
        invariant isUsing[..] == flags && keys[..] == old(keys[..])
      {
        if i in locked {
          return Stuck(i);
        }
        if !isUsing[i] {
          break;
        }
        locked := locked + {i};
        i := i + 1;
      }
      if i >= TASK_MAX_NUM || !canOpen {
        return Refused(-3);
      }
      isUsing[i] := true;
      keys[i] := key;
      return Started(i);
    }

    /** Two downloads at a time: from a pool at rest, the first start leaves no mutex locked, the
        second one leaves that of the running first download locked, which its writer and the
        receiver then wait for, and a third one never returns. */
    method ThirdStartSticks(k1: Key, k2: Key, k3: Key) returns (r1: StartResult, r2: StartResult, r3: StartResult)
      requires Valid() && locked == {} && k1 != k2 && k1 != k3 && k2 != k3
      requires forall i :: 0 <= i < TASK_MAX_NUM ==> !isUsing[i]
      modifies this`locked, isUsing, keys
      ensures Valid()
      ensures r1 == Started(0) && r2 == Started(1) && locked == {0} && isUsing[0] && keys[0] == k1 && r3 == Stuck(0)
    {
      assert isUsing[..][0] == false;
      r1 := CliDataStartDwld(k1, true);
      assert Below(0) == {};
      assert isUsing[..][0] && !isUsing[..][1];
      r2 := CliDataStartDwld(k2, true);
      assert Below(1) == {0};
      assert keys[1] == k2 && isUsing[..][0] && isUsing[..][1];
      r3 := CliDataStartDwld(k3, true);
    }
  }
}
