/**
 Transfer of the file list: the server writes its records one after another, the client sorts
 them into one list per ftype, and a query concatenates those lists.  Client lists only ever
 grow at the front.
 */
module FileList {

  const TYPE_VIDEO: nat := 1
  const TYPE_ALL: nat := 15
  const TYPE_MAX: nat := 16

  datatype FileInfo = FileInfo(filetype: nat, filename: string, filesize: nat, ownerName: string, state: int)

  function Reversed<T>(s: seq<T>): seq<T> {
    if s == [] then [] else [s[|s| - 1]] + Reversed(s[..|s| - 1])
  }

  lemma {:induction false} ReversedAppend<T>(a: seq<T>, b: seq<T>)
    ensures Reversed(a + b) == Reversed(b) + Reversed(a)
    decreases |b|
  {
    if b == [] {
      assert a + b == a;
    } else {
      assert (a + b)[..|a + b| - 1] == a + b[..|b| - 1];
      ReversedAppend(a, b[..|b| - 1]);
    }
  }

  lemma ReversedSingle<T>(x: T)
    ensures Reversed([x]) == [x]
  {
    assert Reversed([x]) == [x] + Reversed([x][..0]);
  }

  lemma {:induction false} ReversedTwice<T>(s: seq<T>)
    ensures Reversed(Reversed(s)) == s
  {
    if s != [] {
      ReversedTwice(s[..|s| - 1]);
      ReversedAppend([s[|s| - 1]], Reversed(s[..|s| - 1]));
      assert Reversed([s[|s| - 1]]) == [s[|s| - 1]];
      assert s == s[..|s| - 1] + [s[|s| - 1]];
    }
  }

  /** The records of one ftype, in order. */
  function OfType(records: seq<FileInfo>, t: nat): seq<FileInfo> {
    if records == [] then []
    else OfType(records[..|records| - 1], t)
         + (if records[|records| - 1].filetype == t then [records[|records| - 1]] else [])
  }

  /** With the case of a single record this says what the records of one type are: those records,
      in order. */
  lemma {:induction false} OfTypeConcat(a: seq<FileInfo>, b: seq<FileInfo>, t: nat)
    ensures OfType(a + b, t) == OfType(a, t) + OfType(b, t)
    decreases |b|
  {
    if b == [] {
      assert a + b == a;
    } else {
      assert (a + b)[..|a + b| - 1] == a + b[..|b| - 1];
      OfTypeConcat(a, b[..|b| - 1], t);
    }
  }

  lemma OfTypeSingle(info: FileInfo, t: nat)
    ensures OfType([info], t) == if info.filetype == t then [info] else []
  {
    assert [info][..0] == [];
  }

  predicate IsPlainType(t: nat) { t == 1 || t == 2 || t == 4 || t == 8 }

  /** Whether a refresh of `ftype` empties the list of `t` first. */
  predicate Covers(ftype: nat, t: nat) {
    if ftype == TYPE_ALL then IsPlainType(t) else t == ftype
  }

  /** Whether a refresh of `ftype` stores records of type `t`. */
  predicate Accepts(ftype: nat, t: nat) { ftype == TYPE_ALL || t == ftype }

  /** What a refresh puts into the list of `t`. */
  function Stored(records: seq<FileInfo>, ftype: nat, t: nat): seq<FileInfo> {
    if Accepts(ftype, t) then Reversed(OfType(records, t)) else []
  }

  class ClientFilelist {
    // The last cell stands for the word behind the array of the code: a record that claims to be
    // of all types is put there when all types are refreshed.
    const lists: array<seq<FileInfo>>

    ghost predicate Valid() { lists.Length == TYPE_MAX }

    constructor ()
      ensures Valid() && fresh(lists) && forall t :: 0 <= t < TYPE_MAX ==> lists[t] == []
    {
      lists := new seq<FileInfo>[TYPE_MAX](_ => []);
    }

    method FreeLocalFilelist(ftype: nat)
      requires Valid() && 1 <= ftype < TYPE_MAX
      modifies lists
      ensures forall t :: 0 <= t < TYPE_MAX ==> lists[t] == if Covers(ftype, t) then [] else old(lists[t])
      ensures forall t :: 0 <= t < TYPE_MAX ==>
                lists[t] ==
                if (ftype == 15 && (t == 1 || t == 2 || t == 4 || t == 8)) || (ftype != 15 && t == ftype) then []
                else old(lists[t])
    {
      var curType := if ftype == TYPE_ALL then TYPE_VIDEO else ftype;
      while curType < (if ftype == TYPE_ALL then TYPE_ALL else ftype + 1)
        invariant curType > 0
        invariant ftype == TYPE_ALL ==> IsPlainType(curType) || curType == 16
        invariant ftype != TYPE_ALL ==> curType == ftype || curType == 2 * ftype
        invariant forall t :: 0 <= t < TYPE_MAX ==>
                    lists[t] == if Covers(ftype, t) && t < curType then [] else old(lists[t])
        decreases 32 - curType
      {
        lists[curType] := [];
        curType := curType * 2;
      }
    }

    /** One record goes to the front of the list of its type, or is passed over. */
    method StoreRecord(info: FileInfo, ftype: nat)
      requires Valid() && 1 <= ftype < TYPE_MAX
      modifies lists
      ensures forall t :: 0 <= t < TYPE_MAX ==>
                lists[t] == (if Accepts(ftype, t) && info.filetype == t then [info] else []) + old(lists[t])
    {
      if info.filetype >= TYPE_MAX || (ftype != TYPE_ALL && info.filetype != ftype) {
        return;
      }
      lists[info.filetype] := [info] + lists[info.filetype];
    }

    /** Sort the received records into the lists. */
    method SetFilelistValue(records: seq<FileInfo>, ftype: nat) returns (ret: int)
      requires Valid()
      modifies lists
      ensures ret == if 1 <= ftype < TYPE_MAX then 0 else -1
      ensures ret == -1 ==> lists[..] == old(lists[..])
      ensures ret == 0 ==> forall t :: 0 <= t < TYPE_MAX ==>
                lists[t] ==
                (if ftype == 15 || t == ftype then Reversed(OfType(records, t)) else [])
                + (if (ftype == 15 && (t == 1 || t == 2 || t == 4 || t == 8)) || (ftype != 15 && t == ftype) then []
                   else old(lists[t]))
    {
      if ftype < TYPE_VIDEO || ftype >= TYPE_MAX {
        return -1;
      }
      FreeLocalFilelist(ftype);
      StoreAll(records, ftype);
      return 0;
    }

    /** The loop over the received records. */
    method StoreAll(records: seq<FileInfo>, ftype: nat)
      requires Valid() && 1 <= ftype < TYPE_MAX
      modifies lists
      ensures forall t :: 0 <= t < TYPE_MAX ==> lists[t] == Stored(records, ftype, t) + old(lists[t])
    {
      ghost var freed := lists[..];
      var read := 0;
      while read < |records|
        invariant 0 <= read <= |records|
        invariant forall t :: 0 <= t < TYPE_MAX ==> lists[t] == Stored(records[..read], ftype, t) + freed[t]
      {
        ghost var before := lists[..];
        StoreRecord(records[read], ftype);
        assert records[..read + 1] == records[..read] + [records[read]];
        forall t | 0 <= t < TYPE_MAX
          ensures lists[t] == Stored(records[..read + 1], ftype, t) + freed[t]
        {
          StoreOne(records[..read], records[read], ftype, t, freed[t], before[t]);
        }
        read := read + 1;
      }
      assert records[..read] == records;
    }

    /** The refresh as a whole: an empty answer is not looked at. */
    method RefreshFilelist(answer: seq<FileInfo>, ftype: nat) returns (ret: int)
      requires Valid() && 1 <= ftype < TYPE_MAX
      modifies lists
      ensures ret == 0
      ensures answer == [] ==> lists[..] == old(lists[..])
      ensures answer != [] ==> forall t :: 0 <= t < TYPE_MAX ==>
                lists[t] ==
                (if ftype == 15 || t == ftype then Reversed(OfType(answer, t)) else [])
                + (if (ftype == 15 && (t == 1 || t == 2 || t == 4 || t == 8)) || (ftype != 15 && t == ftype) then []
                   else old(lists[t]))
    {
      if answer != [] {
        ret := SetFilelistValue(answer, ftype);
      } else {
        ret := 0;
      }
    }

    /** Copy one list, record by record, to the front of the result. */
    method Prepend(list: seq<FileInfo>, before: seq<FileInfo>) returns (result: seq<FileInfo>)
      ensures result == Reversed(list) + before
    {
      result := before;
      var n := 0;
      while n < |list|
        invariant 0 <= n <= |list|
        invariant result == Reversed(list[..n]) + before
      {
        assert list[..n + 1][..n] == list[..n];
        result := [list[n]] + result;
        n := n + 1;
      }
      assert list[..n] == list;
    }

    /** A query walks every list it covers. */
    method GetFilelist(ftype: nat) returns (ret: int, result: seq<FileInfo>)
      requires Valid()
      ensures ret == if 1 <= ftype < TYPE_MAX then 0 else -9
      ensures 1 <= ftype < TYPE_ALL ==> result == Reversed(lists[ftype])
      ensures ftype == TYPE_ALL ==>
                result == Reversed(lists[8]) + Reversed(lists[4]) + Reversed(lists[2]) + Reversed(lists[1])
    {
      result := [];
      if ftype >= TYPE_MAX || ftype < TYPE_VIDEO {
        return -9, [];
      }
      var curType := if ftype == TYPE_ALL then TYPE_VIDEO else ftype;
      ghost var all := lists[..];
      while curType < (if ftype == TYPE_ALL then TYPE_ALL else ftype + 1)
        invariant curType > 0
        invariant ftype == TYPE_ALL ==> IsPlainType(curType) || curType == 16
        invariant ftype != TYPE_ALL ==> curType == ftype || curType == 2 * ftype
        invariant ftype != TYPE_ALL ==> result == if curType == ftype then [] else Reversed(all[ftype])
        invariant ftype == TYPE_ALL ==> result == Walked(all, curType)
        decreases 32 - curType
      {
        if ftype == TYPE_ALL {
          WalkOne(all, curType);
        }
        assert lists[curType] == all[curType];
        result := Prepend(lists[curType], result);
        curType := curType * 2;
      }
      WalkedAll(all);
      return 0, result;
    }
  }

  /** The result of a full query once all types below `t` have been walked. */
  function Walked(lists: seq<seq<FileInfo>>, t: nat): seq<FileInfo>
    requires |lists| == TYPE_MAX
  {
    if t <= 1 then []
    else if t <= 2 then Reversed(lists[1])
    else if t <= 4 then Reversed(lists[2]) + Reversed(lists[1])
    else if t <= 8 then Reversed(lists[4]) + (Reversed(lists[2]) + Reversed(lists[1]))
    else Reversed(lists[8]) + (Reversed(lists[4]) + (Reversed(lists[2]) + Reversed(lists[1])))
  }

  lemma OneMore(records: seq<FileInfo>, info: FileInfo, t: nat)
    ensures OfType(records + [info], t) == OfType(records, t) + (if info.filetype == t then [info] else [])
    ensures Reversed(OfType(records + [info], t)) ==
            (if info.filetype == t then [info] else []) + Reversed(OfType(records, t))
  {
    assert (records + [info])[..|records|] == records;
    ReversedAppend(OfType(records, t), if info.filetype == t then [info] else []);
    assert Reversed([info]) == [info] + Reversed([info][..0]);
  }

  lemma StoreOne(records: seq<FileInfo>, info: FileInfo, ftype: nat, t: nat, freed: seq<FileInfo>, before: seq<FileInfo>)
    requires before == Stored(records, ftype, t) + freed
    ensures (if Accepts(ftype, t) && info.filetype == t then [info] else []) + before
            == Stored(records + [info], ftype, t) + freed
  {
    var x := if Accepts(ftype, t) && info.filetype == t then [info] else [];
    OneMore(records, info, t);
    Regroup(x, Stored(records, ftype, t), freed);
  }

  lemma Regroup(x: seq<FileInfo>, y: seq<FileInfo>, z: seq<FileInfo>)
    ensures x + (y + z) == (x + y) + z
  {
  }

  lemma WalkOne(lists: seq<seq<FileInfo>>, t: nat)
    requires |lists| == TYPE_MAX && IsPlainType(t)
    ensures Walked(lists, 2 * t) == Reversed(lists[t]) + Walked(lists, t)
  {
    assert t == 1 ==> Reversed(lists[1]) + [] == Reversed(lists[1]);
  }

  lemma WalkedAll(lists: seq<seq<FileInfo>>)
    requires |lists| == TYPE_MAX
    ensures Walked(lists, 16) == Reversed(lists[8]) + Reversed(lists[4]) + Reversed(lists[2]) + Reversed(lists[1])
  {
  }

  // ---------------------------------------------------------------- what the client ends up with

  /** A full refresh followed by a full query: the two reversals cancel. */
  method TransferAll(client: ClientFilelist, records: seq<FileInfo>) returns (result: seq<FileInfo>)
    requires client.Valid() && records != []
    requires forall i :: 0 <= i < |records| ==> IsPlainType(records[i].filetype)
    modifies client.lists
    ensures result == OfType(records, 8) + OfType(records, 4) + OfType(records, 2) + OfType(records, 1)
    ensures multiset(result) == multiset(records)
  {
    var ret := client.RefreshFilelist(records, TYPE_ALL);
    ret, result := client.GetFilelist(TYPE_ALL);
    ListBack(client.lists[8], records, 8);
    ListBack(client.lists[4], records, 4);
    ListBack(client.lists[2], records, 2);
    ListBack(client.lists[1], records, 1);
    SortingConserves(records);
  }

  /** A refresh and a query of one type, whatever was there before: the answer's records of that
      type, in server order; the other lists stay. */
  method TransferOne(client: ClientFilelist, answer: seq<FileInfo>, t: nat) returns (result: seq<FileInfo>)
    requires client.Valid() && answer != [] && IsPlainType(t)
    modifies client.lists
    ensures result == OfType(answer, t)
    ensures forall u :: 0 <= u < TYPE_MAX && u != t ==> client.lists[u] == old(client.lists[u])
  {
    var ret := client.RefreshFilelist(answer, t);
    ret, result := client.GetFilelist(t);
    ListBack(client.lists[t], answer, t);
  }

  lemma ListBack(list: seq<FileInfo>, records: seq<FileInfo>, t: nat)
    requires list == Reversed(OfType(records, t)) + []
    ensures Reversed(list) == OfType(records, t)
  {
    assert list == Reversed(OfType(records, t));
    ReversedTwice(OfType(records, t));
  }

  function ByType(records: seq<FileInfo>): seq<FileInfo> {
    OfType(records, 8) + OfType(records, 4) + OfType(records, 2) + OfType(records, 1)
  }

  /** Sorting records of the four types into lists loses none and makes none up. */
  lemma {:induction false} SortingConserves(records: seq<FileInfo>)
    requires forall i :: 0 <= i < |records| ==> IsPlainType(records[i].filetype)
    ensures multiset(ByType(records)) == multiset(records)
  {
    if records != [] {
      var front, last := records[..|records| - 1], records[|records| - 1];
      SortingConserves(front);
      assert records == front + [last];
      assert IsPlainType(last.filetype);
      InsertConserves(OfType(front, 8), OfType(front, 4), OfType(front, 2), OfType(front, 1), last);
    }
  }

  lemma InsertConserves(a: seq<FileInfo>, b: seq<FileInfo>, c: seq<FileInfo>, d: seq<FileInfo>, x: FileInfo)
    requires IsPlainType(x.filetype)
    ensures multiset((a + (if x.filetype == 8 then [x] else [])) + (b + (if x.filetype == 4 then [x] else []))
                     + (c + (if x.filetype == 2 then [x] else [])) + (d + (if x.filetype == 1 then [x] else [])))
            == multiset(a + b + c + d) + multiset{x}
  {
  }
}
