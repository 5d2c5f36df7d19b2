/**
 The bounded display list (fileMgr.cpp): when it is full, the oldest picture makes room for the
 new one and its file is deleted.
 */
module DisplayList {

  datatype CaptFile = CaptFile(timestamp: int, cameraIp: nat)

  function Stamps(s: seq<CaptFile>): seq<int> { seq(|s|, i requires 0 <= i < |s| => s[i].timestamp) }

  function Times(s: seq<CaptFile>): multiset<int> { multiset(Stamps(s)) }

  /** `t` consists of `k` largest elements of `m`, or of all of them. */
  ghost predicate IsTop(t: multiset<int>, m: multiset<int>, k: nat) {
    && t <= m
    && |t| == (if k <= |m| then k else |m|)
    && forall x, y :: x in t && y in m - t ==> x >= y
  }

  /** There is only one such multiset. */
  lemma TopUnique(t: multiset<int>, u: multiset<int>, m: multiset<int>, k: nat)
    requires IsTop(t, m, k) && IsTop(u, m, k)
    ensures t == u
  {
    if t != u {
      var x := MoreOften(t, u);
      var y := MoreOften(u, t);
      TopOverlap(t, u, m, k, x, y);
      assert false;
    }
  }

  lemma TopOverlap(t: multiset<int>, u: multiset<int>, m: multiset<int>, k: nat, x: int, y: int)
    requires IsTop(t, m, k) && IsTop(u, m, k) && t[x] > u[x] && u[y] > t[y]
    ensures x == y
  {
    assert m[x] >= t[x] && m[y] >= u[y];
    assert x in t && y in m - t && y in u && x in m - u;
  }

  lemma SubsetOfSameSize(t: multiset<int>, u: multiset<int>)
    requires t <= u && |t| == |u|
    ensures t == u
  {
    assert u == t + (u - t);
    assert |u - t| == 0;
  }

  /** Of two different multisets of one size, the first has something more often. */
  lemma MoreOften(t: multiset<int>, u: multiset<int>) returns (x: int)
    requires t != u && |t| == |u|
    ensures t[x] > u[x]
  {
    assert exists x :: t[x] > u[x] by {
      if forall x :: t[x] <= u[x] {
        SubsetOfSameSize(t, u);
      }
    }
    x :| t[x] > u[x];
  }

  /** The top k of `m` with `x` added is the top k with `x`, less the smallest. */
  lemma TopStep(t: multiset<int>, m: multiset<int>, k: nat, x: int, least: int)
    requires IsTop(t, m, k) && |m| >= k
    requires least in t + multiset{x} && forall y :: y in t + multiset{x} ==> least <= y
    ensures IsTop(t + multiset{x} - multiset{least}, m + multiset{x}, k)
  {
    var t', m' := t + multiset{x} - multiset{least}, m + multiset{x};
    assert t' + multiset{least} == t + multiset{x};
    assert m' - t' == m - t + multiset{least};
  }

  lemma TimesConcat(a: seq<CaptFile>, b: seq<CaptFile>)
    ensures Times(a + b) == Times(a) + Times(b)
  {
    assert Stamps(a + b) == Stamps(a) + Stamps(b);
  }

  lemma TimesSingle(f: CaptFile)
    ensures Times([f]) == multiset{f.timestamp}
  {
    assert Stamps([f]) == [f.timestamp];
  }

  lemma TimesRemove(s: seq<CaptFile>, i: nat)
    requires i < |s|
    ensures Times(s[..i] + s[i + 1..]) + multiset{s[i].timestamp} == Times(s)
  {
    assert s == s[..i] + ([s[i]] + s[i + 1..]);
    TimesConcat(s[..i], [s[i]] + s[i + 1..]);
    TimesConcat([s[i]], s[i + 1..]);
    TimesConcat(s[..i], s[i + 1..]);
    TimesSingle(s[i]);
  }

  lemma LeastInTimes(s: seq<CaptFile>, min: nat)
    requires min < |s| && forall i :: 0 <= i < |s| ==> s[min].timestamp <= s[i].timestamp
    ensures s[min].timestamp in Times(s) && forall t :: t in Times(s) ==> s[min].timestamp <= t
  {
    assert Stamps(s)[min] == s[min].timestamp;
    forall t | t in Times(s)
      ensures s[min].timestamp <= t
    {
      assert t in Stamps(s);
    }
  }

  /** The first of those with the smallest timestamp. */
  ghost predicate IsOldest(s: seq<CaptFile>, min: nat)
    requires min < |s|
  {
    && (forall i :: 0 <= i < |s| ==> s[min].timestamp <= s[i].timestamp)
    && forall i :: 0 <= i < min ==> s[min].timestamp < s[i].timestamp
  }

  /** Its position. */
  function FirstOldest(s: seq<CaptFile>): (min: nat)
    requires s != []
    ensures min < |s| && IsOldest(s, min)
  {
    if |s| == 1 then 0
    else
      var m := FirstOldest(s[..|s| - 1]);
      if s[|s| - 1].timestamp < s[m].timestamp then |s| - 1 else m
  }

  lemma OldestUnique(s: seq<CaptFile>, min: nat)
    requires min < |s| && IsOldest(s, min)
    ensures min == FirstOldest(s)
  {
  }

  /** Latest insertion last; before it, the newest K - 1 of all earlier ones; nothing lost. */
  ghost predicate Promise(display: seq<CaptFile>, deleted: seq<CaptFile>, inserted: seq<CaptFile>, k: nat) {
    && k >= 1
    && (inserted == [] ==> display == [])
    && (inserted != [] ==> ShowsNewest(display, inserted, k))
    && Times(display) + Times(deleted) == Times(inserted)
  }

  class FileMgr {
    var display: seq<CaptFile>
    const maxDisplayJpgNum: nat
    ghost var inserted: seq<CaptFile>  // all insertions so far, oldest first
    ghost var deleted: seq<CaptFile>   // pictures whose files were deleted

    ghost predicate Valid()
      reads this
    {
      Promise(display, deleted, inserted, maxDisplayJpgNum)
    }

    constructor (k: nat)
      requires k >= 1
      ensures Valid() && maxDisplayJpgNum == k && inserted == []
    {
      display, maxDisplayJpgNum, inserted, deleted := [], k, [], [];
    }

    /** Position of the first smallest element. */
    method MinElement() returns (min: nat)
      requires display != []
      ensures min < |display| && IsOldest(display, min) && min == FirstOldest(display)
    {
      min := 0;
      var i := 1;
      while i < |display|
        invariant 1 <= i <= |display| && min < i
        invariant forall j :: 0 <= j < i ==> display[min].timestamp <= display[j].timestamp
        invariant forall j :: 0 <= j < min ==> display[min].timestamp < display[j].timestamp
      {
        if display[i].timestamp < display[min].timestamp {
          min := i;
        }
        i := i + 1;
      }
      OldestUnique(display, min);
    }

    /** Drop the first of the oldest pictures of a full list, and its file. */
    method EvictOldest()
      requires Valid() && |display| >= maxDisplayJpgNum
      modifies this`display, this`deleted
      ensures IsTop(Times(display), Times(inserted), maxDisplayJpgNum - 1)
      ensures Times(display) + Times(deleted) == Times(inserted)
      ensures var was, min := old(display), FirstOldest(old(display));
              display == was[..min] + was[min + 1..] && deleted == old(deleted) + [was[min]]
    {
      var min := MinElement();
      var oldest, rest := display[min], display[..min] + display[min + 1..];
      Evicted(display, inserted, maxDisplayJpgNum, min);
      Conserved(display, deleted, min);
      deleted := deleted + [oldest];
      display := rest;
    }

    /** Make room in a full list, and leave any other as it is. */
    method MakeRoom()
      requires Valid()
      modifies this`display, this`deleted
      ensures IsTop(Times(display), Times(inserted), maxDisplayJpgNum - 1)
      ensures Times(display) + Times(deleted) == Times(inserted)
      ensures |old(display)| < maxDisplayJpgNum ==> deleted == old(deleted) && display == old(display)
      ensures |old(display)| >= maxDisplayJpgNum ==>
                var was, min := old(display), FirstOldest(old(display));
                display == was[..min] + was[min + 1..] && deleted == old(deleted) + [was[min]]
    {
      if |display| >= maxDisplayJpgNum {
        EvictOldest();
      } else if inserted != [] {
        NotFull(display, inserted, maxDisplayJpgNum);
      }
    }

    method Push(file: CaptFile)
      requires maxDisplayJpgNum >= 1 && IsTop(Times(display), Times(inserted), maxDisplayJpgNum - 1)
      requires Times(display) + Times(deleted) == Times(inserted)
      modifies this`display, this`inserted
      ensures Valid() && display == old(display) + [file] && inserted == old(inserted) + [file]
    {
      Appended(display, deleted, inserted, file, maxDisplayJpgNum);
      display, inserted := display + [file], inserted + [file];
    }

    method InsertDisplayFileInfo(file: CaptFile)
      requires Valid()
      modifies this
      ensures Valid() && inserted == old(inserted) + [file]
      ensures |old(display)| < maxDisplayJpgNum ==> deleted == old(deleted) && display == old(display) + [file]
      ensures |old(display)| >= maxDisplayJpgNum ==>
                var was, min := old(display), FirstOldest(old(display));
                display == was[..min] + was[min + 1..] + [file] && deleted == old(deleted) + [was[min]]
    {
      MakeRoom();
      Push(file);
    }
  }

  /** Appending to both keeps what the list promises. */
  lemma Appended(display: seq<CaptFile>, deleted: seq<CaptFile>, inserted: seq<CaptFile>, file: CaptFile, k: nat)
    requires k >= 1 && IsTop(Times(display), Times(inserted), k - 1)
    requires Times(display) + Times(deleted) == Times(inserted)
    ensures Promise(display + [file], deleted, inserted + [file], k)
  {
    TimesConcat(display, [file]);
    TimesConcat(inserted, [file]);
    assert (display + [file])[..|display + [file]| - 1] == display;
    assert (inserted + [file])[..|inserted + [file]| - 1] == inserted;
  }

  /** Moving a picture to the deleted ones loses none. */
  lemma Conserved(display: seq<CaptFile>, deleted: seq<CaptFile>, min: nat)
    requires min < |display|
    ensures Times(display[..min] + display[min + 1..]) + Times(deleted + [display[min]]) == Times(display) + Times(deleted)
  {
    TimesRemove(display, min);
    TimesConcat(deleted, [display[min]]);
    TimesSingle(display[min]);
  }

  ghost predicate ShowsNewest(display: seq<CaptFile>, inserted: seq<CaptFile>, k: nat)
    requires inserted != [] && k >= 1
  {
    && display != [] && display[|display| - 1] == inserted[|inserted| - 1]
    && IsTop(Times(display[..|display| - 1]), Times(inserted[..|inserted| - 1]), k - 1)
  }

  lemma LastApart(s: seq<CaptFile>)
    requires s != []
    ensures Times(s) == Times(s[..|s| - 1]) + multiset{s[|s| - 1].timestamp} && |Times(s[..|s| - 1])| == |s| - 1
  {
    var front := s[..|s| - 1];
    assert s == front + [s[|s| - 1]];
    TimesConcat(front, [s[|s| - 1]]);
    TimesSingle(s[|s| - 1]);
  }

  /** A full list without its oldest picture shows the newest K - 1 of all insertions. */
  lemma Evicted(display: seq<CaptFile>, inserted: seq<CaptFile>, k: nat, min: nat)
    requires inserted != [] && k >= 1 && ShowsNewest(display, inserted, k) && |display| >= k && min < |display|
    requires forall i :: 0 <= i < |display| ==> display[min].timestamp <= display[i].timestamp
    ensures IsTop(Times(display[..min] + display[min + 1..]), Times(inserted), k - 1)
  {
    LastApart(display);
    LastApart(inserted);
    LeastInTimes(display, min);
    var t, m := Times(display[..|display| - 1]), Times(inserted[..|inserted| - 1]);
    var x, least := display[|display| - 1].timestamp, display[min].timestamp;
    assert |m| >= k - 1;
    TopStep(t, m, k - 1, x, least);
    OneLess(display, min, t + multiset{x});
  }

  lemma OneLess(display: seq<CaptFile>, min: nat, all: multiset<int>)
    requires min < |display| && Times(display) == all
    ensures Times(display[..min] + display[min + 1..]) == all - multiset{display[min].timestamp}
  {
    TimesRemove(display, min);
  }

  /** A list that is not full still shows everything. */
  lemma NotFull(display: seq<CaptFile>, inserted: seq<CaptFile>, k: nat)
    requires inserted != [] && k >= 1 && ShowsNewest(display, inserted, k) && |display| < k
    ensures IsTop(Times(display), Times(inserted), k - 1)
  {
    LastApart(display);
    LastApart(inserted);
    var t, m := Times(display[..|display| - 1]), Times(inserted[..|inserted| - 1]);
    assert |t| == |m|;
    assert m == t + (m - t) && |m - t| == 0;
    assert t == m;
  }
}
