/**
 The server's list of connected clients (cliMgr.c): a singly linked list behind a head node,
 swept in place for clients that stopped or whose heartbeat is overdue.
 */
module ClientManager {

  const HEARTBEAT_INTEVAL: int := 3  // seconds

  datatype State = Idle | CtrlSockIn | KeyAgreed | Heartbeat | Stopped

  datatype CliInfo = CliInfo(id: nat, ctrlPort: int, ctrlSockId: int, state: State, lastHeartbeat: int)

  // ---------------------------------------------------------------- what a sweep does, on values

  /** `elapsed` is in whole seconds. */
  predicate Overdue(info: CliInfo, elapsed: CliInfo -> int) { elapsed(info) > HEARTBEAT_INTEVAL * 2 + 1 }

  function Aged(info: CliInfo, elapsed: CliInfo -> int): CliInfo {
    if info.state == Heartbeat && Overdue(info, elapsed) then info.(state := Stopped) else info
  }

  /** What is left of the first `n` clients. */
  function Survivors(infos: seq<CliInfo>, elapsed: CliInfo -> int, n: nat): seq<CliInfo>
    requires n <= |infos|
  {
    if n == 0 then []
    else Survivors(infos, elapsed, n - 1)
         + (if infos[n - 1].state == Stopped then [] else [Aged(infos[n - 1], elapsed)])
  }

  /** The sockets reported for the first `n` clients. */
  function Notified(infos: seq<CliInfo>, n: nat): seq<int>
    requires n <= |infos|
  {
    if n == 0 then []
    else Notified(infos, n - 1) + (if infos[n - 1].state == Stopped then [infos[n - 1].ctrlSockId] else [])
  }

  ghost predicate UniqueIds(infos: seq<CliInfo>) {
    forall i, j :: 0 <= i < j < |infos| ==> infos[i].id != infos[j].id
  }

  /** The positions, in order, of those among the first `n` clients that are not stopped. */
  function Kept(infos: seq<CliInfo>, n: nat): seq<nat>
    requires n <= |infos|
  {
    if n == 0 then [] else Kept(infos, n - 1) + (if infos[n - 1].state == Stopped then [] else [n - 1])
  }

  lemma {:induction false} KeptOrdered(infos: seq<CliInfo>, n: nat)
    requires n <= |infos|
    ensures forall k :: 0 <= k < |Kept(infos, n)| ==> Kept(infos, n)[k] < n && infos[Kept(infos, n)[k]].state != Stopped
    ensures forall k, l :: 0 <= k < l < |Kept(infos, n)| ==> Kept(infos, n)[k] < Kept(infos, n)[l]
  {
    if n > 0 {
      KeptOrdered(infos, n - 1);
    }
  }

  lemma {:induction false} KeptComplete(infos: seq<CliInfo>, n: nat, i: nat) returns (k: nat)
    requires i < n <= |infos| && infos[i].state != Stopped
    ensures k < |Kept(infos, n)| && Kept(infos, n)[k] == i
  {
    if i == n - 1 {
      k := |Kept(infos, n)| - 1;
    } else {
      k := KeptComplete(infos, n - 1, i);
    }
  }

  lemma {:induction false} KeptSurvive(infos: seq<CliInfo>, elapsed: CliInfo -> int, n: nat)
    requires n <= |infos|
    ensures |Survivors(infos, elapsed, n)| == |Kept(infos, n)| == n - |Notified(infos, n)|
    ensures forall k :: 0 <= k < |Kept(infos, n)| ==>
              (Kept(infos, n)[k] < |infos|
               && Survivors(infos, elapsed, n)[k] == Aged(infos[Kept(infos, n)[k]], elapsed))
  {
    if n > 0 {
      KeptSurvive(infos, elapsed, n - 1);
    }
  }

  /** The positions, in order, of the stopped ones. */
  function Lost(infos: seq<CliInfo>, n: nat): seq<nat>
    requires n <= |infos|
  {
    if n == 0 then [] else Lost(infos, n - 1) + (if infos[n - 1].state == Stopped then [n - 1] else [])
  }

  lemma {:induction false} LostOrdered(infos: seq<CliInfo>, n: nat)
    requires n <= |infos|
    ensures forall k :: 0 <= k < |Lost(infos, n)| ==> Lost(infos, n)[k] < n && infos[Lost(infos, n)[k]].state == Stopped
    ensures forall k, l :: 0 <= k < l < |Lost(infos, n)| ==> Lost(infos, n)[k] < Lost(infos, n)[l]
  {
    if n > 0 {
      LostOrdered(infos, n - 1);
    }
  }

  lemma {:induction false} LostNotified(infos: seq<CliInfo>, n: nat)
    requires n <= |infos|
    ensures |Notified(infos, n)| == |Lost(infos, n)|
    ensures forall k :: 0 <= k < |Lost(infos, n)| ==>
              (Lost(infos, n)[k] < |infos| && Notified(infos, n)[k] == infos[Lost(infos, n)[k]].ctrlSockId)
  {
    if n > 0 {
      LostNotified(infos, n - 1);
    }
  }

  lemma {:induction false} LostComplete(infos: seq<CliInfo>, n: nat, i: nat) returns (k: nat)
    requires i < n <= |infos| && infos[i].state == Stopped
    ensures k < |Lost(infos, n)| && Lost(infos, n)[k] == i
  {
    if i == n - 1 {
      k := |Lost(infos, n)| - 1;
    } else {
      k := LostComplete(infos, n - 1, i);
    }
  }

  /** `kept` are, in order, the positions of exactly the clients that are not stopped, and
      `lost` those of the others. */
  ghost predicate Separates(infos: seq<CliInfo>, kept: seq<nat>, lost: seq<nat>) {
    && (forall k :: 0 <= k < |kept| ==> kept[k] < |infos| && infos[kept[k]].state != Stopped)
    && (forall k :: 0 <= k < |lost| ==> lost[k] < |infos| && infos[lost[k]].state == Stopped)
    && (forall k, l :: 0 <= k < l < |kept| ==> kept[k] < kept[l])
    && (forall k, l :: 0 <= k < l < |lost| ==> lost[k] < lost[l])
    && (forall i :: 0 <= i < |infos| ==> i in kept || i in lost)
  }

  /** A client after a sweep: as it was, unless it was waiting for a heartbeat for more than 7
      seconds. */
  ghost predicate SweptClient(was: CliInfo, now: CliInfo, elapsed: CliInfo -> int) {
    now == if was.state == Heartbeat && elapsed(was) > 7
           then CliInfo(was.id, was.ctrlPort, was.ctrlSockId, Stopped, was.lastHeartbeat)
           else was
  }

  /** The clients kept, and only they, are left as a sweep leaves them; the sockets of those lost
      are reported, in order. */
  ghost predicate IsSweep(was: seq<CliInfo>, now: seq<CliInfo>, notified: seq<int>, elapsed: CliInfo -> int,
      kept: seq<nat>, lost: seq<nat>)
  {
    && Separates(was, kept, lost) && |now| == |kept| && |notified| == |lost|
    && (forall k :: 0 <= k < |kept| ==> SweptClient(was[kept[k]], now[k], elapsed))
    && (forall k :: 0 <= k < |lost| ==> notified[k] == was[lost[k]].ctrlSockId)
  }

  lemma PositionsSeparate(infos: seq<CliInfo>)
    ensures Separates(infos, Kept(infos, |infos|), Lost(infos, |infos|))
  {
    KeptOrdered(infos, |infos|);
    LostOrdered(infos, |infos|);
    forall i | 0 <= i < |infos|
      ensures i in Kept(infos, |infos|) || i in Lost(infos, |infos|)
    {
      if infos[i].state == Stopped {
        var k := LostComplete(infos, |infos|, i);
      } else {
        var k := KeptComplete(infos, |infos|, i);
      }
    }
  }

  /** A sweep keeps, in order, exactly the clients that were not stopped when it began, with
      nothing changed but that an overdue heartbeat stops the client without removing it yet;
      the others, one for one and in order, are notified; ids stay unique. */
  lemma SweepKeepsTheOthers(infos: seq<CliInfo>, elapsed: CliInfo -> int)
    ensures IsSweep(infos, Survivors(infos, elapsed, |infos|), Notified(infos, |infos|), elapsed,
                    Kept(infos, |infos|), Lost(infos, |infos|))
    ensures UniqueIds(infos) ==> UniqueIds(Survivors(infos, elapsed, |infos|))
  {
    PositionsSeparate(infos);
    LostNotified(infos, |infos|);
    KeptSurvive(infos, elapsed, |infos|);
    UniqueAfterSweep(infos, elapsed);
  }

  lemma {:induction false} UniqueAfterSweep(infos: seq<CliInfo>, elapsed: CliInfo -> int)
    ensures UniqueIds(infos) ==> UniqueIds(Survivors(infos, elapsed, |infos|))
  {
    var kept, survivors := Kept(infos, |infos|), Survivors(infos, elapsed, |infos|);
    KeptOrdered(infos, |infos|);
    KeptSurvive(infos, elapsed, |infos|);
    assert forall k :: 0 <= k < |kept| ==> survivors[k].id == infos[kept[k]].id;
  }

  /** A socket is reported exactly when its client was stopped. */
  lemma {:induction false} NotifiedExactly(infos: seq<CliInfo>, n: nat, sock: int)
    requires n <= |infos|
    ensures sock in Notified(infos, n) <==>
            exists i :: 0 <= i < n && infos[i].state == Stopped && infos[i].ctrlSockId == sock
  {
    if n > 0 {
      NotifiedExactly(infos, n - 1, sock);
    }
  }

  // ---------------------------------------------------------------- the linked list

  class Node {
    var info: CliInfo
    var next: Node?

    constructor (info: CliInfo)
      ensures this.info == info && next == null
    {
      this.info, next := info, null;
    }
  }

  class CliMgr {
    const head: Node
    ghost var nodes: seq<Node>     // behind the head
    ghost var infos: seq<CliInfo>  // what they hold
    ghost var repr: set<Node>      // all nodes the list ever held

    ghost predicate Linked()
      reads this, head, repr
    {
      && head !in repr && (forall i :: 0 <= i < |nodes| ==> nodes[i] in repr)
      && (forall i, j :: 0 <= i < j < |nodes| ==> nodes[i] != nodes[j])
      && head.next == (if nodes == [] then null else nodes[0])
      && (forall i {:trigger nodes[i].next} :: 0 <= i < |nodes| ==>
            nodes[i].next == if i + 1 < |nodes| then nodes[i + 1] else null)
      && |infos| == |nodes| && forall i :: 0 <= i < |nodes| ==> nodes[i].info == infos[i]
    }

    ghost predicate Valid()
      reads this, head, repr
    {
      Linked() && UniqueIds(infos)
    }

    constructor ()
      ensures Valid() && infos == [] && fresh(head)
    {
      head := new Node(CliInfo(0, 0, 0, Idle, 0));
      nodes, infos, repr := [], [], {};
    }

    /** The traversal stands between `pre` and `cur`, at position `i`. */
    ghost predicate Standing(pre: Node, cur: Node?, i: nat)
      reads this, head, repr
    {
      && Linked() && i <= |nodes|
      && pre == (if i == 0 then head else nodes[i - 1])
      && cur == (if i < |nodes| then nodes[i] else null)
    }

    /** Take the current node out of the list. */
    method Unlink(pre: Node, cur: Node, ghost i: nat) returns (cur': Node?)
      requires Standing(pre, cur, i)
      modifies this`nodes, this`infos, pre`next
      ensures Standing(pre, cur', i)
      ensures nodes == old(nodes)[..i] + old(nodes)[i + 1..] && infos == old(infos)[..i] + old(infos)[i + 1..]
    {
      pre.next := cur.next;
      nodes, infos := nodes[..i] + nodes[i + 1..], infos[..i] + infos[i + 1..];
      cur' := pre.next;
    }

    /** -3 when a client with this id is there already; else it is added at the end. */
    method InsertNewCli(id: nat, ctrlPort: int, ctrlSockId: int) returns (ret: int)
      requires Valid()
      modifies this, head`next, repr`next
      ensures Valid() && fresh(repr - old(repr))
      ensures ret == (if exists i :: 0 <= i < |old(infos)| && old(infos)[i].id == id then -3 else 0)
      ensures infos == if ret == 0 then old(infos) + [CliInfo(id, ctrlPort, ctrlSockId, CtrlSockIn, 0)] else old(infos)
    {
      var pre: Node, cur: Node? := head, head.next;
      ghost var i: nat := 0;
      while cur != null
        invariant Standing(pre, cur, i)
        invariant forall j :: 0 <= j < i ==> infos[j].id != id
        decreases |nodes| - i
      {
        if cur.info.id == id {
          return -3;
        }
        pre, cur := cur, cur.next;
        i := i + 1;
      }
      var node := new Node(CliInfo(id, ctrlPort, ctrlSockId, CtrlSockIn, 0));
      pre.next := node;
      nodes, infos, repr := nodes + [node], infos + [node.info], repr + {node};
      return 0;
    }

    /** Remove the first client with this socket; nothing happens when there is none. */
    method DeleteCli(ctrlSockId: int) returns (ret: int)
      requires Valid()
      modifies this`nodes, this`infos, head`next, repr`next
      ensures Valid() && ret == 0
      ensures var i := SockIndex(old(infos), ctrlSockId);
              infos == if i < |old(infos)| then old(infos)[..i] + old(infos)[i + 1..] else old(infos)
    {
      var pre: Node, cur: Node? := head, head.next;
      ghost var i: nat := 0;
      while cur != null && cur.info.ctrlSockId != ctrlSockId
        invariant Standing(pre, cur, i) && i <= SockIndex(infos, ctrlSockId)
        decreases |nodes| - i
      {
        assert infos[i].ctrlSockId != ctrlSockId;
        pre, cur := cur, cur.next;
        i := i + 1;
      }
      if cur != null {
        assert infos[i].ctrlSockId == ctrlSockId;
        cur := Unlink(pre, cur, i);
      }
      return 0;
    }

    /** One client: a stopped one is reported and taken out, an overdue one is marked, and the
        traversal moves on. */
    method SweepOne(pre: Node, cur: Node, elapsed: CliInfo -> int, notified: seq<int>,
        ghost i: nat, ghost before: seq<CliInfo>, ghost k: nat)
        returns (pre': Node, cur': Node?, notified': seq<int>, ghost i': nat)
      requires Standing(pre, cur, i) && Swept(infos, notified, before, elapsed, i, k)
      modifies this`nodes, this`infos, head`next, repr`next, repr`info
      ensures Standing(pre', cur', i') && Swept(infos, notified', before, elapsed, i', k + 1)
      ensures k < |before|
    {
      SweptStep(infos, notified, before, elapsed, i, k);
      if cur.info.state == Idle || cur.info.state == CtrlSockIn || cur.info.state == KeyAgreed {
        return cur, cur.next, notified, i + 1;
      }
      if cur.info.state == Heartbeat {
        if elapsed(cur.info) > HEARTBEAT_INTEVAL * 2 + 1 {
          cur.info := cur.info.(state := Stopped);
          infos := infos[i := cur.info];
        }
        return cur, cur.next, notified, i + 1;
      }
      notified' := notified + [cur.info.ctrlSockId];
      cur' := Unlink(pre, cur, i);
      return pre, cur', notified', i;
    }

    /** One sweep; `notified` are the sockets reported as invalid, in order. */
    method CheckHeartbeat(elapsed: CliInfo -> int) returns (notified: seq<int>)
      requires Valid()
      modifies this`nodes, this`infos, head`next, repr`next, repr`info
      ensures Valid()
      ensures exists kept: seq<nat>, lost: seq<nat> :: IsSweep(old(infos), infos, notified, elapsed, kept, lost)
    {
      ghost var before := infos;
      var pre: Node, cur: Node? := head, head.next;
      ghost var i, k: nat := 0, 0;  // k: position in the list as it was, i: as it is now
      notified := [];
      while cur != null
        invariant Standing(pre, cur, i) && Swept(infos, notified, before, elapsed, i, k)
        decreases |before| - k
      {
        pre, cur, notified, i := SweepOne(pre, cur, elapsed, notified, i, before, k);
        k := k + 1;
      }
      SweptAll(infos, notified, before, elapsed, i, k);
      SweepKeepsTheOthers(before, elapsed);
      assert IsSweep(before, infos, notified, elapsed, Kept(before, |before|), Lost(before, |before|));
    }
  }

  lemma SweptAll(infos: seq<CliInfo>, notified: seq<int>, before: seq<CliInfo>, elapsed: CliInfo -> int, i: nat, k: nat)
    requires Swept(infos, notified, before, elapsed, i, k) && i == |infos|
    ensures notified == Notified(before, |before|) && infos == Survivors(before, elapsed, |before|)
    ensures UniqueIds(before) ==> UniqueIds(infos)
  {
    assert infos[..i] == infos;
    UniqueAfterSweep(before, elapsed);
  }

  /** The list with its first `k` clients swept; the rest begins at position `i`. */
  ghost predicate Swept(infos: seq<CliInfo>, notified: seq<int>, before: seq<CliInfo>, elapsed: CliInfo -> int, i: nat, k: nat) {
    && k <= |before| && i <= |infos| && |infos| - i == |before| - k
    && infos[..i] == Survivors(before, elapsed, k) && notified == Notified(before, k)
    && forall j :: i <= j < |infos| ==> infos[j] == before[j - i + k]
  }

  lemma SweptStep(infos: seq<CliInfo>, notified: seq<int>, before: seq<CliInfo>, elapsed: CliInfo -> int, i: nat, k: nat)
    requires Swept(infos, notified, before, elapsed, i, k) && i < |infos|
    ensures k < |before| && infos[i] == before[k]
    ensures if infos[i].state == Stopped
            then Swept(infos[..i] + infos[i + 1..], notified + [infos[i].ctrlSockId], before, elapsed, i, k + 1)
            else Swept(infos[i := Aged(infos[i], elapsed)], notified, before, elapsed, i + 1, k + 1)
  {
    if infos[i].state == Stopped {
      var rest := infos[..i] + infos[i + 1..];
      assert rest[..i] == infos[..i];
    } else {
      var rest := infos[i := Aged(infos[i], elapsed)];
      assert rest[..i + 1] == infos[..i] + [rest[i]];
    }
  }

  function SockIndex(infos: seq<CliInfo>, sock: int): (i: nat)
    ensures i <= |infos| && (i < |infos| ==> infos[i].ctrlSockId == sock)
    ensures forall j :: 0 <= j < i ==> infos[j].ctrlSockId != sock
  {
    if infos == [] || infos[0].ctrlSockId == sock then 0 else 1 + SockIndex(infos[1..], sock)
  }
}
