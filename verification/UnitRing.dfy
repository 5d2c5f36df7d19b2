/**
 The buffer between the receiver and a writer: a doubly linked ring of unit nodes with a
 sentinel head (cliData.c).  Emptied nodes are not freed but moved behind the head and reused,
 so that walking forward from the head all unused nodes come before all used ones.
 */
module UnitRing {
  import opened CloudTypes

  datatype Taken = Nothing | Got(unit: Unit)

  class Node {
    var unit: Unit
    var isUsed: bool
    var prev: Node?
    var next: Node?

    constructor (unit: Unit, isUsed: bool)
      ensures this.unit == unit && this.isUsed == isUsed && prev == null && next == null
    {
      this.unit, this.isUsed, prev, next := unit, isUsed, null, null;
    }
  }

  class DwldFileInfo {
    const head: Node
    var isUsing: bool
    var isStopWriteFileThr: bool

    ghost var nodes: seq<Node>    // the ring in forward order, without the head
    ghost var unused: nat         // how many of them, counted from the head, are unused
    ghost var pending: seq<Unit>  // the buffered units in order of arrival
    ghost var repr: set<Node>     // a set that holds the nodes

    /** next and prev are inverse to each other and go through exactly `nodes`; the unused nodes
        come first; the used ones, read backwards, hold the pending units. */
    ghost predicate Valid()
      reads this, head, repr
    {
      && Linked()
      && unused + |pending| == |nodes|
      && (forall i :: 0 <= i < |nodes| ==> (nodes[i].isUsed <==> unused <= i))
      && (forall i :: 0 <= i < |pending| ==> nodes[|nodes| - 1 - i].unit == pending[i])
    }

    ghost predicate Linked()
      reads this, head, repr
    {
      && head !in repr && (forall i :: 0 <= i < |nodes| ==> nodes[i] in repr)
      && (forall i, j :: 0 <= i < j < |nodes| ==> nodes[i] != nodes[j])
      && head.next == (if nodes == [] then null else nodes[0])
      && head.prev == (if nodes == [] then null else nodes[|nodes| - 1])
      && (forall i {:trigger nodes[i].next} :: 0 <= i < |nodes| ==>
            nodes[i].next == if i + 1 < |nodes| then nodes[i + 1] else head)
      && (forall i {:trigger nodes[i].prev} :: 0 <= i < |nodes| ==>
            nodes[i].prev == if i > 0 then nodes[i - 1] else head)
    }

    constructor ()
      ensures Valid() && fresh(head) && nodes == [] && pending == []
      ensures !isUsing && !isStopWriteFileThr
    {
      head := new Node(EOF_UNIT, false);
      isUsing, isStopWriteFileThr := false, false;
      nodes, unused, pending, repr := [], 0, [], {};
    }

    /** Hook `node` in between the head and the rest of the ring. */
    method LinkFirst(node: Node)
      requires Linked() && node !in repr && node != head
      modifies this`nodes, this`repr, head`next, head`prev, repr`next, repr`prev, node`next, node`prev
      ensures Linked() && repr == old(repr) + {node}
      ensures nodes == [node] + old(nodes)
    {
      if head.next == null && head.prev == null {
        head.next, head.prev := node, node;
        node.next, node.prev := head, head;
      } else {
        var first := head.next;
        head.next := node;
        node.next := first;
        first.prev := node;
        node.prev := head;
      }
      nodes, repr := [node] + nodes, repr + {node};
    }

    /** Put a fresh node holding `unit` in front. */
    method InsertFirst(unit: Unit)
      requires Valid() && unused == 0
      modifies this`nodes, this`pending, this`repr, head, repr
      ensures Valid() && pending == old(pending) + [unit]
      ensures |nodes| == |old(nodes)| + 1 && nodes[1..] == old(nodes)
      ensures fresh(nodes[0]) && repr == old(repr) + {nodes[0]}
    {
      var node := new Node(unit, true);
      LinkFirst(node);
      pending := pending + [unit];
    }

    /** The receiver stores a unit: 0, or -2 when the download has been stopped.  A node is
        allocated only when every node is in use. */
    method SaveDataToBuffer(unit: Unit) returns (ret: int)
      requires Valid()
      modifies this`nodes, this`unused, this`pending, this`repr, head, repr
      ensures Valid()
      ensures ret == if isStopWriteFileThr then -2 else 0
      ensures ret == -2 ==> pending == old(pending) && nodes == old(nodes)
      ensures ret == 0 ==> pending == old(pending) + [unit]
      ensures ret == 0 ==> |nodes| == Max(|old(nodes)|, |pending|)
      ensures fresh(repr - old(repr))
    {
      if isStopWriteFileThr {
        return -2;
      }
      if head.next == null && head.prev == null {
        InsertFirst(unit);
        return 0;
      }
      var cur := head.next;
      ghost var i := 0;
      while cur != head && !cur.isUsed
        invariant 0 <= i <= unused
        invariant cur == if i < |nodes| then nodes[i] else head
        decreases |nodes| - i
      {
        cur := cur.next;
        i := i + 1;
      }
      assert i == unused;
      if cur.prev == head {
        assert unused == 0;
        InsertFirst(unit);
        return 0;
      }
      cur := cur.prev;
      assert cur == nodes[unused - 1];
      cur.isUsed := true;
      cur.unit := unit;
      unused, pending := unused - 1, pending + [unit];
      return 0;
    }

    /** Unhook the last node and hook it in behind the head. */
    method MoveLastToFirst()
      requires Linked() && |nodes| >= 2
      modifies this`nodes, head`next, head`prev, repr`next, repr`prev
      ensures Linked()
      ensures |nodes| == |old(nodes)| && nodes[0] == old(nodes)[|nodes| - 1]
      ensures forall i :: 0 < i < |nodes| ==> nodes[i] == old(nodes)[i - 1]
    {
      ghost var n := |nodes|;
      var last := head.prev;
      var newLast, first := last.prev, head.next;
      assert last == nodes[n - 1] && newLast == nodes[n - 2] && first == nodes[0];
      head.next := last;
      head.prev := newLast;
      last.next := first;
      last.prev := head;
      first.prev := last;
      newLast.next := head;
      nodes := [nodes[n - 1]] + nodes[..n - 1];
    }

    /** The writer takes the oldest unit, if there is one, and recycles its node. */
    method TakeOldest() returns (r: Taken)
      requires Valid()
      modifies this`nodes, this`unused, this`pending, head, repr
      ensures Valid()
      ensures old(pending) == [] ==> r == Nothing && pending == [] && nodes == old(nodes)
      ensures old(pending) != [] ==> r == Got(old(pending)[0]) && pending == old(pending)[1..]
      ensures |nodes| == |old(nodes)|
    {
      var last := head.prev;
      if last == null || !last.isUsed {
        return Nothing;
      }
      ghost var n := |nodes|;
      assert last == nodes[n - 1];
      r := Got(last.unit);
      last.isUsed := false;
      if head.prev != head.next {
        assert n >= 2;
        MoveLastToFirst();
      }
      unused, pending := unused + 1, pending[1..];
    }

    method SetStop()
      requires Valid()
      modifies this`isStopWriteFileThr
      ensures Valid() && isStopWriteFileThr
    {
      isStopWriteFileThr := true;
    }

    /** Give the file id back, with the writer still to find the stop flag set. */
    method StopDwld() returns (ret: int)
      requires Valid()
      modifies this`isStopWriteFileThr, this`isUsing
      ensures Valid() && !isUsing
      ensures ret == if old(isUsing) then 0 else -2
      ensures isStopWriteFileThr == (old(isUsing) || old(isStopWriteFileThr))
    {
      if !isUsing {
        return -2;
      }
      SetStop();
      isUsing := false;
      return 0;
    }

    /** The writer stops its own download. */
    method MeetEof()
      requires Valid()
      modifies this`isStopWriteFileThr, this`isUsing
      ensures Valid() && isStopWriteFileThr && !isUsing
    {
      SetStop();
      var ret := StopDwld();
    }

    /** Take the file id for a new download.  What an earlier one has left in the ring stays. */
    method StartDwld()
      requires Valid() && !isUsing
      modifies this`isStopWriteFileThr, this`isUsing
      ensures Valid() && isUsing && !isStopWriteFileThr
    {
      isUsing := true;
      isStopWriteFileThr := false;
    }

    /** The stopped writer throws away what is left; the file id is free, whether or not it was
        given back before. */
    method DropAll()
      requires Valid()
      modifies this, head
      ensures Valid() && nodes == [] && pending == [] && !isUsing
      ensures isStopWriteFileThr == old(isStopWriteFileThr)
    {
      var cur := head.next;
      ghost var i := 0;
      while cur != head && cur != null
        invariant 0 <= i <= |nodes| && nodes == old(nodes) && repr == old(repr)
        invariant cur == head.next
        invariant cur == if nodes == [] then null else if i < |nodes| then nodes[i] else head
        invariant forall n :: n in repr ==> n.next == old(n.next)
        invariant isStopWriteFileThr == old(isStopWriteFileThr)
        decreases |nodes| - i
      {
        head.next := cur.next;
        cur := head.next;
        i := i + 1;
      }
      head.next, head.prev := null, null;
      nodes, unused, pending, repr := [], 0, [], {};
      isUsing := false;
    }
  }
}
