// The pool's intrusive, doubly linked list of idle connections.
module IdleLists {
  class PoolConn {
    const id: nat
    var next: PoolConn?
    var prev: PoolConn?

    constructor (id: nat)
      ensures this.id == id && next == null && prev == null
    {
      this.id, next, prev := id, null, null;
    }
  }

  // Element i of s, or null beyond either end.
  function NodeAt(s: seq<PoolConn>, i: int): PoolConn?
  {
    if 0 <= i < |s| then s[i] else null
  }

  class IdleList {
    var count: int
    var front: PoolConn?
    var back: PoolConn?
    ghost var nodes: seq<PoolConn>

    // The links are those of the abstract sequence: no cycle, no sharing, prev inverse to next.
    ghost predicate Valid()
      reads this, nodes
    {
      && count == |nodes|
      && (forall i, j :: 0 <= i < j < |nodes| ==> nodes[i] != nodes[j])
      && front == NodeAt(nodes, 0)
      && back == NodeAt(nodes, |nodes| - 1)
      && (forall i :: 0 <= i < |nodes| ==>
           nodes[i].next == NodeAt(nodes, i + 1) && nodes[i].prev == NodeAt(nodes, i - 1))
    }

    constructor ()
      ensures Valid() && nodes == []
    {
      count, front, back, nodes := 0, null, null, [];
    }

    function First(): (pc: PoolConn)
      requires Valid() && nodes != []
      reads this, nodes
      ensures pc == nodes[0]
    {
      front
    }

    function Last(): (pc: PoolConn)
      requires Valid() && nodes != []
      reads this, nodes
      ensures pc == nodes[|nodes| - 1]
    {
      back
    }

    method PushFront(pc: PoolConn)
      requires Valid() && pc !in nodes
      modifies this, nodes, pc
      ensures Valid() && nodes == [pc] + old(nodes)
    {
      ghost var was := nodes;
      pc.next := front;
      pc.prev := null;
      if count == 0 {
        back := pc;
      } else {
        front.prev := pc;
      }
      front := pc;
      count := count + 1;
      nodes := [pc] + nodes;
      forall i | 1 <= i < |nodes|
        ensures nodes[i].next == NodeAt(nodes, i + 1) && nodes[i].prev == NodeAt(nodes, i - 1)
      {
        assert nodes[i] == was[i - 1] && was[i - 1] != pc;
        assert old(was[i - 1].next) == NodeAt(was, i) && old(was[i - 1].prev) == NodeAt(was, i - 2);
      }
    }

    method PopFront()
      requires Valid() && nodes != []
      modifies this, nodes
      ensures Valid() && nodes == old(nodes)[1..]
      ensures old(nodes)[0].next == null && old(nodes)[0].prev == null && old(nodes)[0] !in nodes
    {
      ghost var was := nodes;
      var pc := front;
      assert pc == was[0] && pc.next == NodeAt(was, 1);
      count := count - 1;
      if count == 0 {
        front, back := null, null;
      } else {
        pc.next.prev := null;
        front := pc.next;
      }
      pc.next, pc.prev := null, null;
      nodes := nodes[1..];
      forall i | 0 <= i < |nodes|
        ensures nodes[i].next == NodeAt(nodes, i + 1) && nodes[i].prev == NodeAt(nodes, i - 1)
      {
        assert nodes[i] == was[i + 1] && was[i + 1] != pc;
        assert old(was[i + 1].next) == NodeAt(was, i + 2) && old(was[i + 1].prev) == NodeAt(was, i);
      }
    }

    method PopBack()
      requires Valid() && nodes != []
      modifies this, nodes
      ensures Valid() && nodes == old(nodes)[..|old(nodes)| - 1]
      ensures old(back) == old(nodes)[|old(nodes)| - 1]
      ensures old(back).next == null && old(back).prev == null && old(back) !in nodes
    {
      ghost var was := nodes;
      var pc := back;
      assert pc == was[|was| - 1] && pc.prev == NodeAt(was, |was| - 2);
      count := count - 1;
      if count == 0 {
        front, back := null, null;
      } else {
        pc.prev.next := null;
        back := pc.prev;
      }
      pc.next, pc.prev := null, null;
      nodes := nodes[..|nodes| - 1];
      forall i | 0 <= i < |nodes|
        ensures nodes[i].next == NodeAt(nodes, i + 1) && nodes[i].prev == NodeAt(nodes, i - 1)
      {
        assert nodes[i] == was[i] && was[i] != pc;
        assert old(was[i].next) == NodeAt(was, i + 1) && old(was[i].prev) == NodeAt(was, i - 1);
      }
    }
  }
}
