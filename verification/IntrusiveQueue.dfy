/** The intrusive doubly linked queues of core/message.go:340-449 and core/redis_pool.go:218-251: MsgQueue, FragQueue
    and activeList are the same structure, with head and tail named back and front in the last. */
module IntrusiveQueue {

  class Node {
    var prev: Node?
    var next: Node?
    var done: bool
    const id: nat

    constructor (id: nat)
      ensures prev == null && next == null && !done && this.id == id
    {
      prev, next, done, this.id := null, null, false, id;
    }
  }

  /** tail -> x -> x -> head: prev leads from the head towards the tail. */
  class Queue {
    var tail: Node?
    var head: Node?
    var count: nat
    ghost var contents: seq<Node>

    ghost predicate Valid()
      reads this, contents
    {
      && count == |contents|
      && (forall i, j :: 0 <= i < j < |contents| ==> contents[i] != contents[j])
      && head == At(contents, 0) && tail == At(contents, |contents| - 1)
      && forall i :: 0 <= i < |contents| ==> Linked(contents, i)
    }

    constructor ()
      ensures Valid() && contents == []
    {
      tail, head, count, contents := null, null, 0, [];
    }

    predicate Empty()
      requires Valid()
      reads this, contents
      ensures Empty() <==> contents == []
    {
      count < 1
    }

    method PushTail(m: Node)
      requires Valid() && m !in contents
      modifies this, m`prev, m`next, contents`prev
      ensures Valid() && contents == old(contents) + [m]
    {
      ghost var was := contents;
      m.next := tail;
      m.prev := null;
      if count == 0 {
        head := m;
      } else {
        tail.prev := m;
      }
      tail := m;
      count := count + 1;
      contents := was + [m];
      forall i | 0 <= i < |was| ensures Linked(contents, i) {
        assert old(Linked(was, i));
      }
    }

    method PopHead()
      requires Valid()
      modifies this, contents`prev, contents`next
      ensures Valid() && contents == if old(contents) == [] then [] else old(contents)[1..]
      ensures old(contents) != [] ==> old(contents)[0].prev == null && old(contents)[0].next == null
    {
      if count == 0 { return; }
      var m := head;
      assert Linked(contents, 0);
      count := count - 1;
      if count == 0 {
        tail, head := null, null;
      } else {
        m.prev.next := null;
        head := m.prev;
      }
      m.next, m.prev := null, null;
      ghost var was := contents;
      contents := was[1..];
      forall i | 0 <= i < |contents| ensures Linked(contents, i) {
        assert old(Linked(was, i + 1));
      }
    }

    method PopTail()
      requires Valid()
      modifies this, contents`prev, contents`next
      ensures Valid() && contents == if old(contents) == [] then [] else old(contents)[..|old(contents)| - 1]
      ensures old(contents) != [] ==> old(tail).prev == null && old(tail).next == null
    {
      if count == 0 { return; }
      var m := tail;
      assert Linked(contents, |contents| - 1);
      count := count - 1;
      if count == 0 {
        tail, head := null, null;
      } else {
        m.next.prev := null;
        tail := m.next;
      }
      m.next, m.prev := null, null;
      ghost var was := contents;
      contents := was[..|was| - 1];
      forall i | 0 <= i < |contents| ensures Linked(contents, i) {
        assert old(Linked(was, i));
      }
    }

    method AllDone() returns (all: bool)
      requires Valid()
      ensures all <==> forall n :: n in contents ==> n.done
    {
      var cur := head;
      ghost var i := 0;
      while cur != null
        invariant 0 <= i <= |contents| && cur == At(contents, i)
        invariant forall j :: 0 <= j < i ==> contents[j].done
        decreases |contents| - i
      {
        assert Linked(contents, i);
        if !cur.done { return false; }
        cur := cur.prev;
        i := i + 1;
      }
      return true;
    }

    lemma HeadIsFirst()
      requires Valid()
      ensures head == At(contents, 0)
    {}

    /** The loop of the event loop that takes every message out, oldest first. */
    method Drain(ghost nodes: set<Node>) returns (all: seq<Node>)
      requires Valid() && forall n :: n in contents ==> n in nodes
      modifies this, nodes`prev, nodes`next
      ensures Valid() && contents == [] && all == old(contents)
    {
      hide Valid;
      all := [];
      HeadIsFirst();
      while head != null
        invariant Valid() && head == At(contents, 0) && old(contents) == all + contents
        invariant forall n :: n in contents ==> n in nodes
        decreases |contents|
      {
        ghost var was := contents;
        all := all + [head];
        PopHead();
        HeadIsFirst();
        assert was == [was[0]] + contents;
      }
    }
  }

  ghost function At(ns: seq<Node>, i: int): Node? { if 0 <= i < |ns| then ns[i] else null }

  ghost predicate Linked(ns: seq<Node>, i: nat)
    requires i < |ns|
    reads ns[i]
  {
    ns[i].prev == At(ns, i + 1) && ns[i].next == At(ns, i - 1)
  }
}
