/** The list buffer of core/pkg/buffer/linkedlist/linked_list_buffer.go. */
module LinkedList {
  import opened Bytes
  import opened Chunks

  class Node {
    var buf: Bytes
    var next: Node?

    constructor (buf: Bytes)
      ensures this.buf == buf && next == null
    {
      this.buf, next := buf, null;
    }
  }

  class Buffer {
    var head: Node?
    var tail: Node?
    var size: int
    var bytes: int
    ghost var nodes: seq<Node>
    ghost var parts: seq<Bytes>
    ghost var repr: set<Node>

    ghost predicate Valid()
      reads this, repr
    {
      && |nodes| == |parts| && NoneEmpty(parts) && (forall n :: n in nodes ==> n in repr)
      && (forall i, j :: 0 <= i < j < |nodes| ==> nodes[i] != nodes[j])
      && head == At(nodes, 0) && tail == At(nodes, |nodes| - 1)
      && (forall i :: 0 <= i < |nodes| ==> Holds(nodes, i, parts[i]))
      && size == |nodes| && bytes == |Concat(parts)|
    }

    ghost function Contents(): Bytes
      reads this
    {
      Concat(parts)
    }

    constructor ()
      ensures Valid() && repr == {} && Contents() == []
    {
      head, tail, size, bytes := null, null, 0, 0;
      nodes, parts, repr := [], [], {};
    }

    function Buffered(): (n: nat)
      requires Valid()
      reads this, repr
      ensures n == |Contents()|
    {
      bytes
    }

    predicate IsEmpty()
      requires Valid()
      reads this, repr
      ensures IsEmpty() <==> Contents() == []
    {
      ConcatEmpty(parts);
      head == null
    }

    method Pop() returns (b: Node?)
      requires Valid()
      modifies this, repr`next
      ensures Valid() && repr == old(repr) - {b}
      ensures old(nodes) == [] ==> b == null && nodes == [] && Contents() == old(Contents()) == []
      ensures old(nodes) != [] ==>
        && b == old(nodes)[0] && b in old(repr) && nodes == old(nodes)[1..]
        && b.buf != [] && old(Contents()) == b.buf + Contents()
    {
      hide Concat;
      ConcatEmpty(parts);
      if head == null { return null; }
      b := head;
      ghost var ns, ps := nodes, parts;
      assert Holds(ns, 0, ps[0]);
      ConcatSplitFirst(ps);
      head := b.next;
      if head == null { tail := null; }
      b.next := null;
      size := size - 1;
      bytes := bytes - |b.buf|;
      nodes, parts, repr := ns[1..], ps[1..], repr - {b};
      forall i | 0 <= i < |nodes| ensures Holds(nodes, i, parts[i]) {
        assert old(Holds(ns, i + 1, ps[i + 1]));
      }
    }

    method PushFrontNode(b: Node)
      requires Valid() && b !in repr && b.buf != []
      modifies this, b`next
      ensures Valid() && repr == old(repr) + {b} && nodes == [b] + old(nodes) && Contents() == b.buf + old(Contents())
    {
      hide Concat;
      ghost var ns, ps := nodes, parts;
      if head == null {
        b.next := null;
        tail := b;
      } else {
        b.next := head;
      }
      head := b;
      size := size + 1;
      bytes := bytes + |b.buf|;
      nodes, parts, repr := [b] + ns, [b.buf] + ps, repr + {b};
      ConcatFirst(b.buf, ps);
      forall i | 1 <= i < |nodes| ensures Holds(nodes, i, parts[i]) {
        assert old(Holds(ns, i - 1, ps[i - 1]));
      }
    }

    method PushBackNode(b: Node)
      requires Valid() && b !in repr && b.buf != []
      modifies this, b`next, repr`next
      ensures Valid() && repr == old(repr) + {b} && nodes == old(nodes) + [b] && Contents() == old(Contents()) + b.buf
    {
      hide Concat;
      ghost var ns, ps := nodes, parts;
      if tail == null {
        head := b;
      } else {
        tail.next := b;
      }
      b.next := null;
      tail := b;
      size := size + 1;
      bytes := bytes + |b.buf|;
      nodes, parts, repr := ns + [b], ps + [b.buf], repr + {b};
      ConcatSnoc(ps, b.buf);
      forall i | 0 <= i < |ns| ensures Holds(nodes, i, parts[i]) {
        assert old(Holds(ns, i, ps[i]));
      }
    }

    /** Copies p into a node of its own at the end. */
    method PushBack(p: Bytes)
      requires Valid()
      modifies this, repr
      ensures Valid() && fresh(repr - old(repr)) && Contents() == old(Contents()) + p
    {
      hide Concat, Valid;
      if |p| == 0 {
        assert Contents() + p == Contents();
        return;
      }
      var b := new Node(p);
      PushBackNode(b);
    }

    method Read(n: nat) returns (data: Bytes)
      requires Valid()
      modifies this, repr
      ensures Valid() && repr <= old(repr)
      ensures data == Take(old(Contents()), n) && Contents() == Drop(old(Contents()), n)
    {
      hide Concat, Valid;
      data := [];
      if n == 0 { return; }
      ghost var was := Contents();
      var b := Pop();
      while b != null
        invariant Valid() && repr <= old(repr) && |data| < n
        invariant b == null ==> was == data && Contents() == []
        invariant b != null ==> b in old(repr) && b !in repr && b.buf != [] && was == data + (b.buf + Contents())
        decreases |nodes| + if b == null then 0 else 1
      {
        var m := Min(n - |data|, |b.buf|);
        data := data + b.buf[..m];
        if m < |b.buf| {
          b.buf := b.buf[m..];
          PushFrontNode(b);
        }
        assert was == data + Contents();
        if |data| == n { return; }
        b := Pop();
      }
    }

    /** Drops the next n bytes, node by node. */
    method Discard(n: int) returns (discarded: nat)
      requires Valid()
      modifies this, repr
      ensures Valid() && repr <= old(repr)
      ensures discarded == if n <= 0 then 0 else Min(n, |old(Contents())|)
      ensures Contents() == Drop(old(Contents()), discarded)
    {
      hide Concat, Valid;
      discarded := 0;
      if n <= 0 { return; }
      var left := n;
      ghost var was := Contents();
      while left != 0
        invariant Valid() && repr <= old(repr)
        invariant left >= 0 && discarded + left == n && discarded <= |was| && Contents() == was[discarded..]
        decreases left
      {
        var b := Pop();
        if b == null { break; }
        if left < |b.buf| {
          b.buf := b.buf[left..];
          discarded := discarded + left;
          PushFrontNode(b);
          break;
        }
        left := left - |b.buf|;
        discarded := discarded + |b.buf|;
      }
    }

    /** Slices whose bytes are a prefix of bs followed by the list, long enough or complete. */
    method PeekWithBytes(maxBytes: int, bs: seq<Bytes>) returns (iov: seq<Bytes>)
      requires Valid()
      ensures Peeked(Concat(iov), Concat(bs) + Contents(), PeekLimit(maxBytes)) && NoneEmpty(iov)
    {
      hide Concat;
      var max := PeekLimit(maxBytes);
      iov := [];
      var cum := 0;
      ConcatNone();
      assert bs[..0] == [];
      for i := 0 to |bs|
        invariant Concat(iov) == Concat(bs[..i]) && cum == |Concat(iov)| && NoneEmpty(iov)
      {
        ConcatStep(bs, i);
        if |bs[i]| > 0 {
          ConcatSnoc(iov, bs[i]);
          iov := iov + [bs[i]];
          cum := cum + |bs[i]|;
          if cum >= max {
            ConcatSplit(bs, i + 1);
            return;
          }
        }
      }
      assert bs[..|bs|] == bs;
      var iter := head;
      ghost var k := 0;
      assert parts[..0] == [] && Concat(bs) + [] == Concat(bs);
      while iter != null
        invariant 0 <= k <= |nodes| && iter == At(nodes, k) && NoneEmpty(iov)
        invariant Concat(iov) == Concat(bs) + Concat(parts[..k]) && cum == |Concat(iov)|
        decreases |nodes| - k
      {
        assert Holds(nodes, k, parts[k]);
        ConcatSnoc(iov, iter.buf);
        ConcatStep(parts, k);
        ConcatSplit(parts, k + 1);
        iov := iov + [iter.buf];
        cum := cum + |iter.buf|;
        if cum >= max {
          assert Concat(bs) + Concat(parts) == Concat(iov) + Concat(parts[k + 1..]);
          break;
        }
        iter := iter.next;
        k := k + 1;
      }
      assert iter == null ==> parts[..k] == parts;
    }

    method Reset()
      requires Valid()
      modifies this, repr
      ensures Valid() && repr <= old(repr) && Contents() == []
    {
      hide Concat, Valid;
      var b := Pop();
      while b != null
        invariant Valid() && repr <= old(repr) && (b == null ==> Contents() == [] && nodes == [])
        decreases |nodes| + if b == null then 0 else 1
      {
        b := Pop();
      }
      Clear();
    }

    method Clear()
      requires Valid() && nodes == []
      modifies this
      ensures Valid() && repr == old(repr) && Contents() == []
    {
      head := null;
      tail := null;
      size := 0;
      bytes := 0;
    }
  }

  ghost function At(ns: seq<Node>, i: int): Node? { if 0 <= i < |ns| then ns[i] else null }

  ghost predicate Holds(ns: seq<Node>, i: nat, p: Bytes)
    requires i < |ns|
    reads ns[i]
  {
    ns[i].next == At(ns, i + 1) && ns[i].buf == p
  }

  lemma ConcatSplitFirst(parts: seq<Bytes>)
    requires parts != []
    ensures Concat(parts) == parts[0] + Concat(parts[1..])
  {}

  const MAX_INT32 := 0x7fff_ffff

  function PeekLimit(maxBytes: int): nat { if maxBytes <= 0 then MAX_INT32 else maxBytes }

  lemma ConcatStep(parts: seq<Bytes>, i: nat)
    requires i < |parts|
    ensures Concat(parts[..i + 1]) == Concat(parts[..i]) + parts[i]
  {
    assert parts[..i + 1] == parts[..i] + [parts[i]];
    ConcatSnoc(parts[..i], parts[i]);
  }
}
