/** The elastic buffers of core/pkg/buffer/elastic: a ring that exists only while it holds bytes, and a ring
    backed by a list once it is full. */
module Elastic {
  import opened Bytes
  import opened Chunks
  import Ring
  import LinkedList

  /** core/pkg/buffer/elastic/elastic_ring_buffer.go. A ring taken from the pool is empty and has the size pooled. */
  class RingBuffer {
    var rb: Ring.Buffer?

    ghost function Repr(): set<object>
      reads this, if rb == null then {} else {rb}
    {
      if rb == null then {this} else {this, rb as Ring.Buffer, rb.buf}
    }

    ghost predicate Valid()
      reads this, if rb == null then {} else {rb}
    {
      rb != null ==> rb.Valid()
    }

    ghost function Contents(): Bytes
      requires Valid()
      reads this, if rb == null then {} else {rb, rb.buf}
    {
      if rb == null then [] else rb.Contents()
    }

    constructor ()
      ensures Valid() && Contents() == [] && Repr() == {this}
    {
      rb := null;
    }

    function Buffered(): (n: nat)
      requires Valid()
      reads this, if rb == null then {} else {rb, rb.buf}
      ensures n == |Contents()|
    {
      if rb == null then 0 else rb.Buffered()
    }

    function Length(): nat
      requires Valid()
      reads this, if rb == null then {} else {rb}
    {
      if rb == null then 0 else rb.buf.Length
    }

    function Available(): (n: nat)
      requires Valid()
      reads this, if rb == null then {} else {rb, rb.buf}
      ensures Buffered() + n == Length()
    {
      if rb == null then 0 else rb.Available()
    }

    predicate IsEmpty()
      requires Valid()
      reads this, if rb == null then {} else {rb, rb.buf}
      ensures IsEmpty() <==> Contents() == []
    {
      rb == null || rb.isEmpty
    }

    /** Gives an empty ring back to the pool. */
    method Done()
      requires Valid()
      modifies this
      ensures Valid() && Repr() <= old(Repr()) && Contents() == old(Contents())
      ensures rb == if old(Contents()) == [] then null else old(rb)
    {
      if rb != null && rb.isEmpty { rb := null; }
    }

    method Peek(n: int) returns (head: Bytes, tail: Bytes)
      requires Valid()
      ensures head + tail == if 0 < n < |Contents()| then Contents()[..n] else Contents()
      ensures tail != [] ==> head != []
    {
      if rb == null { return [], []; }
      head, tail := rb.Peek(n);
    }

    method Discard(n: int) returns (discarded: nat)
      requires Valid()
      modifies Repr()
      ensures Valid() && Repr() <= old(Repr())
      ensures discarded == if n <= 0 then 0 else Min(n, |old(Contents())|)
      ensures Contents() == Drop(old(Contents()), discarded) && (Contents() == [] ==> rb == null)
    {
      if rb == null { return 0; }
      discarded := rb.Discard(n);
      Done();
    }

    method Read(n: nat) returns (data: Bytes)
      requires Valid()
      modifies Repr()
      ensures Valid() && Repr() <= old(Repr())
      ensures data == Take(old(Contents()), n) && Contents() == Drop(old(Contents()), n)
      ensures Contents() == [] ==> rb == null
    {
      if rb == null { return []; }
      var none;
      data, none := rb.Read(n);
      Done();
    }

    method Write(p: Bytes, pooled: nat) returns (n: nat)
      requires Valid()
      modifies Repr()
      ensures Valid() && fresh(Repr() - old(Repr()))
      ensures n == |p| && Contents() == old(Contents()) + p
    {
      if |p| == 0 { return 0; }
      if rb == null { rb := new Ring.Buffer(pooled); }
      n := rb.Write(p);
    }

    method Reset()
      requires Valid()
      modifies Repr()
      ensures Valid() && Repr() == old(Repr()) && Contents() == []
    {
      if rb != null { rb.Reset(); }
    }
  }

  /** core/pkg/buffer/elastic/elastic_ring_list_buffer.go. The bytes of the ring come before those of the list. */
  class Buffer {
    const maxStaticBytes: nat
    const ring: RingBuffer
    const list: LinkedList.Buffer

    ghost var repr: set<object>

    ghost predicate Valid()
      reads this, repr
    {
      && maxStaticBytes > 0 && {this, ring, list} <= repr && (ring.rb != null ==> ring.rb in repr)
      && ring.Repr() <= repr && list.repr <= repr
      && ring.Valid() && list.Valid()
    }

    ghost function Contents(): Bytes
      requires Valid()
      reads this, repr
    {
      ring.Contents() + list.Contents()
    }

    constructor (maxStaticBytes: nat)
      requires maxStaticBytes > 0
      ensures Valid() && fresh(repr) && Contents() == [] && this.maxStaticBytes == maxStaticBytes
    {
      this.maxStaticBytes := maxStaticBytes;
      ring := new RingBuffer();
      list := new LinkedList.Buffer();
      repr := {this, ring, list};
    }

    function Buffered(): (n: nat)
      requires Valid()
      reads this, repr
      ensures n == |Contents()|
    {
      ring.Buffered() + list.Buffered()
    }

    predicate IsEmpty()
      requires Valid()
      reads this, repr
      ensures IsEmpty() <==> Contents() == []
    {
      ring.IsEmpty() && list.IsEmpty()
    }

    method Read(n: nat) returns (data: Bytes)
      requires Valid()
      modifies repr
      ensures Valid() && repr == old(repr)
      ensures data == Take(old(Contents()), n) && Contents() == Drop(old(Contents()), n)
    {
      hide RingBuffer.Valid, RingBuffer.Contents, LinkedList.Buffer.Valid, LinkedList.Buffer.Contents, Take, Drop;
      TakeBoth(ring.Contents(), list.Contents(), n);
      TakeNone(list.Contents());
      data := ring.Read(n);
      if |data| == n { return; }
      var more := list.Read(n - |data|);
      data := data + more;
    }

    /** The slices hold a prefix of the contents, of at least n bytes or all of them. */
    method Peek(n: int) returns (iov: seq<Bytes>)
      requires Valid()
      ensures Peeked(Concat(iov), Contents(), LinkedList.PeekLimit(n))
      ensures Contents() != [] ==> iov != [] && iov[0] != []
    {
      hide Concat;
      var max := LinkedList.PeekLimit(n);
      var head, tail := ring.Peek(max);
      ConcatFirst(head, [tail]);
      ConcatOne(tail);
      assert [head] + [tail] == [head, tail];
      if ring.Buffered() >= max { return [head, tail]; }
      iov := list.PeekWithBytes(max, [head, tail]);
      ConcatNone();
    }

    method Discard(n: int) returns (discarded: nat)
      requires Valid()
      modifies repr
      ensures Valid() && repr == old(repr)
      ensures discarded == if n <= 0 then 0 else Min(n, |old(Contents())|)
      ensures Contents() == Drop(old(Contents()), discarded)
    {
      hide RingBuffer.Valid, RingBuffer.Contents, LinkedList.Buffer.Valid, LinkedList.Buffer.Contents, Take, Drop;
      DropParts(ring.Contents(), list.Contents(), n);
      discarded := ring.Discard(n);
      if n <= discarded { return; }
      var m := list.Discard(n - discarded);
      discarded := discarded + m;
    }

    method Write(p: Bytes, pooled: nat) returns (n: nat)
      requires Valid()
      modifies repr
      ensures Valid() && fresh(repr - old(repr))
      ensures n == |p| && Contents() == old(Contents()) + p
    {
      hide RingBuffer.Valid, RingBuffer.Contents, LinkedList.Buffer.Valid, LinkedList.Buffer.Contents;
      if !list.IsEmpty() || ring.Buffered() >= maxStaticBytes {
        PushOne(p);
        return |p|;
      }
      if ring.Length() >= maxStaticBytes {
        var writable := ring.Available();
        if |p| > writable {
          var _ := WritePart(p, writable, pooled);
          return |p|;
        }
      }
      n := WritePart(p, |p|, pooled);
    }

    /** Appends the slices in order, to the ring while there is room and then to the list. */
    method Writev(bs: seq<Bytes>, pooled: nat) returns (n: nat)
      requires Valid()
      modifies repr
      ensures Valid() && fresh(repr - old(repr))
      ensures n == |Concat(bs)| && Contents() == old(Contents()) + Concat(bs)
    {
      hide Concat;
      if !list.IsEmpty() || ring.Buffered() >= maxStaticBytes {
        n := PushAll(bs);
        return;
      }
      var writable := ring.Available();
      if ring.Length() < maxStaticBytes { writable := maxStaticBytes - ring.Buffered(); }
      n := Spread(bs, writable, pooled);
    }

    method PushOne(b: Bytes)
      requires Valid()
      modifies repr
      ensures Valid() && fresh(repr - old(repr)) && Contents() == old(Contents()) + b
    {
      hide RingBuffer.Valid, RingBuffer.Contents, LinkedList.Buffer.Valid, LinkedList.Buffer.Contents;
      Assoc(ring.Contents(), list.Contents(), b);
      list.PushBack(b);
      repr := repr + ring.Repr() + list.repr;
    }

    /** Every slice goes to the end of the list. */
    method PushAll(bs: seq<Bytes>) returns (n: nat)
      requires Valid()
      modifies repr
      ensures Valid() && fresh(repr - old(repr))
      ensures n == |Concat(bs)| && Contents() == old(Contents()) + Concat(bs)
    {
      hide Concat, Valid, Contents;
      n := 0;
      ConcatNone();
      assert bs[..0] == [];
      for i := 0 to |bs|
        invariant Valid() && fresh(repr - old(repr))
        invariant n == |Concat(bs[..i])| && Contents() == old(Contents()) + Concat(bs[..i])
      {
        LinkedList.ConcatStep(bs, i);
        Assoc(old(Contents()), Concat(bs[..i]), bs[i]);
        PushOne(bs[i]);
        n := n + |bs[i]|;
      }
      assert bs[..|bs|] == bs;
    }

    /** The part of b that the ring may take goes to the ring, the rest to the list. */
    method WritePart(b: Bytes, writable: nat, pooled: nat) returns (n: nat)
      requires Valid() && list.Contents() == []
      modifies repr
      ensures Valid() && fresh(repr - old(repr)) && n == Min(|b|, writable)
      ensures Contents() == old(Contents()) + b && (|b| <= writable ==> list.Contents() == [])
    {
      hide RingBuffer.Valid, RingBuffer.Contents, LinkedList.Buffer.Valid, LinkedList.Buffer.Contents;
      AppendParts(ring.Contents(), list.Contents(), b, writable);
      if |b| > writable {
        n := ring.Write(b[..writable], pooled);
        list.PushBack(b[writable..]);
      } else {
        n := ring.Write(b, pooled);
      }
      repr := repr + ring.Repr() + list.repr;
    }

    /** The main loop of Writev: writable bytes may still go to the ring. */
    method Spread(bs: seq<Bytes>, room: nat, pooled: nat) returns (cum: nat)
      requires Valid() && list.Contents() == []
      modifies repr
      ensures Valid() && fresh(repr - old(repr))
      ensures cum == |Concat(bs)| && Contents() == old(Contents()) + Concat(bs)
    {
      hide Concat, Valid, Contents;
      var writable := room;
      var i := 0;
      cum := 0;
      ConcatNone();
      assert bs[..0] == [];
      while i < |bs|
        invariant 0 <= i <= |bs| && 0 <= writable && Valid() && list.Contents() == [] && fresh(repr - old(repr))
        invariant cum == |Concat(bs[..i])| && Contents() == old(Contents()) + Concat(bs[..i])
      {
        LinkedList.ConcatStep(bs, i);
        Assoc(old(Contents()), Concat(bs[..i]), bs[i]);
        cum := cum + |bs[i]|;
        i := i + 1;
        var n := WritePart(bs[i - 1], writable, pooled);
        if |bs[i - 1]| > writable { break; }
        writable := writable - n;
      }
      ConcatSplit(bs, i);
      Assoc(old(Contents()), Concat(bs[..i]), Concat(bs[i..]));
      var rest := PushAll(bs[i..]);
      cum := cum + rest;
    }
  }
}
