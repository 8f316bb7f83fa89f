/** The sending half of a connection: core/connection.go:129-154, 232-270, 327-359 and core/eventloop.go:252-282,
    313-370. */
module Outbound {
  import opened Bytes
  import opened Chunks
  import Elastic

  /** What a write to the socket does: it takes some of the bytes offered, it would block, or it fails. */
  datatype Kernel = Wrote(n: nat) | Again | Broken

  const IOV_MAX := 1024

  /** The bytes of data that a write puts on the wire: none while older bytes are still buffered. */
  function Taken(idle: bool, k: Kernel, data: Bytes): Bytes {
    if idle && k.Wrote? then data[..Min(k.n, |data|)] else []
  }

  /** The slices behind the first sent bytes: the loop that cuts the slice in which the kernel stopped. */
  method CutSent(bs: seq<Bytes>, sent: nat) returns (rest: seq<Bytes>)
    requires sent < |Concat(bs)|
    ensures Concat(rest) == Drop(Concat(bs), sent)
  {
    hide Concat;
    var left := sent;
    var i := 0;
    ConcatNone();
    assert bs[0..] == bs && bs[|bs|..] == [];
    while i < |bs|
      invariant 0 <= i <= |bs| && 0 <= left < |Concat(bs[i..])|
      invariant Drop(Concat(bs[i..]), left) == Drop(Concat(bs), sent)
    {
      var b := bs[i];
      assert bs[i..] == [b] + bs[i + 1..];
      ConcatFirst(b, bs[i + 1..]);
      if left < |b| {
        ConcatFirst(b[left..], bs[i + 1..]);
        return [b[left..]] + bs[i + 1..];
      }
      left := left - |b|;
      i := i + 1;
    }
    assert false;
  }

  /** While the connection is open, the bytes sent and the bytes buffered are the bytes handed in, in order, and
      the socket is watched for room whenever bytes are left; and nothing else is ever sent. */
  ghost predicate Conserved(isOpen: bool, watching: bool, sent: Bytes, handed: Bytes, buffered: Bytes) {
    sent <= handed && (isOpen ==> sent + buffered == handed && (buffered != [] ==> watching))
  }

  lemma Buffering(watching: bool, watching': bool, sent: Bytes, handed: Bytes, buffered: Bytes, data: Bytes)
    requires Conserved(true, watching, sent, handed, buffered)
    requires watching' || (watching' == watching && buffered != [])
    ensures Conserved(true, watching', sent, handed + data, buffered + data)
  {
    Assoc(sent, buffered, data);
  }

  lemma Sending(watching: bool, watching': bool, sent: Bytes, handed: Bytes, data: Bytes, n: nat)
    requires Conserved(true, watching, sent, handed, []) && n <= |data| && (n < |data| ==> watching')
    ensures Conserved(true, watching', sent + data[..n], handed + data, Drop(data, n))
  {
    assert data == data[..n] + Drop(data, n);
    Assoc(sent, data[..n], Drop(data, n));
  }

  lemma PrefixSplits(p: Bytes, s: Bytes, n: nat)
    requires p <= s && n <= |p|
    ensures s == p[..n] + Drop(s, n)
  {
    assert p[..n] == s[..n];
  }

  lemma Draining(watching: bool, watching': bool, sent: Bytes, handed: Bytes, buffered: Bytes, p: Bytes, n: nat)
    requires Conserved(true, watching, sent, handed, buffered) && p <= buffered && n <= |p|
    requires watching' == watching || Drop(buffered, n) == []
    ensures Conserved(true, watching', sent + p[..n], handed, Drop(buffered, n))
  {
    hide Drop;
    PrefixSplits(p, buffered, n);
    Assoc(sent, p[..n], Drop(buffered, n));
  }

  lemma Breaking(watching: bool, sent: Bytes, handed: Bytes, buffered: Bytes, data: Bytes)
    requires Conserved(true, watching, sent, handed, buffered)
    ensures Conserved(false, watching, sent, handed + data, buffered)
  {}

  class Connection {
    const out: Elastic.Buffer
    var isOpen: bool
    var watching: bool
    ghost var sent: Bytes
    ghost var handed: Bytes

    ghost predicate Valid()
      reads this, out, out.repr
    {
      this !in out.repr && out.Valid() && Conserved(isOpen, watching, sent, handed, out.Contents())
    }

    constructor (writeBufferCap: nat)
      requires writeBufferCap > 0
      ensures Valid() && isOpen && sent == handed == []
    {
      out := new Elastic.Buffer(writeBufferCap);
      isOpen, watching, sent, handed := true, false, [], [];
    }

    method Write(data: Bytes, k: Kernel, pooled: nat)
      requires Valid() && isOpen
      modifies this, out.repr
      ensures Valid() && fresh(out.repr - old(out.repr)) && handed == old(handed) + data
      ensures isOpen <==> old(out.Contents()) != [] || !k.Broken?
      ensures sent == old(sent) + Taken(old(out.Contents()) == [], k, data)
    {
      hide Elastic.Buffer.Valid, Elastic.Buffer.Contents, Conserved, Drop;
      NilRight(sent);
      ghost var was, buffered := handed, out.Contents();
      handed := handed + data;
      NilLeft(data);
      if !out.IsEmpty() {
        Buffering(watching, watching, sent, was, buffered, data);
        var _ := out.Write(data, pooled);
        return;
      }
      match k {
        case Again =>
          Buffering(watching, true, sent, was, buffered, data);
          var _ := out.Write(data, pooled);
          watching := true;
        case Broken =>
          Breaking(watching, sent, was, buffered, data);
          isOpen := false;
        case Wrote(m) =>
          var n := Min(m, |data|);
          Sending(watching, watching || n < |data|, sent, was, data, n);
          DropAt(data, n);
          NilLeft(Drop(data, n));
          sent := sent + data[..n];
          if n < |data| {
            var _ := out.Write(data[n..], pooled);
            watching := true;
          }
      }
    }

    /** On a closed connection the kernel refuses the descriptor, and nothing happens. */
    method Writev(bs: seq<Bytes>, k: Kernel, pooled: nat)
      requires Valid()
      modifies this, out.repr
      ensures Valid() && fresh(out.repr - old(out.repr))
      ensures handed == old(handed) + if old(isOpen) then Concat(bs) else []
      ensures isOpen <==> old(isOpen) && (old(out.Contents()) != [] || !k.Broken? || bs == [])
      ensures sent == old(sent) + Taken(old(isOpen && out.Contents() == []), k, Concat(bs))
    {
      hide Elastic.Buffer.Valid, Elastic.Buffer.Contents, Concat, Conserved, Drop;
      NilRight(sent);
      NilRight(handed);
      if !isOpen { return; }
      ghost var was, buffered, data := handed, out.Contents(), Concat(bs);
      handed := handed + Concat(bs);
      NilLeft(data);
      if !out.IsEmpty() {
        Buffering(watching, watching, sent, was, buffered, data);
        var _ := out.Writev(bs, pooled);
        return;
      }
      if bs == [] {
        ConcatNone();
        assert was + [] == was;
        return;
      }
      match k {
        case Again =>
          Buffering(watching, true, sent, was, buffered, data);
          var _ := out.Writev(bs, pooled);
          watching := true;
        case Broken =>
          Breaking(watching, sent, was, buffered, data);
          isOpen := false;
        case Wrote(m) =>
          var total := TotalLength(bs);
          var n := Min(m, total);
          Sending(watching, watching || n < total, sent, was, data, n);
          DropAt(data, n);
          NilLeft(Drop(data, n));
          sent := sent + Concat(bs)[..n];
          if n < total {
            var rest := CutSent(bs, n);
            var _ := out.Writev(rest, pooled);
            watching := true;
          }
      }
    }

    /** Writes any number of slices, at most IOV_MAX of them at a time. A failure ends the loop, and the slices left go
        to the closed connection. */
    method WriteAll(bs: seq<Bytes>, ks: seq<Kernel>, pooled: nat) returns (written: nat)
      requires Valid() && isOpen && |ks| > |bs|
      modifies this, out.repr
      ensures Valid() && fresh(out.repr - old(out.repr))
      ensures written <= |bs| && handed == old(handed) + Concat(bs[..written])
      ensures isOpen ==> written == |bs|
    {
      hide Valid, Concat;
      var rest := bs;
      written := 0;
      var i := 0;
      ConcatNone();
      assert bs[..0] == [];
      while |rest| > 0
        invariant Valid() && isOpen && fresh(out.repr - old(out.repr))
        invariant written + |rest| == |bs| && rest == bs[written..] && i <= written <= |bs|
        invariant handed == old(handed) + Concat(bs[..written])
        decreases |rest|
      {
        var r := Min(|rest|, IOV_MAX);
        Chunk(bs, written, r);
        Assoc(old(handed), Concat(bs[..written]), Concat(rest[..r]));
        Writev(rest[..r], ks[i], pooled);
        i := i + 1;
        written := written + r;
        if !isOpen { break; }
        rest := rest[r..];
      }
      NilRight(handed);
      Writev(rest, ks[i], pooled);
    }

    /** The slices offered to the socket: the front of the buffered bytes, and never nothing. */
    method Offer() returns (iov: seq<Bytes>)
      requires out.Valid() && out.Contents() != []
      ensures Concat(iov) <= out.Contents() && 0 < |iov| <= IOV_MAX && Concat(iov) != []
    {
      hide Elastic.Buffer.Valid, Elastic.Buffer.Contents, Concat;
      iov := out.Peek(-1);
      ghost var first := iov[0];
      if |iov| > 1 {
        if |iov| > IOV_MAX {
          ConcatSplit(iov, IOV_MAX);
          PrefixTrans(Concat(iov[..IOV_MAX]), Concat(iov), out.Contents());
          iov := iov[..IOV_MAX];
        }
      } else {
        assert [iov[0]] == iov;
        iov := [iov[0]];
      }
      assert iov == [first] + iov[1..];
      ConcatFirst(first, iov[1..]);
    }

    /** The event loop found the socket writable: it offers some front of the buffered bytes, and exactly what the
        kernel takes of it is sent and dropped. */
    method OnWritable(k: Kernel) returns (offered: nat)
      requires Valid() && isOpen && out.Contents() != []
      modifies this, out.repr
      ensures Valid() && handed == old(handed) && (isOpen <==> !k.Broken?)
      ensures 0 < offered <= |old(out.Contents())|
      ensures var n := if k.Wrote? then Min(k.n, offered) else 0;
              sent == old(sent) + old(out.Contents())[..n] && out.Contents() == old(out.Contents())[n..]
    {
      hide Elastic.Buffer.Valid, Elastic.Buffer.Contents, Concat, Conserved, Drop;
      ghost var buffered := out.Contents();
      NilRight(sent);
      var iov := Offer();
      offered := TotalLength(iov);
      if k.Wrote? {
        var n := Min(k.n, offered);
        Draining(watching, watching && Drop(buffered, n) != [], sent, handed, buffered, Concat(iov), n);
        PrefixSplits(Concat(iov), buffered, n);
        DropAt(buffered, n);
        SameFront(Concat(iov), buffered, n);
        sent := sent + Concat(iov)[..n];
        var _ := out.Discard(n);
        if out.IsEmpty() { watching := false; }
      } else {
        DropAt(buffered, 0);
        var _ := out.Discard(-1);
        if k.Broken? {
          Breaking(watching, sent, handed, buffered, []);
          assert handed + [] == handed;
          isOpen := false;
        }
      }
    }
  }

  lemma SameFront(p: Bytes, s: Bytes, n: nat)
    requires p <= s && n <= |p|
    ensures p[..n] == s[..n]
  {}

  lemma NilRight(s: Bytes)
    ensures s + [] == s
  {}

  lemma PrefixTrans(a: Bytes, b: Bytes, c: Bytes)
    requires a <= b <= c
    ensures a <= c
  {}

  lemma NilLeft(s: Bytes)
    ensures [] + s == s
  {}

  lemma DropAt(s: Bytes, n: nat)
    requires n <= |s|
    ensures Drop(s, n) == s[n..] && (n == 0 ==> Drop(s, n) == s)
  {}

  function TotalLength(bs: seq<Bytes>): (n: nat)
    ensures n == |Concat(bs)|
  {
    if bs == [] then 0 else |bs[0]| + TotalLength(bs[1..])
  }

  lemma Chunk(bs: seq<Bytes>, i: nat, r: nat)
    requires i + r <= |bs|
    ensures Concat(bs[..i + r]) == Concat(bs[..i]) + Concat(bs[i..][..r])
  {
    assert bs[..i + r] == bs[..i] + bs[i..][..r];
    ConcatAppend(bs[..i], bs[i..][..r]);
  }
}
