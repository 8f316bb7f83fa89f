/** The rest of conn in core/connection.go: its receiving half, and the write signal of a connection to Redis. */
module Connection {
  import opened Bytes
  import opened Chunks
  import Elastic
  import Outbound

  /** buffer holds the bytes of the read event at hand, inbound what earlier events left unread. */
  class Inbound {
    const inbound: Elastic.RingBuffer
    var buffer: Bytes

    ghost predicate Valid()
      reads this, inbound, if inbound.rb == null then {} else {inbound.rb}
    {
      inbound.Valid()
    }

    /** Everything received and not yet discarded, during a read event. */
    ghost function Unread(): Bytes
      requires Valid()
      reads this, inbound, if inbound.rb == null then {} else {inbound.rb, inbound.rb.buf}
    {
      inbound.Contents() + buffer
    }

    constructor ()
      ensures Valid() && fresh(inbound) && Unread() == []
    {
      inbound := new Elastic.RingBuffer();
      buffer := [];
    }

    /** A read event starts: the bytes of the one before have been kept. */
    method Fill(data: Bytes)
      requires Valid()
      modifies this
      ensures Valid() && Unread() == inbound.Contents() + data && inbound.Contents() == old(inbound.Contents())
    {
      buffer := data;
    }

    /** The read event ends: what is unread is kept for the next one. */
    method Keep(pooled: nat)
      requires Valid()
      modifies inbound.Repr()
      ensures Valid() && inbound.Contents() == old(Unread())
    {
      var _ := inbound.Write(buffer, pooled);
    }

    /** The next n bytes, or all of them for n not above zero; None for more than there are. */
    method Peek(n: int) returns (buf: Option<Bytes>)
      requires Valid()
      ensures buf == if n > |Unread()| then None else Some(if n <= 0 then Unread() else Unread()[..n])
    {
      hide Elastic.RingBuffer.Valid, Elastic.RingBuffer.Contents;
      var inBufferLen := inbound.Buffered();
      var total := inBufferLen + |buffer|;
      if n > total { return None; }
      var m := if n <= 0 then total else n;
      if inbound.IsEmpty() {
        assert Unread() == buffer && buffer[..|buffer|] == buffer;
        return Some(buffer[..m]);
      }
      var head, tail := inbound.Peek(m);
      PeekParts(inbound.Contents(), buffer, head, tail, m);
      if |head| >= m { return Some(head[..m]); }
      var cache := head + tail;
      if inBufferLen >= m { return Some(cache); }
      return Some(cache + buffer[..m - inBufferLen]);
    }

    /** Drops n bytes. A number that is not positive, or too large, drops everything. */
    method Discard(n: int) returns (discarded: nat)
      requires Valid()
      modifies this, inbound.Repr()
      ensures Valid()
      ensures Unread() == if 0 < n <= |old(Unread())| then old(Unread())[n..] else []
      ensures discarded == |old(Unread())| - |Unread()|
    {
      hide Elastic.RingBuffer.Valid, Elastic.RingBuffer.Contents, Drop;
      var inBufferLen := inbound.Buffered();
      var tempBufferLen := |buffer|;
      ghost var a, b := inbound.Contents(), buffer;
      DropBoth(a, b, n);
      if inBufferLen + tempBufferLen < n || n <= 0 {
        buffer := [];
        inbound.Reset();
        return inBufferLen + tempBufferLen;
      }
      if inbound.IsEmpty() {
        buffer := buffer[n..];
        return n;
      }
      var d := inbound.Discard(n);
      if d < inBufferLen { return d; }
      buffer := buffer[n - inBufferLen..];
      return n;
    }
  }

  lemma PeekParts(c: Bytes, b: Bytes, head: Bytes, tail: Bytes, m: nat)
    requires head + tail == (if 0 < m < |c| then c[..m] else c) && m <= |c + b|
    ensures |head| >= m ==> head[..m] == (c + b)[..m]
    ensures m <= |c| && m > 0 ==> head + tail == (c + b)[..m]
    ensures m > |c| ==> head + tail + b[..m - |c|] == (c + b)[..m]
    ensures (c + b)[..|c + b|] == c + b
  {
    if |head| >= m { assert (head + tail)[..m] == head[..m]; }
  }

  lemma DropBoth(a: Bytes, b: Bytes, n: int)
    ensures 0 < n <= |a| ==> (a + b)[n..] == Drop(a, n) + b
    ensures |a| <= n <= |a + b| ==> (a + b)[n..] == Drop(a, |a|) + b[n - |a|..] == b[n - |a|..]
    ensures a == [] && 0 <= n <= |b| ==> (a + b)[n..] == a + b[n..]
  {}

  /** A fragment and the bytes of its request. */
  datatype Request = Request(frag: nat, req: Bytes)

  function Reqs(fs: seq<Request>): (rs: seq<Bytes>)
    ensures |rs| == |fs| && forall i :: 0 <= i < |fs| ==> rs[i] == fs[i].req
  {
    seq(|fs|, i requires 0 <= i < |fs| => fs[i].req)
  }

  class Server {
    const conn: Outbound.Connection
    var outFrags: seq<Request>
    var inFrags: seq<Request>
    ghost var entered: seq<Request>
    ghost var before: Bytes

    /** The bytes handed to the socket are those of the handshake and then the requests, in the order in which
        their fragments entered the queue that replies are paired with. */
    ghost predicate Valid()
      reads this, conn, conn.out, conn.out.repr
    {
      && this !in conn.out.repr && conn.Valid()
      && (conn.isOpen ==> conn.handed == before + Concat(Reqs(entered)))
    }

    constructor (conn: Outbound.Connection)
      requires conn.Valid()
      ensures Valid() && this.conn == conn && before == conn.handed && outFrags == inFrags == entered == []
    {
      this.conn := conn;
      outFrags, inFrags, entered, before := [], [], [], conn.handed;
      new;
      assert Reqs([]) == [];
    }

    method EnqueueOutFrag(f: Request)
      requires Valid()
      modifies this
      ensures Valid() && outFrags == old(outFrags) + [f] && inFrags == old(inFrags) && entered == old(entered)
    {
      outFrags := outFrags + [f];
    }

    method DequeueInFrag() returns (f: Option<Request>)
      requires Valid()
      modifies this
      ensures Valid() && outFrags == old(outFrags) && entered == old(entered)
      ensures f == if old(inFrags) == [] then None else Some(old(inFrags)[0])
      ensures inFrags == if old(inFrags) == [] then [] else old(inFrags)[1..]
    {
      if inFrags == [] { return None; }
      f := Some(inFrags[0]);
      inFrags := inFrags[1..];
    }

    /** Every waiting fragment moves to the queue of those on the wire, and its request is written. */
    method HandleWriteSignal(ks: seq<Outbound.Kernel>, pooled: nat)
      requires Valid() && |ks| > |outFrags|
      modifies this, conn, conn.out.repr
      ensures Valid()
      ensures if old(conn.isOpen) then outFrags == [] && inFrags == old(inFrags) + old(outFrags)
                                       && entered == old(entered) + old(outFrags)
              else outFrags == old(outFrags) && inFrags == old(inFrags) && entered == old(entered)
    {
      hide Outbound.Connection.Valid, Concat;
      assert |outFrags| < 1 ==> outFrags == [] && inFrags + [] == inFrags && entered + [] == entered;
      if !conn.isOpen || |outFrags| < 1 { return; }
      var bs := MoveFrags();
      ReqsAppend(old(entered), old(outFrags));
      Assoc(before, Concat(Reqs(old(entered))), Concat(bs));
      assert bs[..|bs|] == bs;
      var _ := conn.WriteAll(bs, ks, pooled);
    }

    method MoveFrags() returns (bs: seq<Bytes>)
      modifies this
      ensures bs == Reqs(old(outFrags)) && outFrags == [] && before == old(before)
      ensures inFrags == old(inFrags) + old(outFrags) && entered == old(entered) + old(outFrags)
    {
      bs := [];
      ghost var all, n := outFrags, 0;
      while |outFrags| > 0
        invariant 0 <= n <= |all| && outFrags == all[n..] && bs == Reqs(all[..n]) && before == old(before)
        invariant inFrags == old(inFrags) + all[..n] && entered == old(entered) + all[..n]
        decreases |outFrags|
      {
        var head := outFrags[0];
        outFrags := outFrags[1..];
        inFrags := inFrags + [head];
        entered := entered + [head];
        bs := bs + [head.req];
        n := n + 1;
      }
    }
  }

  lemma ReqsAppend(a: seq<Request>, b: seq<Request>)
    ensures Concat(Reqs(a + b)) == Concat(Reqs(a)) + Concat(Reqs(b))
  {
    assert Reqs(a + b) == Reqs(a) + Reqs(b);
    ConcatAppend(Reqs(a), Reqs(b));
  }
}
