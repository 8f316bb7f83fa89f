/** The growing ring buffer of core/pkg/buffer/ring/ring_buffer.go. */
module Ring {
  import opened Bytes
  import opened PowerOfTwo
  import opened Chunks

  const DEFAULT_BUFFER_SIZE := 1024
  const BUFFER_GROW_THRESHOLD := 4096

  // ----- the bytes between two positions of a ring

  /** What a ring over b holds between the read position r and the write position w. */
  function Window(b: Bytes, r: nat, w: nat, isEmpty: bool): (s: Bytes)
    requires r <= |b| && w <= |b|
  {
    if isEmpty then [] else if w > r then b[r..w] else b[r..] + b[..w]
  }

  /** b with data written at position i. */
  function Splice(b: Bytes, i: nat, data: Bytes): (s: Bytes)
    requires i + |data| <= |b|
    ensures |s| == |b|
  {
    b[..i] + data + b[i + |data|..]
  }

  function Wrapped(i: nat, size: nat): nat { if i == size then 0 else i }

  /** Writing up to the end of the array. */
  lemma WriteStraight(b: Bytes, r: nat, w: nat, isEmpty: bool, p: Bytes)
    requires r <= w < |b| && (r == w <==> isEmpty) && 0 < |p| <= |b| - w
    ensures Window(Splice(b, w, p), r, Wrapped(w + |p|, |b|), false) == Window(b, r, w, isEmpty) + p
  {
    var s := Splice(b, w, p);
    assert s[r..w + |p|] == b[r..w] + p;
  }

  lemma SpliceEnd(b: Bytes, w: nat, data: Bytes, r: nat)
    requires r <= w && w + |data| == |b|
    ensures Splice(b, w, data)[r..] == b[r..w] + data
  {}

  lemma SpliceBelow(b: Bytes, i: nat, data: Bytes, r: nat)
    requires i + |data| <= r <= |b|
    ensures Splice(b, i, data)[..i + |data|] == b[..i] + data && Splice(b, i, data)[r..] == b[r..]
  {}

  /** Writing past the end of the array: the rest goes to its start. */
  lemma WriteWrapped(b: Bytes, r: nat, w: nat, isEmpty: bool, p: Bytes)
    requires r <= w < |b| && (r == w <==> isEmpty)
    requires |b| - w < |p| <= |b| - w + r
    ensures var c := |b| - w;
            var s := Splice(Splice(b, w, p[..c]), 0, p[c..]);
            Window(s, r, Wrapped(|p| - c, |b|), false) == Window(b, r, w, isEmpty) + p
  {
    hide Splice;
    var c := |b| - w;
    SpliceEnd(b, w, p[..c], r);
    SpliceBelow(Splice(b, w, p[..c]), 0, p[c..], r);
    Regroup(b[r..w], p, c);
    assert Window(b, r, w, isEmpty) == b[r..w];
  }

  lemma Regroup(x: Bytes, p: Bytes, c: nat)
    requires c <= |p|
    ensures (x + p[..c]) + ([] + p[c..]) == x + p
  {}

  /** Writing into the gap between the write and the read position. */
  lemma WriteGap(b: Bytes, r: nat, w: nat, p: Bytes)
    requires w < r < |b| && 0 < |p| <= r - w
    ensures Window(Splice(b, w, p), r, w + |p|, false) == Window(b, r, w, false) + p
  {
    hide Splice;
    SpliceBelow(b, w, p, r);
    assert b[r..] + (b[..w] + p) == b[r..] + b[..w] + p;
  }

  function Mod(i: nat, size: nat): nat
    requires size > 0
  {
    i % size
  }

  lemma ModOnce(i: nat, size: nat)
    requires i < 2 * size
    ensures Mod(i, size) == if i < size then i else i - size
  {}

  lemma FrontWindow(b: Bytes, data: Bytes)
    requires |data| < |b|
    ensures data != [] ==> Window(Splice(b, 0, data), 0, |data|, false) == data
  {}

  lemma WholeFits(s: Bytes, n: nat)
    requires |s| <= n
    ensures Chunks.Take(s, n) == s && Drop(s, n) == []
  {}

  /** Moving the read position drops a prefix. */
  lemma Advance(b: Bytes, r: nat, w: nat, n: nat)
    requires r < |b| && w < |b| && n < |Window(b, r, w, false)|
    ensures Mod(r + n, |b|) < |b| && Window(b, Mod(r + n, |b|), w, false) == Window(b, r, w, false)[n..]
  {
    hide Mod;
    ModOnce(r + n, |b|);
    if w > r {
      assert b[r..w][n..] == b[r + n..w];
    } else if r + n < |b| {
      assert (b[r..] + b[..w])[n..] == b[r + n..] + b[..w];
    } else {
      assert (b[r..] + b[..w])[n..] == b[r + n - |b|..w];
    }
  }

  /** The next n bytes of a ring, as one or two slices of its array. */
  function Next(b: Bytes, r: nat, w: nat, n: nat): Bytes
    requires r < |b| && w < |b| && n <= (if w > r then w - r else |b| - r + w)
  {
    if r + n <= |b| then b[r..r + n] else b[r..] + b[..n - (|b| - r)]
  }

  lemma NextIsPrefix(b: Bytes, r: nat, w: nat, n: nat)
    requires r < |b| && w < |b| && n <= (if w > r then w - r else |b| - r + w)
    ensures n <= |Window(b, r, w, false)| && Next(b, r, w, n) == Window(b, r, w, false)[..n]
    ensures |Window(b, r, w, false)| == if w > r then w - r else |b| - r + w
    ensures n > 0 ==> (Mod(r + n, |b|) == w <==> n == |Window(b, r, w, false)|)
  {
    hide Mod;
    ModOnce(r + n, |b|);
  }

  class Buffer {
    var buf: array<Byte>
    var size: nat
    var r: nat
    var w: nat
    var isEmpty: bool

    ghost predicate Valid()
      reads this
    {
      && size == buf.Length
      && (size == 0 ==> isEmpty)
      && (isEmpty ==> r == 0 && w == 0)
      && (size > 0 ==> r < size && w < size)
    }

    /** The bytes that were written and not yet read. */
    ghost function Contents(): Bytes
      requires Valid()
      reads this, buf
    {
      Window(buf[..], r, w, isEmpty)
    }

    constructor (n: nat)
      ensures Valid() && fresh(buf) && Contents() == []
      ensures size == if n == 0 then 0 else Capacity(n)
      ensures n <= size && (0 < n <= MAXINT_HEAD_BIT ==> exists h :: size == Pow2(h))
    {
      var length := if n == 0 then 0 else Capacity(n);
      buf := new Byte[length];
      size, r, w, isEmpty := length, 0, 0, true;
      new;
      CapacityAtLeast(n);
      ghost var h := CeilIsLeast(n);
    }

    function Buffered(): (n: nat)
      requires Valid()
      reads this, buf
      ensures n == |Contents()|
    {
      if r == w then (if isEmpty then 0 else size) else if w > r then w - r else size - r + w
    }

    function Available(): (n: nat)
      requires Valid()
      reads this, buf
      ensures Buffered() + n == size
    {
      if r == w then (if isEmpty then size else 0) else if w < r then r - w else size - w + r
    }

    method Reset()
      requires Valid()
      modifies this
      ensures Valid() && buf == old(buf) && size == old(size) && Contents() == []
    {
      isEmpty := true;
      r, w := 0, 0;
    }

    /** The two slices together are the next n bytes, or all of them if n is not positive or too large. */
    method Peek(n: int) returns (head: Bytes, tail: Bytes)
      requires Valid()
      ensures head + tail == if 0 < n < |Contents()| then Contents()[..n] else Contents()
      ensures tail != [] ==> head != []
    {
      hide Window, Mod;
      head, tail := [], [];
      EmptyOrNot();
      if isEmpty { return; }
      if n <= 0 {
        head, tail := PeekAll();
        return;
      }
      if w > r {
        var m := w - r;
        if m > n { m := n; }
        NextIsPrefix(buf[..], r, w, m);
        head := buf[r..r + m];
        return;
      }
      var m := size - r + w;
      if m > n { m := n; }
      NextIsPrefix(buf[..], r, w, m);
      if r + m <= size {
        head := buf[r..r + m];
      } else {
        var c := size - r;
        head := buf[r..];
        tail := buf[..m - c];
      }
    }

    lemma EmptyOrNot()
      requires Valid()
      ensures isEmpty <==> Contents() == []
    {}

    method PeekAll() returns (head: Bytes, tail: Bytes)
      requires Valid()
      ensures head + tail == Contents() && (tail != [] ==> head != [])
    {
      head, tail := [], [];
      if isEmpty { return; }
      if w > r {
        head := buf[r..w];
        return;
      }
      head := buf[r..];
      if w != 0 { tail := buf[..w]; }
    }

    method Bytes() returns (bb: Bytes)
      requires Valid()
      ensures bb == Contents()
    {
      if isEmpty { return []; }
      if w == r { return buf[r..] + buf[..w]; }
      if w > r { return buf[r..w]; }
      bb := buf[r..];
      if w != 0 { bb := bb + buf[..w]; }
    }

    method Discard(n: int) returns (discarded: nat)
      requires Valid()
      modifies this
      ensures Valid() && buf == old(buf) && size == old(size)
      ensures discarded == if n <= 0 then 0 else Min(n, |old(Contents())|)
      ensures Contents() == Drop(old(Contents()), discarded)
    {
      hide Mod;
      if n <= 0 { return 0; }
      discarded := Buffered();
      if n < discarded {
        Advance(buf[..], r, w, n);
        r := Mod(r + n, size);
        return n;
      }
      Reset();
    }

    /** Reads into a slice of n bytes; none tells that there was nothing to read. */
    method Read(n: nat) returns (data: Bytes, none: bool)
      requires Valid()
      modifies this
      ensures Valid() && buf == old(buf) && size == old(size)
      ensures none <==> n > 0 && old(Contents()) == []
      ensures data == Chunks.Take(old(Contents()), n) && Contents() == Drop(old(Contents()), n)
    {
      hide Mod;
      if n == 0 { return [], false; }
      if isEmpty { return [], true; }
      none := false;
      if w > r {
        var m := w - r;
        if m > n { m := n; }
        data := Take(m);
        return;
      }
      var m := size - r + w;
      if m > n { m := n; }
      data := Take(m);
    }

    /** Copies the next m bytes out and moves the read position. */
    method Take(m: nat) returns (data: Bytes)
      requires Valid() && !isEmpty && 0 < m <= Buffered()
      modifies this
      ensures Valid() && buf == old(buf) && size == old(size)
      ensures data == old(Contents())[..m] && Contents() == old(Contents())[m..]
    {
      hide Mod, Window;
      NextIsPrefix(buf[..], r, w, m);
      ModOnce(r + m, size);
      if r + m <= size {
        data := buf[r..r + m];
      } else {
        var c := size - r;
        data := buf[r..] + buf[..m - c];
      }
      if m < Buffered() { Advance(buf[..], r, w, m); }
      r := Mod(r + m, size);
      if r == w { Reset(); }
    }

    /** A larger array takes the place of buf; the contents move to its start. */
    method Grow(wanted: nat)
      requires Valid() && wanted > size
      modifies this
      ensures Valid() && fresh(buf) && size >= wanted && Contents() == old(Contents())
    {
      hide CeilToPowerOfTwo, Capacity, Window, Splice, Mod;
      var cap := NewCapacity(size, wanted);
      var newCap := if cap.Panic? then wanted else cap.n;
      var newBuf := new Byte[newCap];
      var oldLen := Buffered();
      ghost var was := Contents();
      EmptyOrNot();
      var data, _ := Read(newCap);
      WholeFits(was, newCap);
      EmptyOrNot();
      ghost var blank := newBuf[..];
      FrontWindow(blank, was);
      CopyInto(newBuf, 0, data);
      buf := newBuf;
      r := 0;
      w := oldLen;
      size := newCap;
      if w > 0 { isEmpty := false; }
      EmptyOrNot();
    }

    method Write(p: Bytes) returns (n: nat)
      requires Valid()
      modifies this, buf
      ensures Valid() && (buf == old(buf) || fresh(buf)) && size >= old(size)
      ensures n == |p| && Contents() == old(Contents()) + p
    {
      n := |p|;
      if n == 0 { return; }
      var free := Available();
      if n > free { Grow(size + n - free); }
      Place(p);
    }

    /** The copying part of Write, once there is room. */
    method Place(p: Bytes)
      requires Valid() && 0 < |p| <= Available()
      modifies this, buf
      ensures Valid() && buf == old(buf) && size == old(size)
      ensures Contents() == old(Contents()) + p
    {
      hide Window, Splice;
      var n := |p|;
      ghost var b := buf[..];
      FreeSpace();
      if w >= r {
        var c := size - w;
        if c >= n {
          WriteStraight(b, r, w, isEmpty, p);
          CopyInto(buf, w, p);
          w := w + n;
        } else {
          WriteWrapped(b, r, w, isEmpty, p);
          CopyInto(buf, w, p[..c]);
          CopyInto(buf, 0, p[c..]);
          w := n - c;
        }
      } else {
        WriteGap(b, r, w, p);
        CopyInto(buf, w, p);
        w := w + n;
      }
      if w == size { w := 0; }
      isEmpty := false;
    }

    lemma FreeSpace()
      requires Valid() && Available() > 0
      ensures r == w <==> isEmpty
      ensures Available() == if w >= r then size - w + r else r - w
    {}

    method ReadByte() returns (b: Option<Byte>)
      requires Valid()
      modifies this
      ensures Valid() && buf == old(buf) && size == old(size)
      ensures b == if old(Contents()) == [] then None else Some(old(Contents())[0])
      ensures Contents() == if old(Contents()) == [] then [] else old(Contents())[1..]
    {
      if isEmpty { return None; }
      b := Some(buf[r]);
      r := r + 1;
      if r == size { r := 0; }
      if r == w { Reset(); }
    }
  }

  /** The power of two that holds n bytes. */
  function Capacity(n: nat): nat {
    match CeilToPowerOfTwo(n) case Rounded(p) => p case Panic => n
  }

  lemma CapacityAtLeast(n: nat)
    ensures Capacity(n) >= n && Capacity(n) > 0
  {
    var h := CeilIsLeast(n);
  }

  /** Go's copy, for data that fits. */
  method CopyInto(a: array<Byte>, i: nat, data: Bytes)
    requires i + |data| <= a.Length
    modifies a
    ensures a[..] == Splice(old(a[..]), i, data)
  {
    forall k | 0 <= k < |data| { a[i + k] := data[k]; }
  }

  /** The growth policy in 64-bit arithmetic: doubling up to a threshold, then steps of a quarter. It always reaches
      what is wanted, also if a step overflows; Panic is that of rounding a first size over the largest power of two. */
  method NewCapacity(size: nat, wanted: nat) returns (cap: Rounded)
    ensures cap.Panic? <==> size == 0 && wanted > MAXINT_HEAD_BIT
    ensures cap.Rounded? ==> cap.n >= wanted
    ensures size == 0 && wanted <= DEFAULT_BUFFER_SIZE ==> cap == Rounded(DEFAULT_BUFFER_SIZE)
    ensures size == 0 && wanted > DEFAULT_BUFFER_SIZE ==> cap == CeilToPowerOfTwo(wanted)
    ensures 0 < size < BUFFER_GROW_THRESHOLD && wanted <= 2 * size ==> cap == Rounded(2 * size)
    ensures BUFFER_GROW_THRESHOLD <= size < wanted <= 2 * size <= MAX_INT ==> 4 * cap.n <= 5 * wanted
    ensures 0 < size && 2 * size < wanted <= MAX_INT ==> cap == Rounded(wanted)
  {
    var newCap: int := wanted;
    var n: int := size;
    if n == 0 {
      if newCap <= DEFAULT_BUFFER_SIZE { return Rounded(DEFAULT_BUFFER_SIZE); }
      CapacityAtLeast(wanted);
      return CeilToPowerOfTwo(newCap);
    }
    var doubleCap := Wrap64(n + n);
    if newCap <= doubleCap {
      if n < BUFFER_GROW_THRESHOLD {
        newCap := doubleCap;
      } else {
        while 0 < n && n < newCap
          invariant n > 0 ==> BUFFER_GROW_THRESHOLD <= n
          invariant size < wanted && 2 * size <= MAX_INT ==> 4 * n <= 5 * wanted
          decreases if n > 0 then newCap - n else -1
        {
          n := Wrap64(n + n / 4);
        }
        if n > 0 { newCap := n; }
      }
    }
    return Rounded(newCap);
  }
}
