/** Sequences of byte slices, as scatter-gather I/O and the list buffer hold them. */
module Chunks {
  import opened Bytes

  function Concat(parts: seq<Bytes>): Bytes {
    if parts == [] then [] else parts[0] + Concat(parts[1..])
  }

  lemma {:induction false} ConcatAppend(a: seq<Bytes>, b: seq<Bytes>)
    ensures Concat(a + b) == Concat(a) + Concat(b)
  {
    if a == [] {
      assert a + b == b;
    } else {
      assert (a + b)[1..] == a[1..] + b;
      ConcatAppend(a[1..], b);
    }
  }

  lemma Assoc(a: Bytes, b: Bytes, c: Bytes)
    ensures (a + b) + c == a + (b + c)
  {}

  lemma ConcatNone()
    ensures Concat([]) == []
  {}

  lemma ConcatOne(p: Bytes)
    ensures Concat([p]) == p
  {
    assert [p][1..] == [] && p + [] == p;
  }

  lemma ConcatSnoc(parts: seq<Bytes>, p: Bytes)
    ensures Concat(parts + [p]) == Concat(parts) + p
  {
    ConcatAppend(parts, [p]);
    ConcatOne(p);
  }

  lemma ConcatFirst(p: Bytes, parts: seq<Bytes>)
    ensures Concat([p] + parts) == p + Concat(parts)
  {
    assert ([p] + parts)[1..] == parts;
  }

  /** Cutting the list between two parts cuts the bytes there. */
  lemma ConcatSplit(parts: seq<Bytes>, i: nat)
    requires i <= |parts|
    ensures Concat(parts) == Concat(parts[..i]) + Concat(parts[i..])
  {
    assert parts == parts[..i] + parts[i..];
    ConcatAppend(parts[..i], parts[i..]);
  }

  ghost predicate NoneEmpty(parts: seq<Bytes>) { forall i :: 0 <= i < |parts| ==> parts[i] != [] }

  lemma ConcatEmpty(parts: seq<Bytes>)
    requires NoneEmpty(parts)
    ensures Concat(parts) == [] <==> parts == []
  {}

  /** p is a prefix of s with at least n bytes, or all of s. */
  ghost predicate Peeked(p: Bytes, s: Bytes, n: nat) { p <= s && (|p| >= n || p == s) }

  function Min(a: nat, b: nat): nat { if a < b then a else b }

  function Take(s: Bytes, n: nat): Bytes { s[..Min(n, |s|)] }

  function Drop(s: Bytes, n: nat): Bytes { s[Min(n, |s|)..] }

  /** Taking n bytes of a + b takes from a first. */
  lemma TakeBoth(a: Bytes, b: Bytes, n: nat)
    ensures |Take(a, n)| == Min(n, |a|)
    ensures Take(a + b, n) == Take(a, n) + Take(b, n - Min(n, |a|))
    ensures Drop(a + b, n) == Drop(a, n) + Drop(b, n - Min(n, |a|))
  {}

  lemma TakeNone(s: Bytes)
    ensures Take(s, 0) == [] && Drop(s, 0) == s
  {}

  /** The same for a drop of a number that may be negative, which drops nothing. */
  lemma DropParts(a: Bytes, b: Bytes, n: int)
    ensures var i := if n <= 0 then 0 else Min(n, |a|);
            var j := if n <= i then 0 else Min(n - i, |b|);
            && i + j == (if n <= 0 then 0 else Min(n, |a + b|))
            && Drop(a + b, i + j) == Drop(a, i) + Drop(b, j)
    ensures Drop(b, 0) == b
  {}

  /** Appending p to a + b, whole to b, or to a while b is empty, or split between the two. */
  lemma AppendParts(a: Bytes, b: Bytes, p: Bytes, k: nat)
    ensures a + (b + p) == (a + b) + p
    ensures b == [] ==> (a + p) + b == (a + b) + p
    ensures b == [] && k <= |p| ==> (a + p[..k]) + (b + p[k..]) == (a + b) + p
  {}
}
