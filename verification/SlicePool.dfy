/** The byte slice pool of core/pkg/pool/byteslice/byteslice.go, over an explicit memory of arrays. */
module SlicePool {
  import opened PowerOfTwo
  import opened Bytes

  const MAX_INT32 := 0x7fff_ffff

  /** bits.Len32 */
  function BitLen(n: nat): nat { if n == 0 then 0 else 1 + BitLen(n / 2) }

  function Index(n: nat): nat
    requires n > 0
  {
    BitLen(n - 1)
  }

  /** A slice in use, with its length and capacity, or a pointer in the free list of a size class. */
  datatype Block =
    | Live(arr: nat, off: nat, len: nat, cap: nat)
    | Pooled(arr: nat, off: nat, cls: nat)

  /** sizes are the lengths of all arrays ever made; every block goes by a name of its own. */
  datatype Memory = Memory(sizes: seq<nat>, blocks: map<nat, Block>)

  /** Get for a caller-chosen size: pick is the pointer that the size class hands out, if any. Put is the return of a
      slice that is not used again, PutTwice of one that is. Reslice drops the first bytes of a slice. Forget is
      the garbage collector emptying a free list. */
  datatype Action =
    | Get(name: nat, size: int, pick: Option<nat>)
    | Reslice(name: nat, n: nat)
    | Put(name: nat)
    | PutTwice(name: nat, other: nat)
    | Forget(name: nat)

  predicate Enabled(m: Memory, a: Action) {
    match a
    case Get(name, size, pick) =>
      && (pick.None? ==> name !in m.blocks)
      && (pick.Some? ==> 0 < size <= MAX_INT32 && pick.value == name && name in m.blocks
                         && m.blocks[name].Pooled? && m.blocks[name].cls == Index(size))
    case Reslice(name, n) => name in m.blocks && m.blocks[name].Live? && n <= m.blocks[name].len
    case Put(name) => name in m.blocks && m.blocks[name].Live?
    case PutTwice(name, other) => name in m.blocks && m.blocks[name].Live? && other !in m.blocks
    case Forget(name) => name in m.blocks && m.blocks[name].Pooled?
  }

  /** The size class that a slice of capacity cap is returned to. */
  function ClassOf(cap: nat): nat
    requires cap > 0
  {
    if cap != Pow2(Index(cap)) && Index(cap) > 0 then Index(cap) - 1 else Index(cap)
  }

  predicate Kept(b: Block) { b.Live? && 0 < b.cap <= MAX_INT32 }

  function Returned(b: Block): Block
    requires Kept(b)
  {
    Pooled(b.arr, b.off, ClassOf(b.cap))
  }

  function Step(m: Memory, a: Action): Memory
    requires Enabled(m, a)
  {
    match a
    case Get(name, size, pick) =>
      if size <= 0 then m
      else if size > MAX_INT32 then Memory(m.sizes + [size], m.blocks[name := Live(|m.sizes|, 0, size, size)])
      else if pick.None? then
        var c := Pow2(Index(size));
        Memory(m.sizes + [c], m.blocks[name := Live(|m.sizes|, 0, size, c)])
      else
        var b := m.blocks[name];
        m.(blocks := m.blocks[name := Live(b.arr, b.off, size, Pow2(Index(size)))])
    case Reslice(name, n) =>
      var b := m.blocks[name];
      if n > b.cap || n > b.len then m
      else m.(blocks := m.blocks[name := Live(b.arr, b.off + n, b.len - n, b.cap - n)])
    case Put(name) =>
      var b := m.blocks[name];
      m.(blocks := if Kept(b) then m.blocks[name := Returned(b)] else m.blocks - {name})
    case PutTwice(name, other) =>
      var b := m.blocks[name];
      if Kept(b) then m.(blocks := m.blocks[other := Returned(b)]) else m
    case Forget(name) => m.(blocks := m.blocks - {name})
  }

  // ----- size classes

  lemma {:induction false} BitLenBounds(n: nat)
    ensures n < Pow2(BitLen(n)) && (n > 0 ==> BitLen(n) > 0 && Pow2(BitLen(n) - 1) <= n)
  {
    if n > 0 { BitLenBounds(n / 2); }
  }

  /** The class of a size is the least power of two that is not below it. */
  lemma IndexIsCeil(n: nat)
    requires n > 0
    ensures n <= Pow2(Index(n)) && (n > 1 ==> Index(n) > 0 && Pow2(Index(n) - 1) < n)
  {
    BitLenBounds(n - 1);
  }

  /** A returned slice goes to a class that it can serve, and to the largest such class. */
  lemma ClassServes(cap: nat)
    requires cap > 0
    ensures Pow2(ClassOf(cap)) <= cap < 2 * Pow2(ClassOf(cap))
  {
    IndexIsCeil(cap);
  }

  /** What Get asks of a class, Put has put there: a slice that came from Get goes back to the class it came from. */
  lemma RoundTrip(size: nat)
    requires size > 0
    ensures ClassOf(Pow2(Index(size))) == Index(size)
  {
    var k := Index(size);
    IndexOfPow(k);
  }

  lemma IndexOfPow(k: nat)
    ensures Index(Pow2(k)) == k
  {
    var j := Index(Pow2(k));
    IndexIsCeil(Pow2(k));
    if j < k { PowMonotone(j, k); }
    if k + 1 < j { PowMonotone(k, j - 1); }
  }

  lemma ClassBound(n: nat, k: nat)
    requires 0 < n <= Pow2(k)
    ensures Index(n) <= k
  {
    hide Pow2;
    IndexIsCeil(n);
    if k < Index(n) - 1 { PowMonotone(k, Index(n) - 1); }
  }

  lemma LargestPower()
    ensures Pow2(31) == MAX_INT32 + 1
  {
    assert Pow2(7) == 128;
    Times256(7);
    Times256(15);
    Times256(23);
  }

  /** Every size that is served from the pool has one of its 32 classes. */
  lemma ClassesSuffice(n: nat)
    requires 0 < n <= MAX_INT32
    ensures Index(n) < 32 && ClassOf(n) < 32
  {
    hide Pow2, BitLen;
    LargestPower();
    ClassBound(n, 31);
  }

  // ----- no block reaches past its array

  function End(b: Block): nat { if b.Live? then b.off + b.cap else b.off + Pow2(b.cls) }

  ghost predicate BackedBlock(sizes: seq<nat>, b: Block) {
    b.arr < |sizes| && End(b) <= sizes[b.arr] && (b.Live? ==> b.len <= b.cap)
  }

  ghost predicate Backed(m: Memory) { forall n :: n in m.blocks ==> BackedBlock(m.sizes, m.blocks[n]) }

  lemma ReturnedBacked(sizes: seq<nat>, b: Block)
    requires BackedBlock(sizes, b) && Kept(b)
    ensures BackedBlock(sizes, Returned(b)) && End(Returned(b)) <= End(b)
  {
    ClassServes(b.cap);
  }

  /** Every step keeps every slice and every pooled pointer inside its array, even if slices are returned twice. */
  lemma StepKeepsBacked(m: Memory, a: Action)
    requires Enabled(m, a) && Backed(m)
    ensures Backed(Step(m, a))
  {
    hide Index, ClassOf, Pow2;
    match a {
      case Get(_, size, _) => if size > 0 { IndexIsCeil(size); }
      case Put(name) => if Kept(m.blocks[name]) { ReturnedBacked(m.sizes, m.blocks[name]); }
      case PutTwice(name, _) => if Kept(m.blocks[name]) { ReturnedBacked(m.sizes, m.blocks[name]); }
      case _ =>
    }
  }

  // ----- no two blocks share a byte

  ghost predicate Apart(b: Block, c: Block) { b.arr != c.arr || End(b) <= c.off || End(c) <= b.off }

  ghost predicate Disjoint(m: Memory) {
    forall n, k :: n in m.blocks && k in m.blocks && n != k ==> Apart(m.blocks[n], m.blocks[k])
  }

  /** b lies inside c. */
  ghost predicate Within(b: Block, c: Block) { b.arr == c.arr && c.off <= b.off && End(b) <= End(c) }

  /** Replacing a block by one inside it, or by one in a new array, keeps the blocks apart. */
  lemma ReplaceKeepsApart(m: Memory, name: nat, b: Block, sizes: seq<nat>)
    requires Backed(m) && Disjoint(m)
    requires (name in m.blocks && Within(b, m.blocks[name])) || b.arr >= |m.sizes|
    ensures Disjoint(Memory(sizes, m.blocks[name := b]))
  {
    hide Pow2;
    var blocks := m.blocks[name := b];
    forall n, k | n in blocks && k in blocks && n != k ensures Apart(blocks[n], blocks[k]) {
      if n != name && k != name {
        assert Apart(m.blocks[n], m.blocks[k]);
      } else if name in m.blocks {
        assert Apart(m.blocks[n], m.blocks[k]);
      }
    }
  }

  /** While slices are returned once and not used afterwards, no two of them and no pooled memory ever overlap. */
  lemma StepKeepsDisjoint(m: Memory, a: Action)
    requires Enabled(m, a) && Backed(m) && Disjoint(m) && !a.PutTwice?
    ensures Disjoint(Step(m, a))
  {
    hide Index, ClassOf, Pow2, Disjoint;
    match a {
      case Get(name, size, pick) =>
        if size > 0 {
          var m' := Step(m, a);
          ReplaceKeepsApart(m, name, m'.blocks[name], m'.sizes);
        }
      case Reslice(name, n) =>
        var b := m.blocks[name];
        if n <= b.cap && n <= b.len {
          ReplaceKeepsApart(m, name, Live(b.arr, b.off + n, b.len - n, b.cap - n), m.sizes);
        }
      case Put(name) =>
        if Kept(m.blocks[name]) {
          ReturnedBacked(m.sizes, m.blocks[name]);
          ReplaceKeepsApart(m, name, Returned(m.blocks[name]), m.sizes);
        } else {
          RemoveKeepsApart(m, name);
        }
      case Forget(name) => RemoveKeepsApart(m, name);
    }
  }

  /** Returning a slice and using it on does break it, for every slice that the pool keeps. */
  lemma OverlapExactly(m: Memory, a: Action)
    requires Enabled(m, a) && Backed(m) && Disjoint(m)
    ensures Disjoint(Step(m, a)) <==> !(a.PutTwice? && Kept(m.blocks[a.name]))
  {
    hide Index, ClassOf, Pow2;
    if a.PutTwice? {
      var m' := Step(m, a);
      if Kept(m.blocks[a.name]) { assert !Apart(m'.blocks[a.name], m'.blocks[a.other]); }
    } else {
      StepKeepsDisjoint(m, a);
    }
  }

  lemma RemoveKeepsApart(m: Memory, name: nat)
    requires Disjoint(m)
    ensures Disjoint(m.(blocks := m.blocks - {name}))
  {}

  // ----- what the caller gets

  /** Get gives a slice of the length asked for, with room for a whole size class, and touches no other block. */
  lemma GetGives(m: Memory, name: nat, size: int, pick: Option<nat>)
    requires Enabled(m, Get(name, size, pick)) && size > 0
    ensures var blocks := Step(m, Get(name, size, pick)).blocks;
            && name in blocks && blocks[name].Live? && blocks[name].len == size <= blocks[name].cap
            && forall k :: k != name ==> (k in blocks <==> k in m.blocks) && (k in blocks ==> blocks[k] == m.blocks[k])
  {
    hide Index, Pow2;
    IndexIsCeil(size);
  }

  /** A slice from Get that is returned serves the next request of its class, with the same memory. */
  lemma Recycled(m: Memory, name: nat, size: nat, next: nat)
    requires Enabled(m, Put(name)) && 0 < size <= MAX_INT32 && 0 < next <= MAX_INT32
    requires m.blocks[name].cap == Pow2(Index(size)) <= MAX_INT32 && Index(next) == Index(size)
    ensures var m' := Step(m, Put(name));
            && Enabled(m', Get(name, next, Some(name)))
            && var b, b' := m.blocks[name], Step(m', Get(name, next, Some(name))).blocks[name];
               b' == Live(b.arr, b.off, next, b.cap)
  {
    hide Index, Pow2;
    IndexIsCeil(size);
    RoundTrip(size);
  }

  /** Dropping the first bytes of a slice leaves its last ones, where they were. */
  lemma Resliced(m: Memory, name: nat, n: nat)
    requires Enabled(m, Reslice(name, n)) && Backed(m)
    ensures var b, b' := m.blocks[name], Step(m, Reslice(name, n)).blocks[name];
            && b'.Live? && b'.arr == b.arr && b'.off == b.off + n
            && b'.off + b'.len == b.off + b.len && End(b') == End(b)
  {}

  // ----- runs

  function Run(acts: seq<Action>): Memory {
    if acts == [] then Memory([], map[]) else
      var m, a := Run(acts[..|acts| - 1]), acts[|acts| - 1];
      if Enabled(m, a) then Step(m, a) else m
  }

  /** In every run every slice in use has its whole capacity inside its array, and if no slice is returned and then
      used again, the slices in use and the pooled memory are pairwise disjoint. */
  lemma {:induction false} PoolIsSafe(acts: seq<Action>)
    ensures Backed(Run(acts))
    ensures (forall i :: 0 <= i < |acts| ==> !acts[i].PutTwice?) ==> Disjoint(Run(acts))
  {
    hide Enabled, Step, Backed, Disjoint;
    if acts == [] {
      EmptyMemory();
    } else {
      var init, a := acts[..|acts| - 1], acts[|acts| - 1];
      PoolIsSafe(init);
      if Enabled(Run(init), a) {
        StepKeepsBacked(Run(init), a);
        if !a.PutTwice? && forall i :: 0 <= i < |init| ==> !acts[i].PutTwice? {
          StepKeepsDisjoint(Run(init), a);
        }
      }
    }
  }

  lemma EmptyMemory()
    ensures Backed(Memory([], map[])) && Disjoint(Memory([], map[]))
  {}
}
