/** A queue operation that runs without interference finishes: core/internal/queue/lock_free_queue.go:104-153.

    Together with linearizability this says that Enqueue and Dequeue do something at all: from every reachable state,
    and wherever the other threads were stopped, a thread that runs alone completes its call in a few steps. */
module Solo {
  import opened Bytes
  import opened LockFreeQueue

  /** n accesses of thread t, and of no other. */
  function Alone(s: State, t: Thread, n: nat): State {
    if n == 0 then s else Apply(Alone(s, t, n - 1), Advance(t))
  }

  lemma {:induction false} AloneAlone(s: State, t: Thread, m: nat, n: nat)
    ensures Alone(Alone(s, t, m), t, n) == Alone(s, t, m + n)
  {
    hide Apply;
    if n > 0 { AloneAlone(s, t, m, n - 1); }
  }

  lemma {:induction false} AloneKeepsInv(s: State, t: Thread, n: nat)
    requires Inv(s)
    ensures Inv(Alone(s, t, n))
  {
    hide Inv, Apply;
    if n > 0 {
      AloneKeepsInv(s, t, n - 1);
      ApplyKeepsInv(Alone(s, t, n - 1), Advance(t));
    }
  }

  /** s' differs from s in its memory, its length and where t stands. */
  ghost predicate Moved(s: State, s': State, t: Thread) { s'.pcs == s.pcs[t := s'.At(t)] }

  lemma {:induction false} AloneMoves(s: State, t: Thread, n: nat)
    requires t in s.pcs
    ensures t in Alone(s, t, n).pcs && Moved(s, Alone(s, t, n), t)
  {
    hide Access, Successor, LengthAfter;
    if n == 0 {
      assert s.pcs[t := s.pcs[t]] == s.pcs;
    } else {
      AloneMoves(s, t, n - 1);
      var p, q := Alone(s, t, n - 1), Alone(s, t, n);
      assert q.pcs == p.pcs[t := q.At(t)] == s.pcs[t := q.At(t)];
    }
  }

  /** One access. */
  lemma OneAccess(s: State, t: Thread)
    requires t in s.pcs
    ensures Alone(s, t, 1) == State(Access(s.m, s.pcs[t]), LengthAfter(s.length, s.pcs[t]),
                                    s.pcs[t := Successor(s.m, s.pcs[t])])
  {
    hide Access, Successor, LengthAfter;
    assert Alone(s, t, 1) == Apply(Alone(s, t, 0), Advance(t));
  }

  /** Loads leave the memory alone. */
  lemma OneLoad(s: State, t: Thread, pc: Pc)
    requires t in s.pcs && Access(s.m, s.pcs[t]) == s.m && Successor(s.m, s.pcs[t]) == pc
    requires LengthAfter(s.length, s.pcs[t]) == s.length
    ensures Alone(s, t, 1) == s.Goto(t, pc)
  {
    hide Access, Successor, LengthAfter;
    OneAccess(s, t);
  }

  lemma GotoTwice(s: State, t: Thread, p: Pc, q: Pc)
    ensures s.Goto(t, p).Goto(t, q) == s.Goto(t, q) && s.Goto(t, p).At(t) == p && t in s.Goto(t, p).pcs
  {}

  lemma InvParts(s: State)
    requires Inv(s)
    ensures MemoryInv(s.m)
  {}

  /** One access of a running operation: where it leads, and what it does to the queue. */
  lemma AccessAlone(s: State, t: Thread)
    requires Inv(s) && t in s.pcs
    ensures var pc, s' := s.pcs[t], Alone(s, t, 1);
            && Inv(s') && t in s'.pcs && s'.At(t) == Successor(s.m, pc)
            && (Links(s.m, pc) ==> Contents(s'.m) == Contents(s.m) + [s.m.Load(pc.n).value])
            && (Takes(s.m, pc) ==> Contents(s.m) != [] && pc.task == Contents(s.m)[0]
                                   && Contents(s'.m) == Contents(s.m)[1..])
            && (!Links(s.m, pc) && !Takes(s.m, pc) ==> Contents(s'.m) == Contents(s.m))
  {
    hide Alone, Contents, ListInv, Log, Access, Successor, PcInv, LengthInv;
    assert PcInv(s.m, s.pcs[t]);
    OneAccess(s, t);
    AccessEffect(s.m, s.pcs[t]);
    AloneKeepsInv(s, t, 1);
  }

  // ----- Dequeue

  /** The three loads of a Dequeue. */
  lemma DequeueLooks(s: State, t: Thread)
    requires t in s.pcs && s.pcs[t].DeqLoadHead?
    ensures Alone(s, t, 3) == s.Goto(t, DeqCheck(s.m.head, s.m.tail, s.m.Load(s.m.head).next))
  {
    hide Alone;
    var h, l := s.m.head, s.m.tail;
    var a, b := s.Goto(t, DeqLoadTail(h)), s.Goto(t, DeqLoadNext(h, l));
    OneLoad(s, t, DeqLoadTail(h));
    GotoTwice(s, t, DeqLoadTail(h), DeqLoadNext(h, l));
    OneLoad(a, t, DeqLoadNext(h, l));
    GotoTwice(s, t, DeqLoadNext(h, l), DeqCheck(h, l, s.m.Load(h).next));
    OneLoad(b, t, DeqCheck(h, l, s.m.Load(h).next));
    AloneAlone(s, t, 1, 1);
    AloneAlone(s, t, 2, 1);
  }

  lemma NotLast(m: Memory)
    requires MemoryInv(m)
    ensures m.Load(m.head).next.Some? ==> NextOf(m.rank, m.head, m.Load(m.head).next.value)
    ensures m.head != m.tail ==>
              m.Load(m.head).next.Some? && Before(m.rank, m.Load(m.head).next.value, m.tail)
  {
    hide ListInv;
    LoadNextOwn(m, m.head);
    RankBound(m, m.tail);
    if m.rank[m.head] == m.rank[m.tail] { SameRank(m, m.head, m.tail); }
  }

  lemma EmptyWhenLast(m: Memory)
    requires MemoryInv(m) && m.Load(m.head).next.None?
    ensures Contents(m) == []
  {
    hide ListInv, Log;
    NilNextSeesEmpty(m, DeqLoadNext(m.head, m.tail));
  }

  /** An empty queue is seen to be empty. */
  lemma DequeueNothing(s: State, t: Thread)
    requires Inv(s) && t in s.pcs && s.pcs[t].DeqLoadHead? && s.m.Load(s.m.head).next.None?
    ensures Alone(s, t, 4) == s.Goto(t, DeqReturn(None)) && Contents(s.m) == []
  {
    hide Alone, Contents, MemoryInv, Inv;
    var check := DeqCheck(s.m.head, s.m.tail, None);
    InvParts(s);
    NotLast(s.m);
    EmptyWhenLast(s.m);
    DequeueLooks(s, t);
    GotoTwice(s, t, check, DeqReturn(None));
    OneLoad(s.Goto(t, check), t, DeqReturn(None));
    AloneAlone(s, t, 3, 1);
  }

  /** A tail that lags is moved on first. */
  lemma DequeueHelps(s: State, t: Thread)
    requires Inv(s) && t in s.pcs && s.pcs[t].DeqLoadHead? && s.m.head == s.m.tail && s.m.Load(s.m.head).next.Some?
    ensures var s' := Alone(s, t, 5);
            && s'.m.head != s'.m.tail && s'.At(t) == DeqLoadHead && Contents(s'.m) == Contents(s.m)
  {
    hide Alone, Contents, MemoryInv, Inv;
    var h, x := s.m.head, s.m.Load(s.m.head).next.value;
    var check, help := DeqCheck(h, h, Some(x)), DeqHelp(h, x);
    InvParts(s);
    NotLast(s.m);
    DequeueLooks(s, t);
    GotoTwice(s, t, check, help);
    OneLoad(s.Goto(t, check), t, help);
    AloneAlone(s, t, 3, 1);
    AloneKeepsInv(s, t, 4);
    OneAccess(s.Goto(t, help), t);
    AccessAlone(s.Goto(t, help), t);
    AloneAlone(s, t, 4, 1);
  }

  /** Take, count. */
  lemma TakeAlone(s: State, t: Thread)
    requires Inv(s) && t in s.pcs && s.pcs[t].DeqTake? && s.pcs[t].head == s.m.head
    ensures var s' := Alone(s, t, 2);
            && Contents(s.m) != [] && s'.At(t) == DeqReturn(Some(Contents(s.m)[0]))
            && Contents(s'.m) == Contents(s.m)[1..]
  {
    hide Alone, Contents, Inv, Access;
    AccessAlone(s, t);
    var s1 := Alone(s, t, 1);
    assert s1.At(t) == DeqCount(Contents(s.m)[0]);
    AccessAlone(s1, t);
    AloneAlone(s, t, 1, 1);
  }

  lemma DequeueFirst(s: State, t: Thread)
    requires Inv(s) && t in s.pcs && s.pcs[t].DeqLoadHead? && s.m.head != s.m.tail
    ensures var s' := Alone(s, t, 6);
            && Contents(s.m) != [] && s'.At(t) == DeqReturn(Some(Contents(s.m)[0]))
            && Contents(s'.m) == Contents(s.m)[1..]
  {
    hide Alone, Contents, MemoryInv, Inv;
    InvParts(s);
    NotLast(s.m);
    var h, x := s.m.head, s.m.Load(s.m.head).next.value;
    var check, take := DeqCheck(h, s.m.tail, Some(x)), DeqTake(h, x, s.m.Load(x).value);
    DequeueLooks(s, t);
    GotoTwice(s, t, check, take);
    OneLoad(s.Goto(t, check), t, take);
    AloneAlone(s, t, 3, 1);
    AloneKeepsInv(s, t, 4);
    TakeAlone(s.Goto(t, take), t);
    AloneAlone(s, t, 4, 2);
  }

  /** The oldest of the given tasks. */
  function First(tasks: seq<Task>): Option<Task> { if tasks == [] then None else Some(tasks[0]) }

  function Rest(tasks: seq<Task>): seq<Task> { if tasks == [] then [] else tasks[1..] }

  /** A Dequeue that runs alone returns the oldest task, or that there is none, after at most eleven accesses. */
  lemma DequeueAlone(s: State, t: Thread) returns (n: nat)
    requires Inv(s) && t in s.pcs && s.pcs[t].DeqLoadHead?
    ensures n <= 11
    ensures var s' := Alone(s, t, n);
            s'.At(t) == DeqReturn(First(Contents(s.m))) && Contents(s'.m) == Rest(Contents(s.m)) && Moved(s, s', t)
  {
    hide Alone, Contents, Inv;
    if s.m.Load(s.m.head).next.None? {
      n := 4;
      DequeueNothing(s, t);
    } else if s.m.head != s.m.tail {
      n := 6;
      DequeueFirst(s, t);
    } else {
      n := 11;
      DequeueHelps(s, t);
      AloneKeepsInv(s, t, 5);
      AloneMoves(s, t, 5);
      DequeueFirst(Alone(s, t, 5), t);
      AloneAlone(s, t, 5, 6);
    }
    AloneMoves(s, t, n);
  }

  // ----- Enqueue

  /** The two loads of an Enqueue. */
  lemma EnqueueLooks(s: State, t: Thread, n: NodeId)
    requires t in s.pcs && s.pcs[t] == EnqLoadTail(n)
    ensures Alone(s, t, 2) == s.Goto(t, EnqCheck(n, s.m.tail, s.m.Load(s.m.tail).next))
  {
    hide Alone;
    var l := s.m.tail;
    var a := s.Goto(t, EnqLoadNext(n, l));
    OneLoad(s, t, EnqLoadNext(n, l));
    GotoTwice(s, t, EnqLoadNext(n, l), EnqCheck(n, l, s.m.Load(l).next));
    OneLoad(a, t, EnqCheck(n, l, s.m.Load(l).next));
    AloneAlone(s, t, 1, 1);
  }

  /** A tail that lags does so by one node only. */
  lemma TailLagsByOne(m: Memory)
    requires MemoryInv(m) && m.Load(m.tail).next.Some?
    ensures NextOf(m.rank, m.tail, m.Load(m.tail).next.value)
    ensures m.Load(m.Load(m.tail).next.value).next.None?
  {
    hide ListInv;
    var x := m.Load(m.tail).next.value;
    LoadNextOwn(m, m.tail);
    LoadNextOwn(m, x);
    RankBound(m, x);
    if m.Load(x).next.Some? { RankBound(m, m.Load(x).next.value); }
  }

  lemma EnqueueHelps(s: State, t: Thread, n: NodeId)
    requires Inv(s) && t in s.pcs && s.pcs[t] == EnqLoadTail(n) && s.m.Load(s.m.tail).next.Some?
    ensures var s' := Alone(s, t, 4);
            && s'.At(t) == EnqLoadTail(n) && s'.m.Load(s'.m.tail).next.None?
            && Contents(s'.m) == Contents(s.m) && s'.m.heap == s.m.heap
  {
    hide Alone, Contents, ListInv, Log, Inv;
    var l, x := s.m.tail, s.m.Load(s.m.tail).next.value;
    var check, help := EnqCheck(n, l, Some(x)), EnqHelp(n, l, x);
    assert MemoryInv(s.m) by { InvParts(s); }
    TailLagsByOne(s.m);
    EnqueueLooks(s, t, n);
    GotoTwice(s, t, check, help);
    OneLoad(s.Goto(t, check), t, help);
    AloneAlone(s, t, 2, 1);
    AloneKeepsInv(s, t, 3);
    OneAccess(s.Goto(t, help), t);
    AccessAlone(s.Goto(t, help), t);
    AloneAlone(s, t, 3, 1);
  }

  lemma EnqueueReady(s: State, t: Thread, n: NodeId)
    requires t in s.pcs && s.pcs[t] == EnqLoadTail(n) && s.m.Load(s.m.tail).next.None?
    ensures Alone(s, t, 3) == s.Goto(t, EnqLink(n, s.m.tail))
  {
    hide Alone;
    var check, link := EnqCheck(n, s.m.tail, None), EnqLink(n, s.m.tail);
    EnqueueLooks(s, t, n);
    GotoTwice(s, t, check, link);
    OneLoad(s.Goto(t, check), t, link);
    AloneAlone(s, t, 2, 1);
  }

  /** Link, swing the tail, count. */
  lemma LinkAlone(s: State, t: Thread, n: NodeId)
    requires Inv(s) && t in s.pcs && s.pcs[t] == EnqLink(n, s.m.tail) && s.m.Load(s.m.tail).next.None?
    ensures var s' := Alone(s, t, 3);
            s'.At(t) == EnqReturn && Contents(s'.m) == Contents(s.m) + [s.m.Load(n).value]
  {
    hide Alone, Contents, Inv, Access;
    AccessAlone(s, t);
    var s1 := Alone(s, t, 1);
    assert s1.At(t) == EnqSwing(n, s.m.tail);
    AccessAlone(s1, t);
    AloneAlone(s, t, 1, 1);
    var s2 := Alone(s, t, 2);
    assert s2.At(t) == EnqCount;
    AccessAlone(s2, t);
    AloneAlone(s, t, 2, 1);
  }

  lemma EnqueueLinks(s: State, t: Thread, n: NodeId)
    requires Inv(s) && t in s.pcs && s.pcs[t] == EnqLoadTail(n) && s.m.Load(s.m.tail).next.None?
    ensures var s' := Alone(s, t, 6);
            s'.At(t) == EnqReturn && Contents(s'.m) == Contents(s.m) + [s.m.Load(n).value]
  {
    hide Alone, Contents, Inv;
    EnqueueReady(s, t, n);
    AloneKeepsInv(s, t, 3);
    LinkAlone(s.Goto(t, EnqLink(n, s.m.tail)), t, n);
    AloneAlone(s, t, 3, 3);
  }

  /** An Enqueue that runs alone puts its task behind all others, after at most ten accesses. */
  lemma EnqueueAlone(s: State, t: Thread, node: NodeId) returns (n: nat)
    requires Inv(s) && t in s.pcs && s.pcs[t] == EnqLoadTail(node)
    ensures n <= 10
    ensures var s' := Alone(s, t, n);
            s'.At(t) == EnqReturn && Contents(s'.m) == Contents(s.m) + [s.m.Load(node).value] && Moved(s, s', t)
  {
    hide Alone, Contents, Inv;
    if s.m.Load(s.m.tail).next.None? {
      n := 6;
      EnqueueLinks(s, t, node);
    } else {
      n := 10;
      EnqueueHelps(s, t, node);
      AloneKeepsInv(s, t, 4);
      AloneMoves(s, t, 4);
      EnqueueLinks(Alone(s, t, 4), t, node);
      AloneAlone(s, t, 4, 6);
    }
    AloneMoves(s, t, n);
  }
}
