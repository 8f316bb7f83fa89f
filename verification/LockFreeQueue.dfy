/** The lock-free task queue of core/internal/queue/lock_free_queue.go.

    One `Action` is one atomic access of one thread: a load, a compare-and-swap or an atomic add.
    The scheduler is any sequence of actions, and any number of threads may take part.
    `chain` and `rank` are auxiliary: they record the nodes in the order in which they were linked,
    are never read by a guard, and only serve to state what the pointers mean. */
module LockFreeQueue {
  import opened Bytes

  type Thread = nat
  type NodeId = nat
  type Task = nat

  datatype Node = Node(value: Task, next: Option<NodeId>)

  /** The memory shared by all threads, without the length counter. */
  datatype Memory = Memory(
    heap: map<NodeId, Node>,
    head: NodeId,
    tail: NodeId,
    chain: seq<NodeId>,
    rank: map<NodeId, nat>)
  {
    /** Dereference of a node pointer; the invariant shows that only allocated nodes are read. */
    function Load(n: NodeId): Node {
      if n in heap then heap[n] else Node(0, None)
    }

    function CasTail(expected: NodeId, desired: NodeId): Memory {
      if tail == expected then this.(tail := desired) else this
    }

    /** Stores n into the next field of `last`. */
    function Link(last: NodeId, n: NodeId): Memory {
      this.(heap := heap[last := Load(last).(next := Some(n))],
            chain := chain + [n],
            rank := rank[n := |chain|])
    }
  }

  /** Where a thread stands inside Enqueue or Dequeue, with its local variables. */
  datatype Pc =
    | Idle
    | EnqLoadTail(n: NodeId)
    | EnqLoadNext(n: NodeId, tail: NodeId)
    | EnqCheck(n: NodeId, tail: NodeId, next: Option<NodeId>)
    | EnqLink(n: NodeId, tail: NodeId)
    | EnqHelp(n: NodeId, tail: NodeId, succ: NodeId)
    | EnqSwing(n: NodeId, tail: NodeId)
    | EnqCount
    | EnqReturn
    | DeqLoadHead
    | DeqLoadTail(head: NodeId)
    | DeqLoadNext(head: NodeId, tail: NodeId)
    | DeqCheck(head: NodeId, tail: NodeId, next: Option<NodeId>)
    | DeqHelp(tail: NodeId, succ: NodeId)
    | DeqTake(head: NodeId, succ: NodeId, task: Task)
    | DeqCount(task: Task)
    | DeqReturn(result: Option<Task>)
    | Crashed

  datatype State = State(m: Memory, length: int, pcs: map<Thread, Pc>) {
    function At(t: Thread): Pc {
      if t in pcs then pcs[t] else Idle
    }

    function Goto(t: Thread, pc: Pc): State {
      this.(pcs := pcs[t := pc])
    }
  }

  datatype Action =
    | CallEnqueue(t: Thread, task: Task, node: NodeId)
    | CallDequeue(t: Thread)
    | Advance(t: Thread)
    | Return(t: Thread)

  /** NewLockFreeQueue: one dummy node, which both head and tail point to. */
  function Init(): State {
    State(Memory(map[0 := Node(0, None)], 0, 0, [0], map[0 := 0]), 0, map[])
  }

  /** The memory after the atomic access that pc stands before. */
  function Access(m: Memory, pc: Pc): Memory {
    match pc
    case EnqLink(n, tail) => if m.Load(tail).next.None? then m.Link(tail, n) else m
    case EnqHelp(n, tail, succ) => m.CasTail(tail, succ)
    case EnqSwing(n, tail) => m.CasTail(tail, n)
    case DeqHelp(tail, succ) => m.CasTail(tail, succ)
    case DeqTake(head, succ, task) => if m.head == head then m.(head := succ) else m
    case _ => m
  }

  /** Where the thread stands after that access. */
  function Successor(m: Memory, pc: Pc): Pc {
    match pc
    case EnqLoadTail(n) => EnqLoadNext(n, m.tail)
    case EnqLoadNext(n, tail) => EnqCheck(n, tail, m.Load(tail).next)
    case EnqCheck(n, tail, next) =>
      if tail != m.tail then EnqLoadTail(n)
      else if next.None? then EnqLink(n, tail)
      else EnqHelp(n, tail, next.value)
    case EnqLink(n, tail) => if m.Load(tail).next.None? then EnqSwing(n, tail) else EnqLoadTail(n)
    case EnqHelp(n, tail, succ) => EnqLoadTail(n)
    case EnqSwing(n, tail) => EnqCount
    case EnqCount => EnqReturn
    case DeqLoadHead => DeqLoadTail(m.head)
    case DeqLoadTail(head) => DeqLoadNext(head, m.tail)
    case DeqLoadNext(head, tail) => DeqCheck(head, tail, m.Load(head).next)
    case DeqCheck(head, tail, next) =>
      if head != m.head then DeqLoadHead
      else if head == tail then (if next.None? then DeqReturn(None) else DeqHelp(tail, next.value))
      else if next.None? then Crashed // next.value dereferences nil
      else DeqTake(head, next.value, m.Load(next.value).value)
    case DeqHelp(tail, succ) => DeqLoadHead
    case DeqTake(head, succ, task) => if m.head == head then DeqCount(task) else DeqLoadHead
    case DeqCount(task) => DeqReturn(Some(task))
    case _ => pc
  }

  function LengthAfter(length: int, pc: Pc): int {
    if pc.EnqCount? then length + 1 else if pc.DeqCount? then length - 1 else length
  }

  /** An action that is not possible in s leaves s unchanged. */
  function Apply(s: State, a: Action): State {
    match a
    case CallEnqueue(t, task, node) =>
      if s.At(t).Idle? && node !in s.m.heap then
        s.(m := s.m.(heap := s.m.heap[node := Node(task, None)])).Goto(t, EnqLoadTail(node))
      else s
    case CallDequeue(t) => if s.At(t).Idle? then s.Goto(t, DeqLoadHead) else s
    case Advance(t) =>
      if t !in s.pcs then s
      else State(Access(s.m, s.pcs[t]), LengthAfter(s.length, s.pcs[t]), s.pcs[t := Successor(s.m, s.pcs[t])])
    case Return(t) => if s.At(t).EnqReturn? || s.At(t).DeqReturn? then s.Goto(t, Idle) else s
  }

  function Run(s: State, actions: seq<Action>): State {
    if actions == [] then s else Apply(Run(s, actions[..|actions| - 1]), actions[|actions| - 1])
  }

  // ----- what the pointers mean

  type Rank = map<NodeId, nat>

  ghost predicate Before(rank: Rank, a: NodeId, b: NodeId) {
    a in rank && b in rank && rank[a] <= rank[b]
  }

  ghost predicate NextOf(rank: Rank, n: NodeId, succ: NodeId) {
    n in rank && succ in rank && rank[succ] == rank[n] + 1
  }

  /** All linked nodes form one list, in the order of chain. */
  ghost predicate ListInv(heap: map<NodeId, Node>, chain: seq<NodeId>, rank: Rank) {
    && |chain| > 0
    && (forall n {:trigger rank[n]} :: n in rank ==> n in heap && rank[n] < |chain| && chain[rank[n]] == n)
    && (forall i {:trigger chain[i]} :: 0 <= i < |chain| ==> chain[i] in rank && rank[chain[i]] == i)
    && (forall n {:trigger heap[n]} :: n in rank ==>
          if heap[n].next.None? then rank[n] == |chain| - 1 else NextOf(rank, n, heap[n].next.value))
  }

  /** head never passes tail, and tail lags by at most one node. */
  ghost predicate MemoryInv(m: Memory) {
    && ListInv(m.heap, m.chain, m.rank)
    && Before(m.rank, m.head, m.tail)
    && m.rank[m.tail] >= |m.chain| - 2
  }

  /** The node a pending Enqueue has allocated but not linked yet. */
  function Pending(pc: Pc): Option<NodeId> {
    match pc
    case EnqLoadTail(n) => Some(n)
    case EnqLoadNext(n, _) => Some(n)
    case EnqCheck(n, _, _) => Some(n)
    case EnqLink(n, _) => Some(n)
    case EnqHelp(n, _, _) => Some(n)
    case _ => None
  }

  ghost predicate PrivateNode(m: Memory, n: NodeId) {
    n in m.heap && n !in m.rank && m.heap[n].next == None
  }

  ghost predicate LocalsInv(m: Memory, pc: Pc) {
    match pc
    case EnqLoadNext(n, tail) => Before(m.rank, tail, m.tail)
    case EnqCheck(n, tail, next) =>
      Before(m.rank, tail, m.tail) && (next.Some? ==> NextOf(m.rank, tail, next.value))
    case EnqLink(n, tail) => Before(m.rank, tail, m.tail)
    case EnqHelp(n, tail, succ) => NextOf(m.rank, tail, succ)
    case EnqSwing(n, tail) => NextOf(m.rank, tail, n)
    case DeqLoadTail(head) => Before(m.rank, head, m.head)
    case DeqLoadNext(head, tail) =>
      Before(m.rank, head, m.head) && Before(m.rank, head, tail) && Before(m.rank, tail, m.tail)
    case DeqCheck(head, tail, next) =>
      && Before(m.rank, head, m.head) && Before(m.rank, head, tail) && Before(m.rank, tail, m.tail)
      && (if next.Some? then NextOf(m.rank, head, next.value) else head == tail)
    case DeqHelp(tail, succ) => NextOf(m.rank, tail, succ)
    case DeqTake(head, succ, task) =>
      && NextOf(m.rank, head, succ) && Before(m.rank, succ, m.tail) && m.Load(succ).value == task
    case Crashed => false
    case _ => true
  }

  ghost predicate PcInv(m: Memory, pc: Pc) {
    LocalsInv(m, pc) && (Pending(pc).Some? ==> PrivateNode(m, Pending(pc).value))
  }

  ghost predicate ThreadsInv(m: Memory, pcs: map<Thread, Pc>) {
    && (forall t :: t in pcs ==> PcInv(m, pcs[t]))
    && (forall t, u :: t in pcs && u in pcs && t != u && Pending(pcs[t]).Some?
                       ==> Pending(pcs[t]) != Pending(pcs[u]))
  }

  /** length counts the queued tasks, except for the adds that are still to come. */
  ghost predicate LengthInv(s: State) {
    s.length == |Contents(s.m)| - |Uncounted(s.pcs)| + |Taken(s.pcs)|
  }

  ghost predicate Inv(s: State) {
    MemoryInv(s.m) && ThreadsInv(s.m, s.pcs) && LengthInv(s)
  }

  /** Every task ever linked, in linking order; chain[0] is the dummy node. */
  ghost function Log(heap: map<NodeId, Node>, chain: seq<NodeId>): (log: seq<Task>)
    ensures chain != [] ==> |log| == |chain| - 1
  {
    if |chain| < 2 then [] else
      var n := chain[|chain| - 1];
      Log(heap, chain[..|chain| - 1]) + [if n in heap then heap[n].value else 0]
  }

  lemma LogAt(heap: map<NodeId, Node>, chain: seq<NodeId>, i: nat)
    requires 0 < i < |chain| && chain[i] in heap
    ensures Log(heap, chain)[i - 1] == heap[chain[i]].value
  {
    if i < |chain| - 1 { LogAt(heap, chain[..|chain| - 1], i); }
  }

  lemma LogDependsOnValues(heap: map<NodeId, Node>, heap': map<NodeId, Node>, chain: seq<NodeId>)
    requires forall n :: n in chain ==> n in heap && n in heap' && heap[n].value == heap'[n].value
    ensures Log(heap, chain) == Log(heap', chain)
  {}

  /** How many tasks have been taken so far. */
  ghost function TakenCount(m: Memory): nat {
    if m.head in m.rank then m.rank[m.head] else 0
  }

  /** The tasks that are linked and not yet taken, oldest first. */
  ghost function Contents(m: Memory): seq<Task> {
    var log := Log(m.heap, m.chain);
    if TakenCount(m) <= |log| then log[TakenCount(m)..] else []
  }

  predicate LinkedUncounted(pc: Pc) { pc.EnqSwing? || pc.EnqCount? }

  /** Threads that have linked their task but not yet added it to length. */
  ghost function Uncounted(pcs: map<Thread, Pc>): set<Thread> {
    set t | t in pcs && LinkedUncounted(pcs[t])
  }

  /** Threads that have taken a task but not yet subtracted it from length. */
  ghost function Taken(pcs: map<Thread, Pc>): set<Thread> {
    set t | t in pcs && pcs[t].DeqCount?
  }

  // ----- preservation of the invariant

  lemma TailMoveKeeps(m: Memory, pc: Pc, tail: NodeId, succ: NodeId)
    requires MemoryInv(m) && PcInv(m, pc) && NextOf(m.rank, tail, succ)
    ensures MemoryInv(m.CasTail(tail, succ)) && PcInv(m.CasTail(tail, succ), pc)
    ensures Contents(m.CasTail(tail, succ)) == Contents(m)
  {}

  lemma HeadMoveKeepsPc(m: Memory, pc: Pc, succ: NodeId)
    requires MemoryInv(m) && PcInv(m, pc) && NextOf(m.rank, m.head, succ)
    ensures PcInv(m.(head := succ), pc)
  {}

  lemma HeadMoveTakes(m: Memory, succ: NodeId)
    requires MemoryInv(m) && NextOf(m.rank, m.head, succ) && Before(m.rank, succ, m.tail)
    ensures MemoryInv(m.(head := succ))
    ensures |Contents(m)| > 0 && m.Load(succ).value == Contents(m)[0]
    ensures Contents(m.(head := succ)) == Contents(m)[1..]
  {
    LogAt(m.heap, m.chain, m.rank[succ]);
  }

  lemma LinkKeepsList(heap: map<NodeId, Node>, chain: seq<NodeId>, rank: Rank, tail: NodeId, n: NodeId)
    requires ListInv(heap, chain, rank) && tail in rank && heap[tail].next.None?
    requires n in heap && n !in rank && heap[n].next.None?
    ensures ListInv(heap[tail := heap[tail].(next := Some(n))], chain + [n], rank[n := |chain|])
  {
    var rank' := rank[n := |chain|];
    var heap' := heap[tail := heap[tail].(next := Some(n))];
    forall k | k in rank'
      ensures if heap'[k].next.None? then rank'[k] == |chain| else NextOf(rank', k, heap'[k].next.value)
    {
      if k != n && k != tail {
        assert heap'[k] == heap[k];
        assert rank[k] != rank[tail] by { assert chain[rank[k]] == k; }
      }
    }
  }

  /** A successful link: tail was the last node, and the new node becomes it. */
  lemma LinkKeepsMemory(m: Memory, tail: NodeId, n: NodeId)
    requires MemoryInv(m) && Before(m.rank, tail, m.tail) && m.Load(tail).next.None? && PrivateNode(m, n)
    ensures MemoryInv(m.Link(tail, n)) && NextOf(m.Link(tail, n).rank, tail, n)
  {
    assert m.heap[tail].next.None?;
    LinkKeepsList(m.heap, m.chain, m.rank, tail, n);
  }

  lemma LinkExtendsLog(m: Memory, tail: NodeId, n: NodeId)
    requires MemoryInv(m) && tail in m.rank && PrivateNode(m, n)
    ensures var m' := m.Link(tail, n);
            Log(m'.heap, m'.chain) == Log(m.heap, m.chain) + [m.Load(n).value]
  {
    var m' := m.Link(tail, n);
    assert m'.chain[..|m.chain|] == m.chain;
    assert forall c :: c in m.chain ==> c in m.rank;
    LogDependsOnValues(m.heap, m'.heap, m.chain);
  }

  lemma LinkAppends(m: Memory, tail: NodeId, n: NodeId)
    requires MemoryInv(m) && tail in m.rank && PrivateNode(m, n)
    ensures var m' := m.Link(tail, n);
            && Log(m'.heap, m'.chain) == Log(m.heap, m.chain) + [m.Load(n).value]
            && TakenCount(m') == TakenCount(m) && Contents(m') == Contents(m) + [m.Load(n).value]
  {
    hide Log;
    LinkExtendsLog(m, tail, n);
  }

  /** Appending to the list keeps what a thread knows about the nodes it has read. */
  lemma GrowthKeepsLocals(m: Memory, m': Memory, pc: Pc)
    requires LocalsInv(m, pc) && m'.head == m.head && m'.tail == m.tail
    requires forall n :: n in m.rank ==> n in m'.rank && m'.rank[n] == m.rank[n] && m.Load(n).value == m'.Load(n).value
    ensures LocalsInv(m', pc)
  {}

  lemma LinkKeepsPc(m: Memory, pc: Pc, tail: NodeId, n: NodeId)
    requires tail in m.rank && tail in m.heap && PrivateNode(m, n) && PcInv(m, pc) && Pending(pc) != Some(n)
    ensures PcInv(m.Link(tail, n), pc)
  {
    GrowthKeepsLocals(m, m.Link(tail, n), pc);
  }

  /** The linking compare-and-swap succeeds. */
  predicate Links(m: Memory, pc: Pc) {
    pc.EnqLink? && m.Load(pc.tail).next.None?
  }

  /** The compare-and-swap on head succeeds. */
  predicate Takes(m: Memory, pc: Pc) {
    pc.DeqTake? && m.head == pc.head
  }

  /** The two linearization points change the queue as an atomic FIFO would; no other access does. */
  lemma AccessEffect(m: Memory, pc: Pc)
    requires MemoryInv(m) && PcInv(m, pc)
    ensures MemoryInv(Access(m, pc))
    ensures Links(m, pc) ==> Contents(Access(m, pc)) == Contents(m) + [m.Load(pc.n).value]
    ensures Takes(m, pc) ==>
              |Contents(m)| > 0 && pc.task == Contents(m)[0] && Contents(Access(m, pc)) == Contents(m)[1..]
    ensures !Links(m, pc) && !Takes(m, pc) ==> Contents(Access(m, pc)) == Contents(m)
  {
    hide Log;
    match pc {
      case EnqLink(n, tail) =>
        if Links(m, pc) {
          LinkKeepsMemory(m, tail, n);
          LinkAppends(m, tail, n);
        }
      case EnqHelp(n, tail, succ) => TailMoveKeeps(m, Idle, tail, succ);
      case EnqSwing(n, tail) => TailMoveKeeps(m, Idle, tail, n);
      case DeqHelp(tail, succ) => TailMoveKeeps(m, Idle, tail, succ);
      case DeqTake(head, succ, task) => if Takes(m, pc) { HeadMoveTakes(m, succ); }
      case _ =>
    }
  }

  lemma LoadNextOwn(m: Memory, n: NodeId)
    requires ListInv(m.heap, m.chain, m.rank) && n in m.rank
    ensures m.Load(n).next.Some? ==> NextOf(m.rank, n, m.Load(n).next.value)
    ensures m.Load(n).next.None? ==> m.rank[n] == |m.chain| - 1
  {
    assert m.heap[n] == m.Load(n);
  }

  lemma RankBound(m: Memory, n: NodeId)
    requires ListInv(m.heap, m.chain, m.rank) && n in m.rank
    ensures m.rank[n] < |m.chain|
  {}

  lemma ChainNotEmpty(m: Memory)
    requires ListInv(m.heap, m.chain, m.rank)
    ensures m.chain != []
  {}

  lemma SameRank(m: Memory, a: NodeId, b: NodeId)
    requires ListInv(m.heap, m.chain, m.rank) && a in m.rank && b in m.rank && m.rank[a] == m.rank[b]
    ensures a == b
  {}

  /** The facts a thread relies on hold again after its own access. */
  lemma AccessOwn(m: Memory, pc: Pc)
    requires MemoryInv(m) && PcInv(m, pc)
    ensures PcInv(Access(m, pc), Successor(m, pc))
  {
    hide ListInv;
    match pc {
      case EnqLink(n, tail) => if Links(m, pc) { LinkKeepsMemory(m, tail, n); }
      case EnqLoadNext(n, tail) => LoadNextOwn(m, tail);
      case DeqLoadNext(head, tail) =>
        LoadNextOwn(m, head);
        RankBound(m, tail);
        if m.Load(head).next.None? { SameRank(m, head, tail); }
      case DeqCheck(head, tail, next) => if m.rank[head] == m.rank[tail] { SameRank(m, head, tail); }
      case _ =>
    }
  }

  /** No access of one thread invalidates what another thread relies on. */
  lemma AccessOther(m: Memory, pc: Pc, other: Pc)
    requires MemoryInv(m) && PcInv(m, pc) && PcInv(m, other)
    requires Pending(pc).Some? ==> Pending(other) != Pending(pc)
    ensures PcInv(Access(m, pc), other)
  {
    match pc {
      case EnqLink(n, tail) => if Links(m, pc) { LinkKeepsPc(m, other, tail, n); }
      case EnqHelp(n, tail, succ) => TailMoveKeeps(m, other, tail, succ);
      case EnqSwing(n, tail) => TailMoveKeeps(m, other, tail, n);
      case DeqHelp(tail, succ) => TailMoveKeeps(m, other, tail, succ);
      case DeqTake(head, succ, task) => if Takes(m, pc) { HeadMoveKeepsPc(m, other, succ); }
      case _ =>
    }
  }

  lemma AccessKeepsThreads(m: Memory, pcs: map<Thread, Pc>, t: Thread)
    requires MemoryInv(m) && ThreadsInv(m, pcs) && t in pcs
    ensures ThreadsInv(Access(m, pcs[t]), pcs[t := Successor(m, pcs[t])])
  {
    var pc := pcs[t];
    var pcs' := pcs[t := Successor(m, pc)];
    forall u | u in pcs' ensures PcInv(Access(m, pc), pcs'[u]) {
      if u == t { AccessOwn(m, pc); } else { AccessOther(m, pc, pcs[u]); }
    }
    assert Pending(Successor(m, pc)).None? || Pending(Successor(m, pc)) == Pending(pc);
  }

  // ----- the length counter

  function Count(b: bool): int { if b then 1 else 0 }

  lemma CardinalityMoves(s: set<Thread>, s': set<Thread>, t: Thread)
    requires s' - {t} == s - {t}
    ensures |s'| == |s| - Count(t in s) + Count(t in s')
  {
    assert t in s ==> s == (s - {t}) + {t};
    assert t in s' ==> s' == (s' - {t}) + {t};
    assert t !in s ==> s == s - {t};
    assert t !in s' ==> s' == s' - {t};
  }

  lemma CountMoves(pcs: map<Thread, Pc>, t: Thread, pc: Pc)
    ensures var was := if t in pcs then pcs[t] else Idle;
            && |Uncounted(pcs[t := pc])| == |Uncounted(pcs)| - Count(LinkedUncounted(was)) + Count(LinkedUncounted(pc))
            && |Taken(pcs[t := pc])| == |Taken(pcs)| - Count(was.DeqCount?) + Count(pc.DeqCount?)
  {
    CardinalityMoves(Uncounted(pcs), Uncounted(pcs[t := pc]), t);
    CardinalityMoves(Taken(pcs), Taken(pcs[t := pc]), t);
  }

  lemma AdvanceKeepsInv(s: State, t: Thread)
    requires Inv(s)
    ensures Inv(Apply(s, Advance(t)))
  {
    hide ListInv, Log;
    var pc := s.At(t);
    CountMoves(s.pcs, t, Successor(s.m, pc));
    AccessEffect(s.m, pc);
    if t in s.pcs { AccessKeepsThreads(s.m, s.pcs, t); }
  }

  lemma AllocationKeeps(m: Memory, node: NodeId, task: Task, pc: Pc)
    requires MemoryInv(m) && PcInv(m, pc) && node !in m.heap
    ensures var m' := m.(heap := m.heap[node := Node(task, None)]);
            MemoryInv(m') && PcInv(m', pc) && Contents(m') == Contents(m) && PcInv(m', EnqLoadTail(node))
  {
    var m' := m.(heap := m.heap[node := Node(task, None)]);
    assert forall n :: n in m.chain ==> n in m.rank;
    LogDependsOnValues(m.heap, m'.heap, m.chain);
    GrowthKeepsLocals(m, m', pc);
  }

  lemma CallEnqueueKeepsInv(s: State, t: Thread, task: Task, node: NodeId)
    requires Inv(s) && s.At(t).Idle? && node !in s.m.heap
    ensures Inv(Apply(s, CallEnqueue(t, task, node)))
  {
    var s' := Apply(s, CallEnqueue(t, task, node));
    AllocationKeeps(s.m, node, task, Idle);
    forall u | u in s'.pcs ensures PcInv(s'.m, s'.pcs[u]) {
      if u != t { AllocationKeeps(s.m, node, task, s.pcs[u]); }
    }
    assert forall u :: u in s.pcs && Pending(s.pcs[u]).Some? ==> Pending(s.pcs[u]).value in s.m.heap;
    CountMoves(s.pcs, t, EnqLoadTail(node));
  }

  /** A call of Dequeue and a return touch nothing but the program counter. */
  lemma GotoKeepsInv(s: State, t: Thread, pc: Pc)
    requires Inv(s) && (pc.DeqLoadHead? || pc.Idle?)
    requires s.At(t).Idle? || s.At(t).EnqReturn? || s.At(t).DeqReturn?
    ensures Inv(s.Goto(t, pc))
  {
    hide MemoryInv, Contents;
    CountMoves(s.pcs, t, pc);
  }

  lemma ApplyKeepsInv(s: State, a: Action)
    requires Inv(s)
    ensures Inv(Apply(s, a))
  {
    hide Inv;
    match a {
      case CallEnqueue(t, task, node) =>
        if s.At(t).Idle? && node !in s.m.heap { CallEnqueueKeepsInv(s, t, task, node); }
      case CallDequeue(t) => if s.At(t).Idle? { GotoKeepsInv(s, t, DeqLoadHead); }
      case Advance(t) => AdvanceKeepsInv(s, t);
      case Return(t) => if s.At(t).EnqReturn? || s.At(t).DeqReturn? { GotoKeepsInv(s, t, Idle); }
    }
  }

  lemma {:induction false} RunKeepsInv(actions: seq<Action>)
    ensures Inv(Run(Init(), actions))
  {
    if actions != [] {
      RunKeepsInv(actions[..|actions| - 1]);
      ApplyKeepsInv(Run(Init(), actions[..|actions| - 1]), actions[|actions| - 1]);
    }
  }

  // ----- linearizability: every run is a run of an atomic FIFO queue

  /** Progress of one operation on the atomic queue. A dequeue remembers having seen the queue empty. */
  datatype FifoOp =
    | NoOp
    | Enqueueing(task: Task)
    | Enqueued
    | Dequeueing(sawEmpty: bool)
    | Dequeued(result: Option<Task>)

  /** The atomic queue: everything ever enqueued, of which the first `taken` tasks have been dequeued. */
  datatype Fifo = Fifo(log: seq<Task>, taken: nat, ops: map<Thread, FifoOp>) {
    function At(t: Thread): FifoOp {
      if t in ops then ops[t] else NoOp
    }

    function Goto(t: Thread, op: FifoOp): Fifo {
      this.(ops := ops[t := op])
    }
  }

  datatype Event =
    | InvokeEnqueue(t: Thread, task: Task)
    | InvokeDequeue(t: Thread)
    | Respond(t: Thread, op: FifoOp)
    | Internal(t: Thread)

  /** An operation takes effect at one internal step, between its invocation and its response. */
  ghost predicate FifoStep(a: Fifo, e: Event, a': Fifo) {
    match e
    case InvokeEnqueue(t, task) => a.At(t).NoOp? && a' == a.Goto(t, Enqueueing(task))
    case InvokeDequeue(t) => a.At(t).NoOp? && a' == a.Goto(t, Dequeueing(false))
    case Respond(t, op) => a.At(t) == op && (op.Enqueued? || op.Dequeued?) && a' == a.Goto(t, NoOp)
    case Internal(t) =>
      || a' == a
      || exists op :: Effect(a, a.At(t), op, a'.log, a'.taken) && a'.ops == a.ops[t := op]
  }

  /** What the internal step that moves one operation from `was` to `op` does to the queue. */
  ghost predicate Effect(a: Fifo, was: FifoOp, op: FifoOp, log: seq<Task>, taken: nat) {
    if was.Enqueueing? && op.Enqueued? then log == a.log + [was.task] && taken == a.taken
    else if was.Dequeueing? && op.Dequeued? && op.result.Some? then
      a.taken < |a.log| && op.result.value == a.log[a.taken] && log == a.log && taken == a.taken + 1
    else
      && log == a.log && taken == a.taken
      && (|| op == was
          || (was.Dequeueing? && op == Dequeueing(true) && a.taken == |a.log|)
          || (was.Dequeueing? && op == Dequeueing(false))
          || (was == Dequeueing(true) && op == Dequeued(None)))
  }

  ghost function AbsOp(m: Memory, pc: Pc): FifoOp {
    if Pending(pc).Some? then Enqueueing(m.Load(Pending(pc).value).value)
    else match pc
         case EnqSwing(_, _) => Enqueued
         case EnqCount => Enqueued
         case EnqReturn => Enqueued
         case DeqCheck(_, _, next) => Dequeueing(next.None?)
         case DeqCount(task) => Dequeued(Some(task))
         case DeqReturn(result) => Dequeued(result)
         case Idle => NoOp
         case _ => Dequeueing(false)
  }

  ghost function Abs(s: State): Fifo {
    Fifo(Log(s.m.heap, s.m.chain), TakenCount(s.m), map t | t in s.pcs :: AbsOp(s.m, s.pcs[t]))
  }

  ghost function EventOf(s: State, a: Action): Event {
    match a
    case CallEnqueue(t, task, node) =>
      if s.At(t).Idle? && node !in s.m.heap then InvokeEnqueue(t, task) else Internal(t)
    case CallDequeue(t) => if s.At(t).Idle? then InvokeDequeue(t) else Internal(t)
    case Advance(t) => Internal(t)
    case Return(t) =>
      if s.At(t).EnqReturn? || s.At(t).DeqReturn? then Respond(t, AbsOp(s.m, s.At(t))) else Internal(t)
  }

  /** An access keeps the task of every node that is allocated. */
  lemma AccessKeepsValues(m: Memory, pc: Pc, n: NodeId)
    requires n in m.heap
    ensures n in Access(m, pc).heap && Access(m, pc).heap[n].value == m.heap[n].value
  {}

  lemma AbsOfMove(s: State, t: Thread, m': Memory, length: int, pc: Pc)
    requires forall u :: u in s.pcs && u != t ==> AbsOp(m', s.pcs[u]) == AbsOp(s.m, s.pcs[u])
    ensures Abs(State(m', length, s.pcs[t := pc])).ops == Abs(s).ops[t := AbsOp(m', pc)]
  {}

  lemma AccessLog(m: Memory, pc: Pc)
    requires MemoryInv(m) && PcInv(m, pc)
    ensures var m' := Access(m, pc);
            && Log(m'.heap, m'.chain) == Log(m.heap, m.chain) + (if Links(m, pc) then [m.Load(pc.n).value] else [])
            && TakenCount(m') == TakenCount(m) + (if Takes(m, pc) then 1 else 0)
  {
    hide Log, ListInv;
    if Links(m, pc) { LinkAppends(m, pc.tail, pc.n); }
  }

  lemma TakesOldest(m: Memory, pc: Pc)
    requires MemoryInv(m) && PcInv(m, pc) && Takes(m, pc)
    ensures TakenCount(m) < |Log(m.heap, m.chain)| && pc.task == Log(m.heap, m.chain)[TakenCount(m)]
  {
    LogAt(m.heap, m.chain, m.rank[pc.succ]);
  }

  /** A nil next means that the loaded head is the last node, so the queue is empty at that load. */
  lemma NilNextSeesEmpty(m: Memory, pc: Pc)
    requires MemoryInv(m) && PcInv(m, pc) && pc.DeqLoadNext? && m.Load(pc.head).next.None?
    ensures TakenCount(m) == |Log(m.heap, m.chain)|
  {
    LoadNextOwn(m, pc.head);
  }

  lemma OperationProgress(m: Memory, pc: Pc)
    requires PcInv(m, pc) && !Links(m, pc) && !Takes(m, pc)
    ensures var was, op := AbsOp(m, pc), AbsOp(Access(m, pc), Successor(m, pc));
            || op == was
            || (was.Dequeueing? && op == Dequeueing(true) && pc.DeqLoadNext? && m.Load(pc.head).next.None?)
            || (was.Dequeueing? && op == Dequeueing(false))
            || (was == Dequeueing(true) && op == Dequeued(None))
  {
    if Pending(pc).Some? { AccessKeepsValues(m, pc, Pending(pc).value); }
  }

  /** The thread's own operation advances as the atomic queue prescribes. */
  lemma AccessHasEffect(s: State, pc: Pc)
    requires MemoryInv(s.m) && PcInv(s.m, pc)
    ensures var m' := Access(s.m, pc);
            Effect(Abs(s), AbsOp(s.m, pc), AbsOp(m', Successor(s.m, pc)), Log(m'.heap, m'.chain), TakenCount(m'))
  {
    hide ListInv, Log, Access, MemoryInv;
    AccessLog(s.m, pc);
    if Takes(s.m, pc) {
      TakesOldest(s.m, pc);
    } else if !Links(s.m, pc) {
      OperationProgress(s.m, pc);
      if pc.DeqLoadNext? && s.m.Load(pc.head).next.None? { NilNextSeesEmpty(s.m, pc); }
    }
  }

  /** One access of a thread inside an operation is a step of the atomic queue. */
  lemma AdvanceRefines(s: State, t: Thread)
    requires Inv(s) && t in s.pcs
    ensures FifoStep(Abs(s), Internal(t), Abs(Apply(s, Advance(t))))
  {
    var pc := s.pcs[t];
    var s' := Apply(s, Advance(t));
    forall u | u in s.pcs && u != t ensures AbsOp(s'.m, s.pcs[u]) == AbsOp(s.m, s.pcs[u]) {
      assert PcInv(s.m, s.pcs[u]);
      if Pending(s.pcs[u]).Some? { AccessKeepsValues(s.m, pc, Pending(s.pcs[u]).value); }
    }
    AbsOfMove(s, t, s'.m, s'.length, Successor(s.m, pc));
    AccessHasEffect(s, pc);
    assert Abs(s).At(t) == AbsOp(s.m, pc);
  }

  lemma CallEnqueueRefines(s: State, t: Thread, task: Task, node: NodeId)
    requires Inv(s) && s.At(t).Idle? && node !in s.m.heap
    ensures FifoStep(Abs(s), InvokeEnqueue(t, task), Abs(Apply(s, CallEnqueue(t, task, node))))
  {
    var m' := s.m.(heap := s.m.heap[node := Node(task, None)]);
    assert forall n :: n in s.m.chain ==> n in s.m.rank;
    LogDependsOnValues(s.m.heap, m'.heap, s.m.chain);
    AbsOfMove(s, t, m', s.length, EnqLoadTail(node));
  }

  lemma CallDequeueRefines(s: State, t: Thread)
    requires s.At(t).Idle?
    ensures FifoStep(Abs(s), InvokeDequeue(t), Abs(Apply(s, CallDequeue(t))))
  {
    AbsOfMove(s, t, s.m, s.length, DeqLoadHead);
  }

  lemma ReturnRefines(s: State, t: Thread)
    requires s.At(t).EnqReturn? || s.At(t).DeqReturn?
    ensures FifoStep(Abs(s), Respond(t, AbsOp(s.m, s.At(t))), Abs(Apply(s, Return(t))))
  {
    AbsOfMove(s, t, s.m, s.length, Idle);
  }

  lemma ApplyRefines(s: State, a: Action)
    requires Inv(s)
    ensures FifoStep(Abs(s), EventOf(s, a), Abs(Apply(s, a)))
  {
    match a {
      case CallEnqueue(t, task, node) =>
        if s.At(t).Idle? && node !in s.m.heap { CallEnqueueRefines(s, t, task, node); }
      case CallDequeue(t) => if s.At(t).Idle? { CallDequeueRefines(s, t); }
      case Advance(t) => if t in s.pcs { AdvanceRefines(s, t); }
      case Return(t) => if s.At(t).EnqReturn? || s.At(t).DeqReturn? { ReturnRefines(s, t); }
    }
  }

  /** The states of the atomic queue along a run, and what the run's callers see. */
  ghost function Trace(actions: seq<Action>): seq<Fifo> {
    seq(|actions| + 1, i requires 0 <= i <= |actions| => Abs(Run(Init(), actions[..i])))
  }

  ghost function Events(actions: seq<Action>): seq<Event> {
    seq(|actions|, i requires 0 <= i < |actions| => EventOf(Run(Init(), actions[..i]), actions[i]))
  }

  ghost predicate FifoRun(trace: seq<Fifo>, events: seq<Event>) {
    && |trace| == |events| + 1
    && trace[0] == Fifo([], 0, map[])
    && forall i :: 0 <= i < |events| ==> FifoStep(trace[i], events[i], trace[i + 1])
  }

  /** Linearizability: under every schedule the invocations and responses are those of an atomic FIFO queue. */
  lemma Linearizable(actions: seq<Action>)
    ensures FifoRun(Trace(actions), Events(actions))
  {
    forall i | 0 <= i < |actions|
      ensures FifoStep(Trace(actions)[i], Events(actions)[i], Trace(actions)[i + 1])
    {
      assert actions[..i + 1][..i] == actions[..i];
      RunKeepsInv(actions[..i]);
      ApplyRefines(Run(Init(), actions[..i]), actions[i]);
    }
    assert actions[..0] == [];
    assert Abs(Init()).ops == map[];
  }

  // ----- what a user of the queue may rely on

  ghost predicate Reachable(s: State) {
    exists actions :: s == Run(Init(), actions)
  }

  lemma ReachableKeepsInv(s: State)
    requires Reachable(s)
    ensures Inv(s)
  {
    var actions :| s == Run(Init(), actions);
    RunKeepsInv(actions);
  }

  lemma ApplyReaches(s: State, a: Action)
    requires Reachable(s)
    ensures Reachable(Apply(s, a))
  {
    var actions :| s == Run(Init(), actions);
    assert (actions + [a])[..|actions|] == actions;
    assert Apply(s, a) == Run(Init(), actions + [a]);
  }

  /** The effect of one access of a running operation on everything linked and on the number taken. */
  lemma AdvanceReaches(s: State, t: Thread)
    requires Reachable(s) && t in s.pcs
    ensures var pc, m' := s.pcs[t], Apply(s, Advance(t)).m;
            && Reachable(Apply(s, Advance(t)))
            && TakenCount(s.m) <= |Log(s.m.heap, s.m.chain)|
            && Log(m'.heap, m'.chain)
               == Log(s.m.heap, s.m.chain) + (if Links(s.m, pc) then [s.m.Load(pc.n).value] else [])
            && TakenCount(m') == TakenCount(s.m) + (if Takes(s.m, pc) then 1 else 0)
            && (Takes(s.m, pc) ==> TakenCount(s.m) < |Log(s.m.heap, s.m.chain)|
                                   && pc.task == Log(s.m.heap, s.m.chain)[TakenCount(s.m)])
            && !Successor(s.m, pc).Crashed?
  {
    hide Reachable, MemoryInv, PcInv, Log, TakenCount, Access, Successor, Links, Takes;
    ApplyReaches(s, Advance(t));
    ReachableThread(s, t);
    AccessFacts(s.m, s.pcs[t]);
  }

  lemma ReachableThread(s: State, t: Thread)
    requires Reachable(s) && t in s.pcs
    ensures MemoryInv(s.m) && PcInv(s.m, s.pcs[t])
  {
    hide Reachable, MemoryInv, PcInv, LengthInv;
    ReachableKeepsInv(s);
  }

  lemma AccessFacts(m: Memory, pc: Pc)
    requires MemoryInv(m) && PcInv(m, pc)
    ensures var m' := Access(m, pc);
            && TakenCount(m) <= |Log(m.heap, m.chain)|
            && Log(m'.heap, m'.chain) == Log(m.heap, m.chain) + (if Links(m, pc) then [m.Load(pc.n).value] else [])
            && TakenCount(m') == TakenCount(m) + (if Takes(m, pc) then 1 else 0)
            && (Takes(m, pc) ==>
                  TakenCount(m) < |Log(m.heap, m.chain)| && pc.task == Log(m.heap, m.chain)[TakenCount(m)])
            && !Successor(m, pc).Crashed?
  {
    hide ListInv, Log, Access, Successor, Links, Takes;
    RankBound(m, m.head);
    ChainNotEmpty(m);
    AccessLog(m, pc);
    NotCrashed(m, pc);
    if Takes(m, pc) { TakesOldest(m, pc); }
  }

  lemma NotCrashed(m: Memory, pc: Pc)
    requires MemoryInv(m) && PcInv(m, pc)
    ensures !Successor(m, pc).Crashed?
  {
    hide ListInv, Access, Successor;
    AccessOwn(m, pc);
  }

  lemma CallEnqueueReaches(s: State, t: Thread, task: Task, node: NodeId)
    requires Reachable(s) && s.At(t).Idle? && node !in s.m.heap
    ensures var m' := Apply(s, CallEnqueue(t, task, node)).m;
            && Reachable(Apply(s, CallEnqueue(t, task, node)))
            && Log(m'.heap, m'.chain) == Log(s.m.heap, s.m.chain) && TakenCount(m') == TakenCount(s.m)
  {
    ApplyReaches(s, CallEnqueue(t, task, node));
    ReachableKeepsInv(s);
    assert forall n :: n in s.m.chain ==> n in s.m.rank;
    LogDependsOnValues(s.m.heap, s.m.heap[node := Node(task, None)], s.m.chain);
  }

  /** The length counter is off by exactly the operations that have not adjusted it yet. */
  lemma LengthCounts(s: State)
    requires Reachable(s)
    ensures s.length == |Contents(s.m)| - |Uncounted(s.pcs)| + |Taken(s.pcs)|
  {
    ReachableKeepsInv(s);
  }
}
