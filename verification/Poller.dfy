/** The wake-up protocol of core/internal/netpoll/epoll_default_poller.go, on top of two lock-free queues.

    Any number of triggering threads and the one polling thread interleave at every atomic access.
    A Trigger that a task or an event callback makes on the polling thread is one more triggering
    thread here, which allows more interleavings than the program has. The kernel is an eventfd counter:
    a write adds one, or returns EAGAIN when the counter is at its maximum, and a read resets it. */
module Poller {
  import opened LockFreeQueue
  import Q = LockFreeQueue

  const POLLER: Thread := 0
  const MAX_ASYNC_TASKS_AT_ONE_TIME := 256
  const EVENTFD_MAX: nat := 0xffff_ffff_ffff_fffe

  datatype Queue = Async | Urgent

  /** Where a triggering thread stands: inside Enqueue, before the compare-and-swap, before the write. */
  datatype TriggerPc = InEnqueue(q: Queue) | AtCas | AtWrite

  datatype PollerPc =
    | Waiting
    | Reading
    | CallUrgent
    | InUrgent
    | CallAsync(done: nat)
    | InAsync(done: nat)
    | Storing
    | CheckAsync
    | CheckUrgent
    | PollerCas
    | PollerWrite
    | Stopped

  datatype World = World(
    async: Q.State,
    urgent: Q.State,
    wakeupCall: bool,
    efd: nat,
    triggers: map<Thread, TriggerPc>,
    pc: PollerPc,
    ranAsync: seq<Task>,
    ranUrgent: seq<Task>)
  {
    function Get(q: Queue): Q.State {
      if q.Async? then async else urgent
    }

    function Ran(q: Queue): seq<Task> {
      if q.Async? then ranAsync else ranUrgent
    }

    function Set(q: Queue, s: Q.State): World {
      if q.Async? then this.(async := s) else this.(urgent := s)
    }

    /** Adds to the eventfd counter, or leaves it at its maximum (EAGAIN). */
    function WriteEventfd(): World {
      this.(efd := if efd < EVENTFD_MAX then efd + 1 else efd)
    }
  }

  datatype Action =
    | StartTrigger(t: Thread, q: Queue, task: Task, node: NodeId)
    | AdvanceTrigger(t: Thread)
    | Wait(signalled: bool)
    | AdvancePoller(shutdown: bool)

  function Init(): World {
    World(Q.Init(), Q.Init(), false, 0, map[], Waiting, [], [])
  }

  function Apply(w: World, a: Action): World {
    match a
    case StartTrigger(t, q, task, node) =>
      if t != POLLER && t !in w.triggers && node !in w.Get(q).m.heap then
        w.Set(q, Q.Apply(w.Get(q), CallEnqueue(t, task, node))).(triggers := w.triggers[t := InEnqueue(q)])
      else w
    case AdvanceTrigger(t) => if t in w.triggers then Trigger(w, t) else w
    case Wait(signalled) =>
      // epoll_wait reports the eventfd only while its counter is positive
      if w.pc.Waiting? && signalled && w.efd > 0 then w.(pc := Reading) else w
    case AdvancePoller(shutdown) => Poll(w, shutdown)
  }

  /** Trigger and UrgentTrigger, one atomic access at a time. */
  function Trigger(w: World, t: Thread): World
    requires t in w.triggers
  {
    match w.triggers[t]
    case InEnqueue(q) =>
      if w.Get(q).At(t).EnqReturn? then
        w.Set(q, Q.Apply(w.Get(q), Return(t))).(triggers := w.triggers[t := AtCas])
      else w.Set(q, Q.Apply(w.Get(q), Advance(t)))
    case AtCas =>
      if w.wakeupCall then w.(triggers := w.triggers - {t})
      else w.(wakeupCall := true, triggers := w.triggers[t := AtWrite])
    case AtWrite => w.WriteEventfd().(triggers := w.triggers - {t})
  }

  /** The chores part of Polling, one atomic access at a time. */
  function Poll(w: World, shutdown: bool): World {
    match w.pc
    case Reading => w.(efd := 0, pc := CallUrgent)
    case CallUrgent => w.(urgent := Q.Apply(w.urgent, CallDequeue(POLLER)), pc := InUrgent)
    case InUrgent =>
      (match w.urgent.At(POLLER)
       case DeqReturn(result) =>
         var w' := w.(urgent := Q.Apply(w.urgent, Return(POLLER)));
         if result.None? then w'.(pc := CallAsync(0))
         else w'.(ranUrgent := w.ranUrgent + [result.value], pc := if shutdown then Stopped else CallUrgent)
       case _ => w.(urgent := Q.Apply(w.urgent, Advance(POLLER))))
    case CallAsync(done) =>
      if done < MAX_ASYNC_TASKS_AT_ONE_TIME then
        w.(async := Q.Apply(w.async, CallDequeue(POLLER)), pc := InAsync(done))
      else w.(pc := Storing)
    case InAsync(done) =>
      (match w.async.At(POLLER)
       case DeqReturn(result) =>
         var w' := w.(async := Q.Apply(w.async, Return(POLLER)));
         if result.None? then w'.(pc := Storing)
         else w'.(ranAsync := w.ranAsync + [result.value], pc := if shutdown then Stopped else CallAsync(done + 1))
       case _ => w.(async := Q.Apply(w.async, Advance(POLLER))))
    case Storing => w.(wakeupCall := false, pc := CheckAsync)
    case CheckAsync => w.(pc := if w.async.length != 0 then PollerCas else CheckUrgent)
    case CheckUrgent => w.(pc := if w.urgent.length != 0 then PollerCas else Waiting)
    case PollerCas => if w.wakeupCall then w.(pc := Waiting) else w.(wakeupCall := true, pc := PollerWrite)
    case PollerWrite => w.WriteEventfd().(pc := Waiting)
    case _ => w
  }

  function Run(w: World, actions: seq<Action>): World {
    if actions == [] then w else Apply(Run(w, actions[..|actions| - 1]), actions[|actions| - 1])
  }

  // ----- the invariant

  predicate EnqPc(pc: Pc) {
    pc.EnqLoadTail? || pc.EnqLoadNext? || pc.EnqCheck? || pc.EnqLink? || pc.EnqHelp?
    || pc.EnqSwing? || pc.EnqCount? || pc.EnqReturn?
  }

  predicate DeqPc(pc: Pc) {
    pc.DeqLoadHead? || pc.DeqLoadTail? || pc.DeqLoadNext? || pc.DeqCheck? || pc.DeqHelp?
    || pc.DeqTake? || pc.DeqCount? || pc.DeqReturn?
  }

  predicate Inside(pc: PollerPc, q: Queue) {
    if q.Async? then pc.InAsync? else pc.InUrgent?
  }

  /** Only the poller dequeues, and a trigger is inside the queue it chose. */
  ghost predicate RolesInv(s: Q.State, q: Queue, triggers: map<Thread, TriggerPc>, inside: bool) {
    && POLLER !in triggers
    && (if inside then DeqPc(s.At(POLLER)) else s.At(POLLER).Idle?)
    && (forall t {:trigger s.At(t)} :: t != POLLER ==> Role(s.At(t), q, triggers, t))
  }

  ghost predicate Role(pc: Pc, q: Queue, triggers: map<Thread, TriggerPc>, t: Thread) {
    if t in triggers && triggers[t] == InEnqueue(q) then EnqPc(pc) else pc.Idle?
  }

  /** The task the poller has taken but not yet run. */
  function Held(pc: Pc): seq<Task> {
    match pc
    case DeqCount(task) => [task]
    case DeqReturn(Some(task)) => [task]
    case _ => []
  }

  /** Every task taken from the queue has been run once, in the order of linking. */
  ghost predicate RanInv(s: Q.State, ran: seq<Task>) {
    TakenCount(s.m) <= |Log(s.m.heap, s.m.chain)|
    && Log(s.m.heap, s.m.chain)[..TakenCount(s.m)] == ran + Held(s.At(POLLER))
  }

  ghost predicate QueueInv(s: Q.State, q: Queue, triggers: map<Thread, TriggerPc>, inside: bool, ran: seq<Task>) {
    Q.Reachable(s) && RolesInv(s, q, triggers, inside) && RanInv(s, ran)
  }

  ghost function Writers(triggers: map<Thread, TriggerPc>): set<Thread> {
    set t | t in triggers && triggers[t].AtWrite?
  }

  /** The poller holds the wake-up token from reading the eventfd until it clears the flag. */
  predicate Holds(pc: PollerPc) {
    pc.CallUrgent? || pc.InUrgent? || pc.CallAsync? || pc.InAsync? || pc.Storing? || pc.PollerWrite?
  }

  /** wakeupCall is set exactly when there is one wake-up token, and there is never a second one. */
  ghost predicate TokenInv(w: World) {
    && |Writers(w.triggers)| + w.efd + Count(Holds(w.pc)) <= Count(w.wakeupCall)
    && (!w.pc.Stopped? ==> |Writers(w.triggers)| + w.efd + Count(Holds(w.pc)) == Count(w.wakeupCall))
    && (w.pc.Reading? ==> w.efd > 0)
  }

  predicate Linked(pc: Pc) { pc.EnqSwing? || pc.EnqCount? || pc.EnqReturn? }

  /** Thread t has linked its task and not yet finished its compare-and-swap and write. */
  ghost predicate InFlight(w: World, t: Thread) {
    t in w.triggers && (w.triggers[t].InEnqueue? ==> Linked(w.Get(w.triggers[t].q).At(t)))
  }

  /** A queued task has its wake-up, or will get one. */
  ghost predicate Covered(w: World, q: Queue) {
    Contents(w.Get(q).m) == [] || w.wakeupCall || exists t :: InFlight(w, t)
  }

  ghost predicate CoverInv(w: World) {
    && (w.pc.CheckUrgent? ==> Covered(w, Async))
    && (w.pc.Waiting? || w.pc.Reading? ==> Covered(w, Async) && Covered(w, Urgent))
  }

  ghost predicate QueuesInv(w: World) {
    QueueOk(w, Async) && QueueOk(w, Urgent)
  }

  ghost predicate QueueOk(w: World, q: Queue) {
    QueueInv(w.Get(q), q, w.triggers, Inside(w.pc, q), w.Ran(q))
  }

  ghost predicate Inv(w: World) {
    QueuesInv(w) && TokenInv(w) && CoverInv(w)
  }

  // ----- steps of the queues, seen from the poller

  /** One thread moves; all others keep their roles. */
  lemma RolesMove(s: Q.State, s': Q.State, q: Queue, triggers: map<Thread, TriggerPc>,
                  triggers': map<Thread, TriggerPc>, inside: bool, inside': bool, t: Thread)
    requires RolesInv(s, q, triggers, inside) && POLLER !in triggers'
    requires s'.pcs == s.pcs[t := s'.At(t)]
    requires if t == POLLER then triggers' == triggers && (if inside' then DeqPc(s'.At(t)) else s'.At(t).Idle?)
             else inside' == inside && Role(s'.At(t), q, triggers', t) && triggers' - {t} == triggers - {t}
    ensures RolesInv(s', q, triggers', inside')
  {
    forall u | u != POLLER ensures Role(s'.At(u), q, triggers', u) {
      if u != t {
        assert Role(s.At(u), q, triggers, u);
        assert u in triggers - {t} <==> u in triggers' - {t};
        assert u in triggers ==> (triggers - {t})[u] == (triggers' - {t})[u];
      }
    }
    assert t != POLLER ==> s'.At(POLLER) == s.At(POLLER);
  }

  /** A trigger's step inside Enqueue: the queue grows only by linking, which puts the trigger in flight. */
  lemma EnqueueStep(s: Q.State, q: Queue, triggers: map<Thread, TriggerPc>, inside: bool, ran: seq<Task>, t: Thread)
    requires QueueInv(s, q, triggers, inside, ran) && t in triggers && triggers[t] == InEnqueue(q)
    ensures var s' := Q.Apply(s, Advance(t));
            && QueueInv(s', q, triggers, inside, ran)
            && (Linked(s.At(t)) ==> Linked(s'.At(t)))
            && (Contents(s'.m) == Contents(s.m) || Linked(s'.At(t)))
  {
    assert EnqPc(s.At(t));
    Q.AdvanceReaches(s, t);
    assert EnqPc(Successor(s.m, s.At(t)));
    RolesMove(s, Q.Apply(s, Advance(t)), q, triggers, triggers, inside, inside, t);
  }

  lemma EnqueueReturns(s: Q.State, q: Queue, triggers: map<Thread, TriggerPc>, inside: bool, ran: seq<Task>, t: Thread)
    requires QueueInv(s, q, triggers, inside, ran)
    requires t in triggers && triggers[t] == InEnqueue(q) && s.At(t).EnqReturn?
    ensures QueueInv(Q.Apply(s, Return(t)), q, triggers[t := AtCas], inside, ran)
  {
    Q.ApplyReaches(s, Return(t));
    RolesMove(s, Q.Apply(s, Return(t)), q, triggers, triggers[t := AtCas], inside, inside, t);
  }

  lemma EnqueueStarts(s: Q.State, q: Queue, triggers: map<Thread, TriggerPc>, inside: bool, ran: seq<Task>,
                      t: Thread, task: Task, node: NodeId)
    requires QueueInv(s, q, triggers, inside, ran) && t != POLLER && t !in triggers && node !in s.m.heap
    ensures var s' := Q.Apply(s, CallEnqueue(t, task, node));
            QueueInv(s', q, triggers[t := InEnqueue(q)], inside, ran) && Contents(s'.m) == Contents(s.m)
  {
    assert s.At(t).Idle?;
    Q.CallEnqueueReaches(s, t, task, node);
    RolesMove(s, Q.Apply(s, CallEnqueue(t, task, node)), q, triggers, triggers[t := InEnqueue(q)], inside, inside, t);
  }

  lemma DequeueStarts(s: Q.State, q: Queue, triggers: map<Thread, TriggerPc>, ran: seq<Task>)
    requires QueueInv(s, q, triggers, false, ran)
    ensures QueueInv(Q.Apply(s, CallDequeue(POLLER)), q, triggers, true, ran)
  {
    Q.ApplyReaches(s, CallDequeue(POLLER));
    RolesMove(s, Q.Apply(s, CallDequeue(POLLER)), q, triggers, triggers, false, true, POLLER);
  }

  lemma DequeueStepRuns(s: Q.State, ran: seq<Task>)
    requires Q.Reachable(s) && RanInv(s, ran) && DeqPc(s.At(POLLER)) && !s.At(POLLER).DeqReturn?
    ensures RanInv(Q.Apply(s, Advance(POLLER)), ran) && Q.Reachable(Q.Apply(s, Advance(POLLER)))
    ensures DeqPc(Successor(s.m, s.At(POLLER)))
  {
    hide Log, Q.Reachable;
    Q.AdvanceReaches(s, POLLER);
    var taken, log := TakenCount(s.m), Log(s.m.heap, s.m.chain);
    if Takes(s.m, s.At(POLLER)) {
      assert log[..taken + 1] == log[..taken] + [log[taken]];
    }
  }

  lemma DequeueStep(s: Q.State, q: Queue, triggers: map<Thread, TriggerPc>, ran: seq<Task>)
    requires QueueInv(s, q, triggers, true, ran) && !s.At(POLLER).DeqReturn?
    ensures QueueInv(Q.Apply(s, Advance(POLLER)), q, triggers, true, ran)
  {
    DequeueStepRuns(s, ran);
    RolesMove(s, Q.Apply(s, Advance(POLLER)), q, triggers, triggers, true, true, POLLER);
  }

  lemma DequeueReturns(s: Q.State, q: Queue, triggers: map<Thread, TriggerPc>, ran: seq<Task>)
    requires QueueInv(s, q, triggers, true, ran) && s.At(POLLER).DeqReturn?
    ensures QueueInv(Q.Apply(s, Return(POLLER)), q, triggers, false, ran + Held(s.At(POLLER)))
  {
    Q.ApplyReaches(s, Return(POLLER));
    RolesMove(s, Q.Apply(s, Return(POLLER)), q, triggers, triggers, true, false, POLLER);
  }

  // ----- steps of the whole system

  /** Removing a trigger that has left the queues, or moving it between its last two steps. */
  lemma OutsideMove(s: Q.State, q: Queue, triggers: map<Thread, TriggerPc>, triggers': map<Thread, TriggerPc>,
                    inside: bool, ran: seq<Task>, t: Thread)
    requires QueueInv(s, q, triggers, inside, ran) && t != POLLER && POLLER !in triggers'
    requires t in triggers ==> triggers[t] != InEnqueue(q)
    requires t in triggers' ==> triggers'[t] != InEnqueue(q)
    requires triggers' - {t} == triggers - {t}
    ensures QueueInv(s, q, triggers', inside, ran)
  {
    forall u | u != POLLER ensures Role(s.At(u), q, triggers', u) {
      assert Role(s.At(u), q, triggers, u);
      if u != t {
        assert u in triggers - {t} <==> u in triggers' - {t};
        assert u in triggers ==> (triggers - {t})[u] == (triggers' - {t})[u];
      }
    }
  }

  lemma WritersMove(triggers: map<Thread, TriggerPc>, triggers': map<Thread, TriggerPc>, t: Thread)
    requires triggers' - {t} == triggers - {t}
    ensures |Writers(triggers')| == |Writers(triggers)| - Count(t in Writers(triggers)) + Count(t in Writers(triggers'))
  {
    forall u | u != t ensures u in Writers(triggers) <==> u in Writers(triggers') {
      assert u in triggers - {t} <==> u in triggers' - {t};
      assert u in triggers ==> (triggers - {t})[u] == (triggers' - {t})[u];
    }
    Q.CardinalityMoves(Writers(triggers), Writers(triggers'), t);
  }

  /** Threads other than t stay in flight. */
  lemma CoverMove(w: World, w': World, t: Thread)
    requires CoverInv(w) && w'.pc == w.pc
    requires w'.triggers - {t} == w.triggers - {t} && (w.wakeupCall ==> w'.wakeupCall)
    requires forall q, u :: u != t ==> w'.Get(q).At(u) == w.Get(q).At(u)
    requires InFlight(w', t) || w'.wakeupCall
          || (!InFlight(w, t) && forall q :: Contents(w'.Get(q).m) == Contents(w.Get(q).m))
    ensures CoverInv(w')
  {
    forall u | u != t && InFlight(w, u) ensures InFlight(w', u) {
      assert u in w.triggers - {t} <==> u in w'.triggers - {t};
      assert (w.triggers - {t})[u] == (w'.triggers - {t})[u];
    }
    forall q | Covered(w, q) ensures Covered(w', q) {
      if Contents(w.Get(q).m) != [] && !w'.wakeupCall && !InFlight(w', t) {
        var u :| InFlight(w, u);
        assert InFlight(w', u);
      }
    }
  }

  /** One queue moves by thread t; the other queue does not move. */
  lemma CoverOneQueue(w: World, w': World, q: Queue, t: Thread)
    requires CoverInv(w) && w'.pc == w.pc && w'.wakeupCall == w.wakeupCall
    requires w' == w.Set(q, w'.Get(q)).(triggers := w.triggers[t := InEnqueue(q)])
    requires t in w.triggers ==> w.triggers[t] == InEnqueue(q)
    requires w'.Get(q).pcs == w.Get(q).pcs[t := w'.Get(q).At(t)]
    requires InFlight(w, t) ==> InFlight(w', t)
    requires Contents(w'.Get(q).m) == Contents(w.Get(q).m) || InFlight(w', t)
    ensures CoverInv(w')
  {
    CoverMove(w, w', t);
  }

  lemma StartKeepsQueue(w: World, t: Thread, q: Queue, task: Task, node: NodeId, p: Queue)
    requires QueueOk(w, p) && t != POLLER && t !in w.triggers && node !in w.Get(q).m.heap
    ensures var w' := Apply(w, StartTrigger(t, q, task, node));
            QueueOk(w', p) && Contents(w'.Get(p).m) == Contents(w.Get(p).m) && w.Get(p).At(t).Idle?
  {
    var triggers' := w.triggers[t := InEnqueue(q)];
    if p == q { EnqueueStarts(w.Get(p), p, w.triggers, Inside(w.pc, p), w.Ran(p), t, task, node); }
    else { OutsideMove(w.Get(p), p, w.triggers, triggers', Inside(w.pc, p), w.Ran(p), t); }
  }

  lemma StartKeepsInv(w: World, t: Thread, q: Queue, task: Task, node: NodeId)
    requires Inv(w) && t != POLLER && t !in w.triggers && node !in w.Get(q).m.heap
    ensures Inv(Apply(w, StartTrigger(t, q, task, node)))
  {
    hide QueueInv, Covered;
    var w' := Apply(w, StartTrigger(t, q, task, node));
    StartKeepsQueue(w, t, q, task, node, Async);
    StartKeepsQueue(w, t, q, task, node, Urgent);
    WritersMove(w.triggers, w'.triggers, t);
    CoverOneQueue(w, w', q, t);
  }

  lemma EnqueueingKeepsQueues(w: World, t: Thread, q: Queue)
    requires QueuesInv(w) && t in w.triggers && w.triggers[t] == InEnqueue(q) && !w.Get(q).At(t).EnqReturn?
    ensures QueuesInv(Trigger(w, t)) && t in w.Get(q).pcs
    ensures var pc, pc' := w.Get(q).At(t), Trigger(w, t).Get(q).At(t);
            (Linked(pc) ==> Linked(pc')) && (Contents(Trigger(w, t).Get(q).m) == Contents(w.Get(q).m) || Linked(pc'))
  {
    assert Role(w.Get(q).At(t), q, w.triggers, t);
    if q.Async? {
      EnqueueStep(w.async, Async, w.triggers, Inside(w.pc, Async), w.ranAsync, t);
    } else {
      EnqueueStep(w.urgent, Urgent, w.triggers, Inside(w.pc, Urgent), w.ranUrgent, t);
    }
  }

  lemma EnqueueingKeepsInv(w: World, t: Thread, q: Queue)
    requires Inv(w) && t in w.triggers && w.triggers[t] == InEnqueue(q) && !w.Get(q).At(t).EnqReturn?
    ensures Inv(Trigger(w, t))
  {
    EnqueueingKeepsQueues(w, t, q);
    assert w.triggers[t := InEnqueue(q)] == w.triggers;
    CoverOneQueue(w, Trigger(w, t), q, t);
  }

  lemma EnqueuedKeepsQueue(w: World, t: Thread, q: Queue, p: Queue)
    requires QueueOk(w, p) && t in w.triggers && w.triggers[t] == InEnqueue(q) && w.Get(q).At(t).EnqReturn?
    ensures QueueOk(Trigger(w, t), p)
  {
    if p == q { EnqueueReturns(w.Get(p), p, w.triggers, Inside(w.pc, p), w.Ran(p), t); }
    else { OutsideMove(w.Get(p), p, w.triggers, w.triggers[t := AtCas], Inside(w.pc, p), w.Ran(p), t); }
  }

  lemma EnqueuedKeepsInv(w: World, t: Thread, q: Queue)
    requires Inv(w) && t in w.triggers && w.triggers[t] == InEnqueue(q) && w.Get(q).At(t).EnqReturn?
    ensures Inv(Trigger(w, t))
  {
    hide QueueInv, Covered;
    var w' := Trigger(w, t);
    EnqueuedKeepsQueue(w, t, q, Async);
    EnqueuedKeepsQueue(w, t, q, Urgent);
    WritersMove(w.triggers, w'.triggers, t);
    assert InFlight(w', t);
    CoverMove(w, w', t);
  }

  lemma WakingKeepsInv(w: World, t: Thread)
    requires Inv(w) && t in w.triggers && !w.triggers[t].InEnqueue?
    ensures Inv(Trigger(w, t))
  {
    var w' := Trigger(w, t);
    OutsideMove(w.urgent, Urgent, w.triggers, w'.triggers, Inside(w.pc, Urgent), w.ranUrgent, t);
    OutsideMove(w.async, Async, w.triggers, w'.triggers, Inside(w.pc, Async), w.ranAsync, t);
    WritersMove(w.triggers, w'.triggers, t);
    assert w.triggers[t].AtWrite? ==> |Writers(w.triggers)| > 0 by {
      assert w.triggers[t].AtWrite? ==> t in Writers(w.triggers);
    }
    assert TokenInv(w');
    assert CoverInv(w') by { CoverMove(w, w', t); }
  }

  // ----- the poller's own steps

  /** With no Dequeue under way, an empty length means that every queued task has its trigger in flight. */
  lemma ZeroLengthIsCovered(w: World, q: Queue, ran: seq<Task>)
    requires QueueInv(w.Get(q), q, w.triggers, false, ran) && w.Get(q).length == 0
    ensures Covered(w, q)
  {
    var s := w.Get(q);
    Q.LengthCounts(s);
    if Contents(s.m) != [] {
      assert Taken(s.pcs) == {} by {
        forall t | t in s.pcs ensures !s.pcs[t].DeqCount? {
          assert s.At(t) == s.pcs[t];
        }
      }
      assert Uncounted(s.pcs) != {};
      var t :| t in Uncounted(s.pcs);
      assert s.At(t) == s.pcs[t];
      assert InFlight(w, t);
    }
  }

  /** One step of the poller inside one queue. */
  lemma PollStepsQueue(w: World, shutdown: bool, q: Queue)
    requires QueueOk(w, q) && Inside(w.pc, q)
    ensures QueueOk(Poll(w, shutdown), q)
  {
    hide QueueInv;
    assert w.Ran(q) + [] == w.Ran(q);
    if w.Get(q).At(POLLER).DeqReturn? { DequeueReturns(w.Get(q), q, w.triggers, w.Ran(q)); }
    else { DequeueStep(w.Get(q), q, w.triggers, w.Ran(q)); }
  }

  lemma PollLeavesQueue(w: World, shutdown: bool, q: Queue)
    requires !Inside(w.pc, q)
    ensures Poll(w, shutdown).Ran(q) == w.Ran(q) && Poll(w, shutdown).triggers == w.triggers
    ensures Poll(w, shutdown).Get(q)
         == if Inside(Poll(w, shutdown).pc, q) then Q.Apply(w.Get(q), CallDequeue(POLLER)) else w.Get(q)
  {}

  lemma PollKeepsQueue(w: World, shutdown: bool, q: Queue)
    requires QueueOk(w, q)
    ensures QueueOk(Poll(w, shutdown), q)
  {
    if Inside(w.pc, q) { PollStepsQueue(w, shutdown, q); }
    else {
      PollLeavesQueue(w, shutdown, q);
      if Inside(Poll(w, shutdown).pc, q) { DequeueStarts(w.Get(q), q, w.triggers, w.Ran(q)); }
    }
  }

  lemma PollKeepsToken(w: World, shutdown: bool)
    requires TokenInv(w)
    ensures TokenInv(Poll(w, shutdown))
  {}

  lemma PollKeepsCover(w: World, shutdown: bool)
    requires Inv(w)
    ensures CoverInv(Poll(w, shutdown))
  {
    hide Contents, RanInv;
    var w' := Poll(w, shutdown);
    if w.pc.CheckAsync? && w.async.length == 0 { ZeroLengthIsCovered(w, Async, w.ranAsync); }
    if w.pc.CheckUrgent? && w.urgent.length == 0 { ZeroLengthIsCovered(w, Urgent, w.ranUrgent); }
    if w.pc.CheckAsync? || w.pc.CheckUrgent? {
      forall t | InFlight(w, t) ensures InFlight(w', t) {}
    }
  }

  lemma PollKeepsInv(w: World, shutdown: bool)
    requires Inv(w)
    ensures Inv(Poll(w, shutdown))
  {
    PollKeepsQueue(w, shutdown, Async);
    PollKeepsQueue(w, shutdown, Urgent);
    PollKeepsToken(w, shutdown);
    PollKeepsCover(w, shutdown);
  }

  lemma ApplyKeepsInv(w: World, a: Action)
    requires Inv(w)
    ensures Inv(Apply(w, a))
  {
    match a {
      case StartTrigger(t, q, task, node) =>
        if t != POLLER && t !in w.triggers && node !in w.Get(q).m.heap { StartKeepsInv(w, t, q, task, node); }
      case AdvanceTrigger(t) =>
        if t in w.triggers {
          if !w.triggers[t].InEnqueue? { WakingKeepsInv(w, t); }
          else if w.Get(w.triggers[t].q).At(t).EnqReturn? { EnqueuedKeepsInv(w, t, w.triggers[t].q); }
          else { EnqueueingKeepsInv(w, t, w.triggers[t].q); }
        }
      case Wait(signalled) =>
        forall t | InFlight(w, t) ensures InFlight(Apply(w, a), t) {}
      case AdvancePoller(shutdown) =>
        PollKeepsInv(w, shutdown);
    }
  }

  lemma {:induction false} RunKeepsInv(actions: seq<Action>)
    ensures Inv(Run(Init(), actions))
  {
    if actions == [] {
      assert Q.Init() == Q.Run(Q.Init(), []);
    } else {
      RunKeepsInv(actions[..|actions| - 1]);
      ApplyKeepsInv(Run(Init(), actions[..|actions| - 1]), actions[|actions| - 1]);
    }
  }

  // ----- main results

  /** No wake-up is lost: a poller that waits unsignalled while a task is queued will still be signalled. */
  lemma NoLostWakeup(actions: seq<Action>, q: Queue)
    requires Run(Init(), actions).pc.Waiting? && Run(Init(), actions).efd == 0
    requires Contents(Run(Init(), actions).Get(q).m) != []
    ensures exists t :: InFlight(Run(Init(), actions), t)
  {
    var w := Run(Init(), actions);
    RunKeepsInv(actions);
    assert Covered(w, q);
    if w.wakeupCall {
      var t :| t in Writers(w.triggers);
      assert InFlight(w, t);
    }
  }

  /** Pending eventfd writes, the eventfd counter and the poller's own turn hold one token between them at most, and
      exactly one while the flag is set, until the poller stops. So the counter never exceeds one and EAGAIN cannot
      occur. */
  lemma SingleToken(actions: seq<Action>)
    ensures var w := Run(Init(), actions);
            var tokens := |Writers(w.triggers)| + w.efd + Count(Holds(w.pc));
            && tokens <= Count(w.wakeupCall) && (!w.pc.Stopped? ==> tokens == Count(w.wakeupCall))
            && w.efd <= 1
            && (w.efd == 1 ==> w.wakeupCall && Writers(w.triggers) == {})
            && (w.pc.Waiting? && w.triggers == map[] ==> (w.wakeupCall <==> w.efd == 1))
  {
    RunKeepsInv(actions);
  }

  /** Tasks of each queue run exactly once and in the order in which they were linked. */
  lemma TasksRunOnceInOrder(actions: seq<Action>, q: Queue)
    ensures var w := Run(Init(), actions);
            var log := Log(w.Get(q).m.heap, w.Get(q).m.chain);
            w.Ran(q) <= log && (w.pc.Waiting? ==> w.Ran(q) + Contents(w.Get(q).m) == log)
  {
    RunKeepsInv(actions);
    assert QueueOk(Run(Init(), actions), q);
    RanIsPrefix(Run(Init(), actions).Get(q), Run(Init(), actions).Ran(q));
  }

  lemma RanIsPrefix(s: Q.State, ran: seq<Task>)
    requires RanInv(s, ran)
    ensures ran <= Log(s.m.heap, s.m.chain)
    ensures s.At(POLLER).Idle? ==> ran + Contents(s.m) == Log(s.m.heap, s.m.chain)
  {
    var log, taken := Log(s.m.heap, s.m.chain), TakenCount(s.m);
    assert log == log[..taken] + log[taken..];
  }
}
