/** What the poller does once it is woken up: core/internal/netpoll/epoll_default_poller.go:128-181.

    The first half says it for a poller that is not interfered with, up to the moment it waits again; the second for any
    interleaving. */
module Turns {
  import opened Bytes
  import Q = LockFreeQueue
  import S = Solo
  import opened Poller

  type Task = Q.Task

  // ----- the poller alone

  /** n steps of the poller, and of no other thread; no task asks for a shutdown. */
  function Rounds(w: World, n: nat): World {
    if n == 0 then w else Poll(Rounds(w, n - 1), false)
  }

  lemma {:induction false} RoundsRounds(w: World, m: nat, n: nat)
    ensures Rounds(Rounds(w, m), n) == Rounds(w, m + n)
  {
    hide Poll;
    if n > 0 { RoundsRounds(w, m, n - 1); }
  }

  lemma {:induction false} RoundsKeepInv(w: World, n: nat)
    requires Inv(w)
    ensures Inv(Rounds(w, n))
  {
    hide Inv, Poll;
    if n > 0 {
      RoundsKeepInv(w, n - 1);
      PollKeepsInv(Rounds(w, n - 1), false);
    }
  }

  lemma OneRound(w: World)
    ensures Rounds(w, 1) == Poll(w, false)
  {
    hide Poll;
    assert Rounds(w, 1) == Poll(Rounds(w, 0), false);
  }

  lemma QueueReached(w: World, q: Queue)
    requires Inv(w)
    ensures Q.Inv(w.Get(q)) && (!Inside(w.pc, q) ==> w.Get(q).At(POLLER).Idle?)
  {
    hide Q.Inv;
    assert QueueOk(w, q);
    Q.ReachableKeepsInv(w.Get(q));
  }

  predicate Returned(pc: Q.Pc) { pc.DeqReturn? || pc.EnqReturn? }

  /** Inside a Dequeue a step of the poller is an access to the queue. */
  lemma {:induction false} InsideAlone(w: World, q: Queue, n: nat)
    requires Inside(w.pc, q)
    requires forall k :: 0 <= k < n ==> !Returned(S.Alone(w.Get(q), POLLER, k).At(POLLER))
    ensures Rounds(w, n) == w.Set(q, S.Alone(w.Get(q), POLLER, n))
  {
    hide Q.Apply;
    if n > 0 {
      InsideAlone(w, q, n - 1);
      assert !Returned(S.Alone(w.Get(q), POLLER, n - 1).At(POLLER));
    }
  }

  lemma ReturnedStays(s: Q.State, t: Q.Thread, n: nat)
    requires Returned(S.Alone(s, t, n).At(t))
    ensures S.Alone(s, t, n + 1) == S.Alone(s, t, n)
  {
    var s' := S.Alone(s, t, n);
    assert s'.pcs[t := s'.pcs[t]] == s'.pcs;
  }

  /** The moment at which an operation returns. */
  lemma {:induction false} FirstReturn(s: Q.State, t: Q.Thread, n: nat) returns (k: nat)
    requires Returned(S.Alone(s, t, n).At(t))
    ensures k <= n && S.Alone(s, t, k) == S.Alone(s, t, n)
    ensures forall j :: 0 <= j < k ==> !Returned(S.Alone(s, t, j).At(t))
  {
    hide S.Alone;
    if j :| 0 <= j < n && Returned(S.Alone(s, t, j).At(t)) {
      StaysReturned(s, t, j, n);
      k := FirstReturn(s, t, j);
    } else {
      k := n;
    }
  }

  lemma {:induction false} StaysReturned(s: Q.State, t: Q.Thread, j: nat, n: nat)
    requires j <= n && Returned(S.Alone(s, t, j).At(t))
    ensures S.Alone(s, t, n) == S.Alone(s, t, j)
    decreases n - j
  {
    hide S.Alone;
    if j < n {
      ReturnedStays(s, t, j);
      StaysReturned(s, t, j + 1, n);
    }
  }

  /** A Dequeue of the poller, up to its return. */
  lemma DequeueInside(w: World, q: Queue) returns (n: nat)
    requires Q.Inv(w.Get(q)) && Inside(w.pc, q) && w.Get(q).At(POLLER).DeqLoadHead?
    ensures var w', tasks := Rounds(w, n), Q.Contents(w.Get(q).m);
            && w' == w.Set(q, w'.Get(q)) && w'.Get(q).At(POLLER) == Q.DeqReturn(S.First(tasks))
            && Q.Contents(w'.Get(q).m) == S.Rest(tasks)
  {
    hide S.Alone, Q.Inv, Q.Contents;
    var many := S.DequeueAlone(w.Get(q), POLLER);
    n := FirstReturn(w.Get(q), POLLER, many);
    InsideAlone(w, q, n);
  }

  /** One task of the urgent queue. */
  lemma UrgentOnce(w: World) returns (n: nat)
    requires Inv(w) && w.pc.CallUrgent?
    ensures var w', tasks := Rounds(w, n), Q.Contents(w.urgent.m);
            && Q.Contents(w'.urgent.m) == S.Rest(tasks)
            && w' == if tasks == [] then w.(urgent := w'.urgent, pc := CallAsync(0))
                     else w.(urgent := w'.urgent, ranUrgent := w.ranUrgent + [tasks[0]])
  {
    hide Inv, Q.Inv, Q.Contents, Rounds;
    var w1 := Poll(w, false);
    OneRound(w);
    QueueReached(w, Urgent);
    PollKeepsInv(w, false);
    QueueReached(w1, Urgent);
    var k := DequeueInside(w1, Urgent);
    RoundsRounds(w, 1, k);
    OneRound(Rounds(w1, k));
    RoundsRounds(w, 1 + k, 1);
    n := k + 2;
  }

  /** One task of the other queue. */
  lemma AsyncOnce(w: World) returns (n: nat)
    requires Inv(w) && w.pc.CallAsync? && w.pc.done < 256
    ensures var w', tasks := Rounds(w, n), Q.Contents(w.async.m);
            && Q.Contents(w'.async.m) == S.Rest(tasks)
            && w' == if tasks == [] then w.(async := w'.async, pc := Storing)
                     else w.(async := w'.async, ranAsync := w.ranAsync + [tasks[0]], pc := CallAsync(w.pc.done + 1))
  {
    hide Inv, Q.Inv, Q.Contents, Rounds;
    var w1 := Poll(w, false);
    OneRound(w);
    QueueReached(w, Async);
    PollKeepsInv(w, false);
    QueueReached(w1, Async);
    var k := DequeueInside(w1, Async);
    RoundsRounds(w, 1, k);
    OneRound(Rounds(w1, k));
    RoundsRounds(w, 1 + k, 1);
    n := k + 2;
  }

  /** All tasks of the urgent queue. */
  lemma {:induction false} UrgentAll(w: World) returns (n: nat)
    requires Inv(w) && w.pc.CallUrgent?
    ensures var w' := Rounds(w, n);
            && Q.Contents(w'.urgent.m) == []
            && w' == w.(urgent := w'.urgent, ranUrgent := w.ranUrgent + Q.Contents(w.urgent.m), pc := CallAsync(0))
    decreases |Q.Contents(w.urgent.m)|
  {
    hide Inv, Q.Contents, Rounds;
    var tasks := Q.Contents(w.urgent.m);
    n := UrgentOnce(w);
    if tasks == [] {
      assert w.ranUrgent + [] == w.ranUrgent;
    } else {
      RoundsKeepInv(w, n);
      var more := UrgentAll(Rounds(w, n));
      RoundsRounds(w, n, more);
      assert [tasks[0]] + tasks[1..] == tasks;
      assert w.ranUrgent + [tasks[0]] + tasks[1..] == w.ranUrgent + ([tasks[0]] + tasks[1..]);
      n := n + more;
    }
  }

  /** The first tasks, but no more than so many. */
  function UpTo(tasks: seq<Task>, n: nat): nat { if |tasks| < n then |tasks| else n }

  /** The tasks of the other queue, 256 in one turn at most. */
  lemma {:induction false} AsyncAll(w: World) returns (n: nat)
    requires Inv(w) && w.pc.CallAsync? && w.pc.done <= 256
    ensures var w', tasks := Rounds(w, n), Q.Contents(w.async.m);
            var k := UpTo(tasks, 256 - w.pc.done);
            && Q.Contents(w'.async.m) == tasks[k..]
            && w' == w.(async := w'.async, ranAsync := w.ranAsync + tasks[..k], pc := Storing)
    decreases 256 - w.pc.done
  {
    hide Inv, Q.Contents, Rounds;
    var tasks := Q.Contents(w.async.m);
    if w.pc.done == 256 {
      n := 1;
      OneRound(w);
      assert tasks[..0] == [] && w.ranAsync + [] == w.ranAsync && tasks[0..] == tasks;
    } else {
      n := AsyncOnce(w);
      if tasks == [] {
        assert tasks[..0] == [] && w.ranAsync + [] == w.ranAsync;
      } else {
        RoundsKeepInv(w, n);
        var more := AsyncAll(Rounds(w, n));
        RoundsRounds(w, n, more);
        TakeOne(w.ranAsync, tasks, UpTo(tasks, 256 - w.pc.done));
        n := n + more;
      }
    }
  }

  lemma TakeOne(ran: seq<Task>, tasks: seq<Task>, k: nat)
    requires 1 <= k <= |tasks|
    ensures ran + [tasks[0]] + tasks[1..][..k - 1] == ran + tasks[..k] && tasks[1..][k - 1..] == tasks[k..]
  {
    assert [tasks[0]] + tasks[1..][..k - 1] == tasks[..k];
  }

  /** With no trigger at work the length of a queue is the number of its tasks. */
  lemma LengthAlone(w: World, q: Queue)
    requires Inv(w) && w.triggers == map[] && !Inside(w.pc, q)
    ensures w.Get(q).length == |Q.Contents(w.Get(q).m)|
  {
    hide Q.Contents, RanInv, TokenInv, CoverInv;
    var s := w.Get(q);
    assert QueueOk(w, q);
    Q.LengthCounts(s);
    forall t | t in s.pcs ensures s.pcs[t].Idle? {
      assert s.At(t) == s.pcs[t];
    }
    assert Q.Uncounted(s.pcs) == {} && Q.Taken(s.pcs) == {};
  }

  /** The flag is cleared, and the poller signals itself if there are tasks left. */
  lemma TurnEnds(w: World) returns (n: nat)
    requires Inv(w) && w.triggers == map[] && w.pc.Storing? && Q.Contents(w.urgent.m) == []
    ensures var more := Q.Contents(w.async.m) != [];
            Rounds(w, n) == w.(pc := Waiting, wakeupCall := more, efd := if more then 1 else 0)
  {
    hide Q.Contents, QueuesInv, CoverInv;
    LengthAlone(w, Async);
    LengthAlone(w, Urgent);
    var w1 := w.(wakeupCall := false, pc := CheckAsync);
    assert Rounds(w, 1) == w1 by { OneRound(w); }
    if Q.Contents(w.async.m) == [] {
      n := 3;
      assert Rounds(w1, 2) == w1.(pc := Waiting) by { OneRound(w1); }
      RoundsRounds(w, 1, 2);
    } else {
      n := 4;
      var w2 := w1.(pc := PollerCas);
      assert Rounds(w1, 1) == w2 by { OneRound(w1); }
      assert Rounds(w2, 2) == w2.(wakeupCall := true, efd := 1, pc := Waiting) by { OneRound(w2); }
      RoundsRounds(w, 1, 1);
      RoundsRounds(w, 2, 2);
    }
  }

  /** So many steps of the same kind. */
  function Repeated(a: Action, n: nat): seq<Action> { seq(n, _ => a) }

  lemma {:induction false} RunRounds(actions: seq<Action>, n: nat)
    ensures Run(Init(), actions + Repeated(AdvancePoller(false), n)) == Rounds(Run(Init(), actions), n)
  {
    hide Poll;
    var all := actions + Repeated(AdvancePoller(false), n);
    if n == 0 {
      assert all == actions;
    } else {
      RunRounds(actions, n - 1);
      assert all[..|all| - 1] == actions + Repeated(AdvancePoller(false), n - 1);
    }
  }

  lemma TurnOf(w: World) returns (n: nat)
    requires Inv(w) && w.pc.Reading? && w.triggers == map[]
    ensures var w', tasks := Rounds(w, n), Q.Contents(w.async.m);
            && w'.pc.Waiting? && w'.triggers == map[]
            && w'.ranUrgent == w.ranUrgent + Q.Contents(w.urgent.m) && Q.Contents(w'.urgent.m) == []
            && w'.ranAsync == w.ranAsync + tasks[..UpTo(tasks, 256)]
            && Q.Contents(w'.async.m) == tasks[UpTo(tasks, 256)..]
            && w'.efd == (if |tasks| > 256 then 1 else 0) && (w'.wakeupCall <==> |tasks| > 256)
  {
    hide Inv, Q.Contents, Rounds;
    OneRound(w);
    RoundsKeepInv(w, 1);
    var a := UrgentAll(Rounds(w, 1));
    RoundsRounds(w, 1, a);
    RoundsKeepInv(w, 1 + a);
    var b := AsyncAll(Rounds(w, 1 + a));
    RoundsRounds(w, 1 + a, b);
    RoundsKeepInv(w, 1 + a + b);
    var c := TurnEnds(Rounds(w, 1 + a + b));
    RoundsRounds(w, 1 + a + b, c);
    n := 1 + a + b + c;
  }

  /** A poller that was woken up, and is not interfered with, runs every urgent task and the first 256 of the others, in
      order; then it waits, and has signalled itself exactly if tasks are left. */
  lemma TurnAlone(actions: seq<Action>) returns (n: nat)
    requires Run(Init(), actions).pc.Reading? && Run(Init(), actions).triggers == map[]
    ensures var w, w' := Run(Init(), actions), Run(Init(), actions + Repeated(AdvancePoller(false), n));
            var tasks := Q.Contents(w.async.m);
            && w'.pc.Waiting?
            && w'.ranUrgent == w.ranUrgent + Q.Contents(w.urgent.m) && Q.Contents(w'.urgent.m) == []
            && w'.ranAsync == w.ranAsync + tasks[..UpTo(tasks, 256)]
            && Q.Contents(w'.async.m) == tasks[UpTo(tasks, 256)..]
            && w'.efd == (if |tasks| > 256 then 1 else 0)
  {
    hide Inv, Run, Q.Contents, Rounds;
    RunKeepsInv(actions);
    n := TurnOf(Run(Init(), actions));
    RunRounds(actions, n);
  }

  lemma QueuedIsSignalled(w: World, q: Queue)
    requires Inv(w) && w.pc.Waiting? && w.triggers == map[] && Q.Contents(w.Get(q).m) != []
    ensures w.efd == 1
  {
    hide Q.Contents, QueuesInv;
    assert Covered(w, q);
    assert Writers(w.triggers) == {};
  }

  /** So while a task is queued and no trigger is at work, a poller that waits wakes up, and then it runs the tasks. */
  lemma QueuedTasksRun(actions: seq<Action>, q: Queue) returns (n: nat)
    requires Run(Init(), actions).pc.Waiting? && Run(Init(), actions).triggers == map[]
    requires Q.Contents(Run(Init(), actions).Get(q).m) != []
    ensures var w := Run(Init(), actions);
            var w' := Run(Init(), actions + [Wait(true)] + Repeated(AdvancePoller(false), n));
            var tasks := Q.Contents(w.async.m);
            && w'.pc.Waiting?
            && w'.ranUrgent == w.ranUrgent + Q.Contents(w.urgent.m) && Q.Contents(w'.urgent.m) == []
            && w'.ranAsync == w.ranAsync + tasks[..UpTo(tasks, 256)]
            && Q.Contents(w'.async.m) == tasks[UpTo(tasks, 256)..]
            && w'.efd == (if |tasks| > 256 then 1 else 0)
  {
    hide Inv, Q.Contents, Trigger, Poll;
    RunKeepsInv(actions);
    QueuedIsSignalled(Run(Init(), actions), q);
    assert (actions + [Wait(true)])[..|actions|] == actions;
    assert Run(Init(), actions + [Wait(true)]) == Run(Init(), actions).(pc := Reading);
    n := TurnAlone(actions + [Wait(true)]);
  }

  // ----- shutdown

  /** A task that asks for a shutdown is the last one that is run: the poller stops at once. */
  lemma ShutdownStops(w: World, q: Queue, task: Task)
    requires Inside(w.pc, q) && w.Get(q).At(POLLER) == Q.DeqReturn(Some(task))
    ensures Poll(w, true).pc.Stopped? && Poll(w, true).Ran(q) == w.Ran(q) + [task]
  {}

  lemma StoppedStep(w: World, a: Action)
    requires w.pc.Stopped?
    ensures var w' := Apply(w, a); w'.pc.Stopped? && w'.ranUrgent == w.ranUrgent && w'.ranAsync == w.ranAsync
  {
    hide Q.Apply;
  }

  /** A poller that has stopped runs nothing any more, whatever the other threads do. */
  lemma {:induction false} StoppedStays(actions: seq<Action>, more: seq<Action>)
    requires Run(Init(), actions).pc.Stopped?
    ensures var w, w' := Run(Init(), actions), Run(Init(), actions + more);
            w'.pc.Stopped? && w'.ranUrgent == w.ranUrgent && w'.ranAsync == w.ranAsync
    decreases |more|
  {
    hide Apply;
    if more == [] {
      assert actions + more == actions;
    } else {
      var init, a := more[..|more| - 1], more[|more| - 1];
      StoppedStays(actions, init);
      StoppedStep(Run(Init(), actions + init), a);
      assert (actions + more)[..|actions + more| - 1] == actions + init;
      assert (actions + more)[|actions + more| - 1] == a;
    }
  }

  // ----- a trigger alone

  /** n steps of the trigger of thread t, and of no other thread. */
  function Tries(w: World, t: Q.Thread, n: nat): World {
    if n == 0 then w else Apply(Tries(w, t, n - 1), AdvanceTrigger(t))
  }

  lemma {:induction false} TriesTries(w: World, t: Q.Thread, m: nat, n: nat)
    ensures Tries(Tries(w, t, m), t, n) == Tries(w, t, m + n)
  {
    hide Apply;
    if n > 0 { TriesTries(w, t, m, n - 1); }
  }

  lemma {:induction false} RunTries(actions: seq<Action>, t: Q.Thread, n: nat)
    ensures Run(Init(), actions + Repeated(AdvanceTrigger(t), n)) == Tries(Run(Init(), actions), t, n)
  {
    hide Apply;
    var all := actions + Repeated(AdvanceTrigger(t), n);
    if n == 0 {
      assert all == actions;
    } else {
      RunTries(actions, t, n - 1);
      assert all[..|all| - 1] == actions + Repeated(AdvanceTrigger(t), n - 1);
    }
  }

  lemma OneTry(w: World, t: Q.Thread)
    ensures Tries(w, t, 1) == Apply(w, AdvanceTrigger(t))
  {
    hide Apply;
    assert Tries(w, t, 1) == Apply(Tries(w, t, 0), AdvanceTrigger(t));
  }

  lemma {:induction false} EnqueueingAlone(w: World, t: Q.Thread, q: Queue, n: nat)
    requires t in w.triggers && w.triggers[t] == InEnqueue(q)
    requires forall k :: 0 <= k < n ==> !Returned(S.Alone(w.Get(q), t, k).At(t))
    ensures Tries(w, t, n) == w.Set(q, S.Alone(w.Get(q), t, n))
  {
    hide Q.Apply;
    if n > 0 {
      EnqueueingAlone(w, t, q, n - 1);
      assert !Returned(S.Alone(w.Get(q), t, n - 1).At(t));
    }
  }

  /** The flag, and the write if it was clear. */
  lemma WakingAlone(w: World, t: Q.Thread) returns (n: nat)
    requires Inv(w) && t in w.triggers && w.triggers[t].AtCas?
    ensures var w' := Tries(w, t, n);
            && w' == w.(wakeupCall := true, efd := w'.efd, triggers := w.triggers - {t})
            && w'.efd == (if w.wakeupCall then w.efd else 1)
  {
    hide QueuesInv, CoverInv;
    OneTry(w, t);
    if w.wakeupCall {
      n := 1;
    } else {
      n := 2;
      OneTry(Tries(w, t, 1), t);
      TriesTries(w, t, 1, 1);
      assert w.triggers[t := AtWrite] - {t} == w.triggers - {t};
    }
  }

  lemma StartedQueue(w: World, t: Q.Thread, q: Queue, task: Task, node: Q.NodeId)
    requires Inv(w) && t != POLLER && t !in w.triggers && node !in w.Get(q).m.heap
    ensures var w1 := Apply(w, StartTrigger(t, q, task, node));
            && w1 == w.Set(q, w1.Get(q)).(triggers := w.triggers[t := InEnqueue(q)])
            && t in w1.Get(q).pcs && w1.Get(q).pcs[t] == Q.EnqLoadTail(node) && w1.Get(q).m.Load(node).value == task
            && Q.Contents(w1.Get(q).m) == Q.Contents(w.Get(q).m)
  {
    hide Q.Contents, RanInv, TokenInv, CoverInv;
    assert QueueOk(w, q);
    StartKeepsQueue(w, t, q, task, node, q);
  }

  /** A trigger that is not interfered with puts its task behind all others of its queue and leaves the flag set; if it
      was clear the eventfd is written, so that the poller wakes up. Nothing else changes. */
  lemma TriggerOf(w: World, t: Q.Thread, q: Queue, task: Task, node: Q.NodeId) returns (n: nat)
    requires Inv(w) && t != POLLER && t !in w.triggers && node !in w.Get(q).m.heap
    ensures var w' := Tries(Apply(w, StartTrigger(t, q, task, node)), t, n);
            && Q.Contents(w'.Get(q).m) == Q.Contents(w.Get(q).m) + [task]
            && w' == w.Set(q, w'.Get(q)).(wakeupCall := true, efd := w'.efd)
            && w'.efd == (if w.wakeupCall then w.efd else 1)
  {
    hide Inv, Q.Inv, Q.Contents, S.Alone, Tries;
    StartedQueue(w, t, q, task, node);
    ApplyKeepsInv(w, StartTrigger(t, q, task, node));
    var w1 := Apply(w, StartTrigger(t, q, task, node));
    QueueReached(w1, q);
    var many := S.EnqueueAlone(w1.Get(q), t, node);
    var k := FirstReturn(w1.Get(q), t, many);
    EnqueueingAlone(w1, t, q, k);
    var w2 := Tries(w1, t, k);
    TriesKeepInv(w1, t, k);
    OneTry(w2, t);
    TriesKeepInv(w1, t, k + 1);
    TriesTries(w1, t, k, 1);
    var w3 := Tries(w1, t, k + 1);
    var wake := WakingAlone(w3, t);
    TriesTries(w1, t, k + 1, wake);
    assert w.triggers[t := InEnqueue(q)][t := AtCas] - {t} == w.triggers;
    n := k + 1 + wake;
  }

  lemma {:induction false} TriesKeepInv(w: World, t: Q.Thread, n: nat)
    requires Inv(w)
    ensures Inv(Tries(w, t, n))
  {
    hide Inv, Apply;
    if n > 0 {
      TriesKeepInv(w, t, n - 1);
      ApplyKeepsInv(Tries(w, t, n - 1), AdvanceTrigger(t));
    }
  }

  /** The same of a run. */
  lemma TriggerAlone(actions: seq<Action>, t: Q.Thread, q: Queue, task: Task, node: Q.NodeId) returns (n: nat)
    requires var w := Run(Init(), actions); t != POLLER && t !in w.triggers && node !in w.Get(q).m.heap
    ensures var w := Run(Init(), actions);
            var w' := Run(Init(), actions + [StartTrigger(t, q, task, node)] + Repeated(AdvanceTrigger(t), n));
            && Q.Contents(w'.Get(q).m) == Q.Contents(w.Get(q).m) + [task]
            && w' == w.Set(q, w'.Get(q)).(wakeupCall := true, efd := w'.efd)
            && w'.efd == (if w.wakeupCall then w.efd else 1)
  {
    hide Inv, Q.Contents, Tries, Apply;
    var start := StartTrigger(t, q, task, node);
    RunKeepsInv(actions);
    n := TriggerOf(Run(Init(), actions), t, q, task, node);
    assert (actions + [start])[..|actions|] == actions;
    assert Run(Init(), actions + [start]) == Apply(Run(Init(), actions), start);
    RunTries(actions + [start], t, n);
  }

  // ----- a turn among other threads

  ghost function LogOf(w: World, q: Queue): seq<Task> { Q.Log(w.Get(q).m.heap, w.Get(q).m.chain) }

  ghost function TakenOf(w: World, q: Queue): nat { Q.TakenCount(w.Get(q).m) }

  /** From w to w' tasks were linked and taken, and nothing was undone. */
  ghost predicate Later(w: World, w': World, q: Queue) {
    LogOf(w, q) <= LogOf(w', q) && TakenOf(w, q) <= TakenOf(w', q)
  }

  lemma LaterTrans(w: World, w': World, w'': World, q: Queue)
    requires Later(w, w', q) && Later(w', w'', q)
    ensures Later(w, w'', q)
  {
    hide LogOf, TakenOf;
  }

  lemma AdvanceLater(w: World, w': World, q: Queue, t: Q.Thread)
    requires QueueOk(w, q) && t in w.Get(q).pcs && w'.Get(q) == Q.Apply(w.Get(q), Q.Advance(t))
    ensures Later(w, w', q)
  {
    hide Q.Log, Q.TakenCount, Q.Apply, RolesInv, RanInv, Q.Reachable;
    Q.AdvanceReaches(w.Get(q), t);
  }

  lemma GotoLater(w: World, w': World, q: Queue)
    requires w'.Get(q).m == w.Get(q).m
    ensures Later(w, w', q)
  {}

  lemma CallLater(w: World, w': World, q: Queue, t: Q.Thread, task: Task, node: Q.NodeId)
    requires QueueOk(w, q) && w.Get(q).At(t).Idle? && node !in w.Get(q).m.heap
    requires w'.Get(q) == Q.Apply(w.Get(q), Q.CallEnqueue(t, task, node))
    ensures Later(w, w', q)
  {
    hide Q.Log, Q.TakenCount, Q.Apply, RolesInv, RanInv, Q.Reachable;
    Q.CallEnqueueReaches(w.Get(q), t, task, node);
  }

  lemma PollInside(w: World, shutdown: bool, q: Queue)
    requires Inside(w.pc, q)
    ensures Poll(w, shutdown).Get(q)
         == Q.Apply(w.Get(q), if w.Get(q).At(POLLER).DeqReturn? then Q.Return(POLLER) else Q.Advance(POLLER))
  {
    hide Q.Apply;
  }

  /** A call and a return leave the memory alone. */
  lemma SameMemory(s: Q.State)
    ensures Q.Apply(s, Q.Return(POLLER)).m == s.m && Q.Apply(s, Q.CallDequeue(POLLER)).m == s.m
  {}

  lemma PollLater(w: World, shutdown: bool, q: Queue)
    requires QueueOk(w, q)
    ensures Later(w, Poll(w, shutdown), q)
  {
    hide Later, QueueInv, Poll, Q.Apply;
    var w' := Poll(w, shutdown);
    SameMemory(w.Get(q));
    if !Inside(w.pc, q) {
      PollLeavesQueue(w, shutdown, q);
      GotoLater(w, w', q);
    } else {
      PollInside(w, shutdown, q);
      InsideNotIdle(w, q);
      if w.Get(q).At(POLLER).DeqReturn? { GotoLater(w, w', q); } else { AdvanceLater(w, w', q, POLLER); }
    }
  }

  lemma InsideNotIdle(w: World, q: Queue)
    requires QueueOk(w, q) && Inside(w.pc, q)
    ensures POLLER in w.Get(q).pcs && DeqPc(w.Get(q).At(POLLER))
  {
    hide Q.Reachable, RanInv;
  }

  lemma TriggerNotIdle(w: World, q: Queue, t: Q.Thread)
    requires QueueOk(w, q) && t in w.triggers && w.triggers[t] == InEnqueue(q)
    ensures t in w.Get(q).pcs && t != POLLER
  {
    hide Q.Reachable, RanInv;
    assert Role(w.Get(q).At(t), q, w.triggers, t);
  }

  lemma TriggerLater(w: World, t: Q.Thread, q: Queue)
    requires QueueOk(w, q) && t in w.triggers
    ensures Later(w, Trigger(w, t), q)
  {
    hide Later, QueueInv;
    var w' := Trigger(w, t);
    if w.triggers[t] == InEnqueue(q) && !w.Get(q).At(t).EnqReturn? {
      TriggerNotIdle(w, q, t);
      AdvanceLater(w, w', q, t);
    } else {
      GotoLater(w, w', q);
    }
  }

  lemma StartIdle(w: World, t: Q.Thread, q: Queue)
    requires QueueOk(w, q) && t != POLLER && t !in w.triggers
    ensures w.Get(q).At(t).Idle?
  {
    hide Q.Reachable, RanInv;
    assert Role(w.Get(q).At(t), q, w.triggers, t);
  }

  /** Whatever happens, tasks are only linked and taken. */
  lemma ApplyLater(w: World, a: Action, q: Queue)
    requires QueueOk(w, q)
    ensures Later(w, Apply(w, a), q)
  {
    hide Later, QueueInv, Trigger, Poll;
    var w' := Apply(w, a);
    match a {
      case StartTrigger(t, p, task, node) =>
        if t != POLLER && t !in w.triggers && node !in w.Get(p).m.heap && p == q {
          StartIdle(w, t, q);
          CallLater(w, w', q, t, task, node);
        } else {
          GotoLater(w, w', q);
        }
      case AdvanceTrigger(t) => if t in w.triggers { TriggerLater(w, t, q); } else { GotoLater(w, w', q); }
      case Wait(_) => GotoLater(w, w', q);
      case AdvancePoller(shutdown) => PollLater(w, shutdown, q);
    }
  }

  /** The Dequeue has seen the queue empty. */
  predicate SawNil(pc: Q.Pc) { (pc.DeqCheck? && pc.next.None?) || pc == Q.DeqReturn(None) }

  /** Every task that was linked at w0 has been taken at w. */
  ghost predicate AllTaken(w0: World, w: World, q: Queue) { |LogOf(w0, q)| <= TakenOf(w, q) }

  /** What the poller has done at w of the turn that it began at w0. */
  ghost predicate Progress(w0: World, w: World) {
    match w.pc
    case CallUrgent => w.ranAsync == w0.ranAsync
    case InUrgent => w.ranAsync == w0.ranAsync && (SawNil(w.urgent.At(POLLER)) ==> AllTaken(w0, w, Urgent))
    case CallAsync(done) => done <= 256 && |w.ranAsync| == |w0.ranAsync| + done && AllTaken(w0, w, Urgent)
    case InAsync(done) =>
      && done < 256 && |w.ranAsync| == |w0.ranAsync| + done && AllTaken(w0, w, Urgent)
      && (SawNil(w.async.At(POLLER)) ==> AllTaken(w0, w, Async))
    case Storing =>
      && |w.ranAsync| <= |w0.ranAsync| + 256 && AllTaken(w0, w, Urgent)
      && (AllTaken(w0, w, Async) || |w.ranAsync| == |w0.ranAsync| + 256)
    case _ => true
  }

  ghost predicate InTurn(w0: World, w: World) {
    Later(w0, w, Urgent) && Later(w0, w, Async) && Progress(w0, w)
  }

  /** A step of the Dequeue sees the empty queue at the load that finds no next node. */
  lemma SeesNil(w: World, w': World, q: Queue)
    requires QueueOk(w, q) && Inside(w.pc, q) && !w.Get(q).At(POLLER).DeqReturn?
    requires w'.Get(q) == Q.Apply(w.Get(q), Q.Advance(POLLER)) && SawNil(w'.Get(q).At(POLLER))
    ensures SawNil(w.Get(q).At(POLLER)) || TakenOf(w, q) == |LogOf(w, q)|
  {
    hide Q.Log, Q.TakenCount, Q.Access, RolesInv, RanInv, Q.Reachable, Q.MemoryInv, Q.PcInv;
    InsideNotIdle(w, q);
    var s := w.Get(q);
    Q.ReachableThread(s, POLLER);
    if s.pcs[POLLER].DeqLoadNext? && s.m.Load(s.pcs[POLLER].head).next.None? { Q.NilNextSeesEmpty(s.m, s.pcs[POLLER]); }
  }

  lemma TakenLater(w0: World, w: World, w': World, q: Queue)
    requires AllTaken(w0, w, q) && Later(w, w', q)
    ensures AllTaken(w0, w', q)
  {
    hide LogOf, TakenOf;
  }

  lemma EmptyTakes(w0: World, w: World, q: Queue)
    requires Later(w0, w, q) && TakenOf(w, q) == |LogOf(w, q)|
    ensures AllTaken(w0, w, q)
  {
    hide LogOf, TakenOf;
  }

  /** A step inside a Dequeue of the turn: once it has seen the queue empty, all that was there has been taken. */
  lemma NilTakes(w0: World, w: World, shutdown: bool, q: Queue)
    requires QueueOk(w, q) && Inside(w.pc, q) && Later(w0, w, q)
    requires SawNil(w.Get(q).At(POLLER)) ==> AllTaken(w0, w, q)
    requires SawNil(w.Get(q).At(POLLER)) || SawNil(Poll(w, shutdown).Get(q).At(POLLER))
    ensures AllTaken(w0, Poll(w, shutdown), q)
  {
    hide Later, QueueInv, Poll, Q.Apply, AllTaken;
    var w' := Poll(w, shutdown);
    PollLater(w, shutdown, q);
    PollInside(w, shutdown, q);
    if !SawNil(w.Get(q).At(POLLER)) {
      NotReturned(w, w', q);
      SeesNil(w, w', q);
      EmptyTakes(w0, w, q);
    }
    TakenLater(w0, w, w', q);
  }

  lemma NotReturned(w: World, w': World, q: Queue)
    requires SawNil(w'.Get(q).At(POLLER))
    requires w'.Get(q)
          == Q.Apply(w.Get(q), if w.Get(q).At(POLLER).DeqReturn? then Q.Return(POLLER) else Q.Advance(POLLER))
    ensures !w.Get(q).At(POLLER).DeqReturn?
  {}

  lemma UrgentProgress(w0: World, w: World, shutdown: bool)
    requires QueueOk(w, Urgent) && w.pc.InUrgent? && Later(w0, w, Urgent) && Progress(w0, w)
    ensures Progress(w0, Poll(w, shutdown))
  {
    hide Later, QueueInv, Q.Apply, AllTaken;
    if SawNil(w.urgent.At(POLLER)) || SawNil(Poll(w, shutdown).urgent.At(POLLER)) {
      NilTakes(w0, w, shutdown, Urgent);
    }
  }

  lemma AsyncProgress(w0: World, w: World, shutdown: bool)
    requires QueueOk(w, Async) && QueueOk(w, Urgent) && w.pc.InAsync? && Progress(w0, w)
    requires Later(w0, w, Async)
    ensures Progress(w0, Poll(w, shutdown))
  {
    hide Later, QueueInv, Q.Apply, AllTaken;
    PollLater(w, shutdown, Urgent);
    TakenLater(w0, w, Poll(w, shutdown), Urgent);
    if SawNil(w.async.At(POLLER)) || SawNil(Poll(w, shutdown).async.At(POLLER)) {
      NilTakes(w0, w, shutdown, Async);
    }
  }

  lemma CallProgress(w0: World, w: World, shutdown: bool)
    requires QueueOk(w, Urgent) && QueueOk(w, Async) && Progress(w0, w)
    requires w.pc.CallUrgent? || w.pc.CallAsync? || w.pc.Storing?
    ensures Progress(w0, Poll(w, shutdown))
  {
    hide Later, RanInv, Q.Reachable, AllTaken, TakenOf, LogOf;
    PollLater(w, shutdown, Urgent);
    if !w.pc.CallUrgent? { TakenLater(w0, w, Poll(w, shutdown), Urgent); }
  }

  /** The poller holds the turn. */
  predicate Busy(pc: PollerPc) { pc.CallUrgent? || pc.InUrgent? || pc.CallAsync? || pc.InAsync? || pc.Storing? }

  /** What the poller sees of itself. */
  ghost predicate SamePoller(w: World, w': World, q: Queue) {
    w'.pc == w.pc && w'.ranAsync == w.ranAsync && w'.Get(q).At(POLLER) == w.Get(q).At(POLLER)
  }

  lemma StartStays(w: World, t: Q.Thread, p: Queue, task: Task, node: Q.NodeId, q: Queue)
    ensures SamePoller(w, Apply(w, StartTrigger(t, p, task, node)), q)
  {}

  lemma TriggerStays(w: World, t: Q.Thread, q: Queue)
    requires QueueOk(w, q) && t in w.triggers
    ensures SamePoller(w, Trigger(w, t), q)
  {
    hide Q.Reachable, RanInv, Q.Access, Q.Successor;
  }

  lemma OthersStay(w: World, a: Action, q: Queue)
    requires QueueOk(w, q) && !a.AdvancePoller? && !w.pc.Waiting?
    ensures SamePoller(w, Apply(w, a), q)
  {
    hide QueueInv, Trigger, Q.Apply;
    match a {
      case StartTrigger(t, p, task, node) => StartStays(w, t, p, task, node, q);
      case AdvanceTrigger(t) => if t in w.triggers { TriggerStays(w, t, q); }
      case Wait(_) =>
    }
  }

  lemma OthersProgress(w0: World, w: World, a: Action)
    requires QueueOk(w, Urgent) && QueueOk(w, Async) && !a.AdvancePoller? && Busy(w.pc) && Progress(w0, w)
    ensures Apply(w, a).pc == w.pc && Progress(w0, Apply(w, a))
  {
    hide Apply, QueueInv, AllTaken, SawNil;
    var w' := Apply(w, a);
    OthersStay(w, a, Urgent);
    OthersStay(w, a, Async);
    ApplyLater(w, a, Urgent);
    ApplyLater(w, a, Async);
    if AllTaken(w0, w, Urgent) { TakenLater(w0, w, w', Urgent); }
    if AllTaken(w0, w, Async) { TakenLater(w0, w, w', Async); }
  }

  /** A turn goes on, or begins. */
  lemma TurnStep(w0: World, w: World, a: Action)
    requires Inv(w) && Busy(Apply(w, a).pc)
    requires if Busy(w.pc) then InTurn(w0, w) else w0 == w
    ensures InTurn(w0, Apply(w, a)) && (Busy(w.pc) || w.pc.Reading?) && !Apply(w, a).pc.Reading?
  {
    hide Q.Apply, QueueInv, TokenInv, CoverInv, Progress, Later;
    var w' := Apply(w, a);
    ApplyLater(w, a, Urgent);
    ApplyLater(w, a, Async);
    if Busy(w.pc) {
      LaterTrans(w0, w, w', Urgent);
      LaterTrans(w0, w, w', Async);
      BusyProgress(w0, w, a);
    } else {
      TurnBegins(w, a);
    }
  }

  lemma BusyProgress(w0: World, w: World, a: Action)
    requires QueueOk(w, Urgent) && QueueOk(w, Async) && Busy(w.pc) && InTurn(w0, w)
    ensures Progress(w0, Apply(w, a))
  {
    hide QueueInv, Progress, Later, Poll, Trigger;
    if !a.AdvancePoller? { OthersProgress(w0, w, a); }
    else if w.pc.InUrgent? { UrgentProgress(w0, w, a.shutdown); }
    else if w.pc.InAsync? { AsyncProgress(w0, w, a.shutdown); }
    else { CallProgress(w0, w, a.shutdown); }
  }

  lemma TurnBegins(w: World, a: Action)
    requires !Busy(w.pc) && Busy(Apply(w, a).pc)
    ensures w.pc.Reading? && Progress(w, Apply(w, a))
  {
    hide Q.Apply;
  }

  /** The turn of the last state began at moment j. */
  ghost predicate BeganAt(actions: seq<Action>, j: nat) {
    && j < |actions|
    && Run(Init(), actions[..j]).pc.Reading?
    && (forall i :: j < i <= |actions| ==> !Run(Init(), actions[..i]).pc.Reading?)
    && InTurn(Run(Init(), actions[..j]), Run(Init(), actions))
  }

  lemma {:induction false} TurnOfRun(actions: seq<Action>) returns (j: nat)
    requires Busy(Run(Init(), actions).pc)
    ensures BeganAt(actions, j)
  {
    hide Inv, Apply, InTurn;
    NotBusyAtFirst();
    var n := |actions| - 1;
    var init, a := actions[..n], actions[n];
    var w := Run(Init(), init);
    RunKeepsInv(init);
    assert actions[..|actions|] == actions;
    if Busy(w.pc) {
      j := TurnOfRun(init);
      assert init[..j] == actions[..j];
      TurnStep(Run(Init(), init[..j]), w, a);
      forall i | j < i <= |actions| ensures !Run(Init(), actions[..i]).pc.Reading? {
        if i <= n { assert init[..i] == actions[..i]; }
      }
    } else {
      j := n;
      TurnStep(w, w, a);
    }
  }

  lemma NotBusyAtFirst()
    ensures !Busy(Run(Init(), []).pc)
  {}

  lemma TakenWasRun(w0: World, w: World, q: Queue)
    requires QueueOk(w, q) && !Inside(w.pc, q) && Later(w0, w, q) && AllTaken(w0, w, q)
    ensures LogOf(w0, q) <= w.Ran(q)
  {
    hide Q.Reachable, Q.Log, Q.TakenCount;
    assert w.Ran(q) + [] == w.Ran(q);
  }

  /** Among other threads: when the poller is about to clear the flag, it has run every urgent task that was linked when
      the turn began, and all other tasks that were, or exactly 256 of them in this turn; it never runs more. */
  lemma ChoresDone(actions: seq<Action>) returns (j: nat)
    requires Run(Init(), actions).pc.Storing?
    ensures j < |actions| && Run(Init(), actions[..j]).pc.Reading?
    ensures forall i :: j < i <= |actions| ==> !Run(Init(), actions[..i]).pc.Reading?
    ensures var w0, w := Run(Init(), actions[..j]), Run(Init(), actions);
            && LogOf(w0, Urgent) <= w.ranUrgent
            && |w.ranAsync| <= |w0.ranAsync| + 256
            && (LogOf(w0, Async) <= w.ranAsync || |w.ranAsync| == |w0.ranAsync| + 256)
  {
    hide Run, Later, AllTaken, QueueInv, TokenInv, CoverInv, LogOf;
    j := TurnOfRun(actions);
    RunKeepsInv(actions);
    var w0, w := Run(Init(), actions[..j]), Run(Init(), actions);
    TakenWasRun(w0, w, Urgent);
    if AllTaken(w0, w, Async) { TakenWasRun(w0, w, Async); }
  }
}
