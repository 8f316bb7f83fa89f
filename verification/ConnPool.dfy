/** The rotating connection pool of core/redis_pool.go:69-107. */
module ConnPool {
  import opened Bytes
  import opened IntrusiveQueue

  /** The connections of a pool, the next one to be used first. */
  type Conns = seq<nat>

  /** What Get answers and what it leaves: live are the connections that are open, dialed is what Dial would give. */
  function GetFrom(conns: Conns, maxActive: nat, live: set<nat>, dialed: Option<nat>): (Option<nat>, Conns) {
    if |conns| < maxActive then Dialed(conns, dialed) else Rotate(conns, live, dialed)
  }

  function Dialed(conns: Conns, dialed: Option<nat>): (Option<nat>, Conns) {
    if dialed.None? then (None, conns) else (dialed, conns + [dialed.value])
  }

  /** Closed connections are thrown away until an open one is found, which goes to the end. */
  function Rotate(conns: Conns, live: set<nat>, dialed: Option<nat>): (Option<nat>, Conns) {
    if conns == [] then Dialed([], dialed)
    else if conns[0] in live then (Some(conns[0]), conns[1..] + [conns[0]])
    else Rotate(conns[1..], live, dialed)
  }

  function Ids(ns: seq<Node>): (ids: seq<nat>)
    ensures |ids| == |ns| && forall i :: 0 <= i < |ns| ==> ids[i] == ns[i].id
  {
    seq(|ns|, i requires 0 <= i < |ns| => ns[i].id)
  }

  class Pool {
    const maxActive: nat
    const active: Queue
    var isClosed: bool
    ghost var repr: set<Node>

    ghost predicate Valid()
      reads this, active, repr
    {
      && (forall n :: n in active.contents ==> n in repr)
      && active.Valid()
    }

    ghost function Conns(): Conns
      reads this, active
    {
      Ids(active.contents)
    }

    constructor (maxActive: nat)
      ensures Valid() && !isClosed && Conns() == [] && fresh(active)
    {
      this.maxActive := maxActive;
      active := new Queue();
      isClosed := false;
      repr := {};
    }

    method Get(live: set<nat>, dialed: Option<nat>) returns (c: Option<nat>)
      requires Valid()
      modifies this, active, repr
      ensures Valid() && isClosed == old(isClosed)
      ensures if isClosed then c == None && Conns() == old(Conns())
              else (c, Conns()) == GetFrom(old(Conns()), maxActive, live, dialed)
    {
      hide Ids, Queue.Valid;
      if isClosed { return None; }
      CountIsLength();
      if active.count < maxActive {
        c := Dial(dialed);
        return;
      }
      ghost var was := Conns();
      while active.count >= 1
        invariant Valid() && isClosed == old(isClosed) && repr == old(repr) && active.count == |Conns()|
        invariant Rotate(Conns(), live, dialed) == Rotate(was, live, dialed)
        decreases |Conns()|
      {
        var pc := PopBack();
        if pc.id !in live { continue; }
        PushFront(pc);
        return Some(pc.id);
      }
      c := Dial(dialed);
    }

    lemma CountIsLength()
      requires Valid()
      ensures active.count == |Conns()|
    {}

    method PopBack() returns (pc: Node)
      requires Valid() && Conns() != []
      modifies this, active, repr
      ensures Valid() && isClosed == old(isClosed) && repr == old(repr) && pc in repr && pc !in active.contents
      ensures pc.id == old(Conns())[0] && Conns() == old(Conns())[1..] && active.count == |Conns()|
    {
      pc := active.head;
      ghost var before := active.contents;
      active.PopHead();
      assert Ids(before) == [pc.id] + Ids(active.contents);
    }

    method PushFront(pc: Node)
      requires Valid() && pc !in active.contents
      modifies this, active, repr, pc
      ensures Valid() && isClosed == old(isClosed) && repr == old(repr) + {pc}
      ensures Conns() == old(Conns()) + [pc.id]
    {
      ghost var before := active.contents;
      active.PushTail(pc);
      repr := repr + {pc};
      assert Ids(before + [pc]) == Ids(before) + [pc.id];
    }

    method Dial(dialed: Option<nat>) returns (c: Option<nat>)
      requires Valid()
      modifies this, active, repr
      ensures Valid() && isClosed == old(isClosed)
      ensures (c, Conns()) == Dialed(old(Conns()), dialed)
    {
      if dialed.None? { return None; }
      var pc := new Node(dialed.value);
      PushFront(pc);
      c := dialed;
    }
  }

  // ----- what the pool promises

  /** Get returns an open connection or none, and never more connections than allowed are kept. */
  lemma {:induction false} RotateSound(conns: Conns, live: set<nat>, dialed: Option<nat>)
    ensures var (c, conns') := Rotate(conns, live, dialed);
            && (c.Some? ==> c.value in live || c == dialed)
            && (|conns'| <= |conns| || |conns'| == 1)
            && (c.Some? ==> c.value in conns')
    ensures Rotate(conns, live, dialed).0.None? <==> dialed.None? && forall c :: c in conns ==> c !in live
  {
    if conns != [] && conns[0] !in live { RotateSound(conns[1..], live, dialed); }
  }

  lemma GetSound(conns: Conns, maxActive: nat, live: set<nat>, dialed: Option<nat>)
    requires 1 <= maxActive && |conns| <= maxActive && (dialed.Some? ==> dialed.value in live)
    ensures var (c, conns') := GetFrom(conns, maxActive, live, dialed);
            |conns'| <= maxActive && (c.Some? ==> c.value in live && c.value in conns')
  {
    RotateSound(conns, live, dialed);
  }

  /** The answers of n calls in a row to a full pool. */
  function Answers(conns: Conns, maxActive: nat, live: set<nat>, n: nat): (seq<Option<nat>>, Conns) {
    if n == 0 then ([], conns) else
      var (before, now) := Answers(conns, maxActive, live, n - 1);
      var (c, next) := GetFrom(now, maxActive, live, None);
      (before + [c], next)
  }

  function Somes(conns: Conns): (r: seq<Option<nat>>)
    ensures |r| == |conns| && forall i :: 0 <= i < |conns| ==> r[i] == Some(conns[i])
  {
    seq(|conns|, i requires 0 <= i < |conns| => Some(conns[i]))
  }

  lemma {:induction false} RotationPrefix(conns: Conns, maxActive: nat, live: set<nat>, k: nat)
    requires |conns| == maxActive && (forall c :: c in conns ==> c in live) && k <= |conns|
    ensures Answers(conns, maxActive, live, k) == (Somes(conns[..k]), conns[k..] + conns[..k])
  {
    if k == 0 {
      assert Somes(conns[..0]) == [] && conns[0..] + conns[..0] == conns;
    } else {
      RotationPrefix(conns, maxActive, live, k - 1);
      RotateOnce(conns, live, k - 1);
      assert Somes(conns[..k]) == Somes(conns[..k - 1]) + [Some(conns[k - 1])];
    }
  }

  lemma RotateOnce(conns: Conns, live: set<nat>, k: nat)
    requires k < |conns| && conns[k] in live
    ensures Rotate(conns[k..] + conns[..k], live, None) == (Some(conns[k]), conns[k + 1..] + conns[..k + 1])
  {
    var now := conns[k..] + conns[..k];
    assert now[0] == conns[k] && now[1..] + [now[0]] == conns[k + 1..] + conns[..k + 1];
  }

  /** While the connections of a full pool stay open, as many calls as it has connections return each of them once,
      in the same order every time. */
  lemma Rotation(conns: Conns, maxActive: nat, live: set<nat>)
    requires |conns| == maxActive && forall c :: c in conns ==> c in live
    ensures Answers(conns, maxActive, live, maxActive) == (Somes(conns), conns)
  {
    RotationPrefix(conns, maxActive, live, maxActive);
    assert conns[..maxActive] == conns && conns[maxActive..] + conns[..maxActive] == conns;
  }

  /** The pool after Gets that each could dial. */
  function Filled(conns: Conns, maxActive: nat, live: set<nat>, dials: seq<nat>): Conns {
    if dials == [] then conns else
      GetFrom(Filled(conns, maxActive, live, dials[..|dials| - 1]), maxActive, live, Some(dials[|dials| - 1])).1
  }

  /** A pool that starts empty takes a new connection at every Get until it is full. */
  lemma {:induction false} FillsUp(maxActive: nat, live: set<nat>, dials: seq<nat>)
    requires |dials| <= maxActive
    ensures Filled([], maxActive, live, dials) == dials
  {
    if dials != [] {
      FillsUp(maxActive, live, dials[..|dials| - 1]);
      assert dials == dials[..|dials| - 1] + [dials[|dials| - 1]];
    }
  }

  /** After that it keeps the same connections while they stay open. */
  lemma {:induction false} StaysFull(maxActive: nat, live: set<nat>, dials: seq<nat>)
    requires 1 <= maxActive <= |dials| && forall c :: c in dials ==> c in live
    ensures var conns := Filled([], maxActive, live, dials);
            |conns| == maxActive && multiset(conns) == multiset(dials[..maxActive])
  {
    hide Rotate;
    if |dials| == maxActive {
      FillsUp(maxActive, live, dials);
      assert dials[..maxActive] == dials;
    } else {
      var init, last := dials[..|dials| - 1], dials[|dials| - 1];
      StaysFull(maxActive, live, init);
      assert init[..maxActive] == dials[..maxActive];
      var now := Filled([], maxActive, live, init);
      IsOneOf(now, dials[..maxActive]);
      RotatesOne(now, live, Some(last));
    }
  }

  lemma IsOneOf(now: Conns, some: Conns)
    requires now != [] && multiset(now) == multiset(some)
    ensures now[0] in some
  {
    assert now[0] in multiset(now);
  }

  lemma RotatesOne(now: Conns, live: set<nat>, dialed: Option<nat>)
    requires now != [] && now[0] in live
    ensures var next := Rotate(now, live, dialed).1; |next| == |now| && multiset(next) == multiset(now)
  {
    assert now == [now[0]] + now[1..];
  }
}
