/** Which fragment is on which connection, and in which order: core/server/server_c.go:67-112, 193-218 and
    core/connection.go:156-181, 313-359 over whole runs. */
module Wires {
  import opened Bytes
  import opened Command
  import opened Reply
  import opened Message
  import opened Sharding
  import opened Proxy
  import opened Runs

  // ----- what the actions say, without looking at any state

  /** The fragments of message m that the route gives to connection s, in its order. */
  function Routed(route: seq<(nat, nat)>, m: nat, s: nat): seq<FragId> {
    if route == [] then [] else
      var init, last := route[..|route| - 1], route[|route| - 1];
      Routed(init, m, s) + (if last.1 == s then [FragId(m, last.0)] else [])
  }

  /** How many replies connection s has brought, redirects included. */
  function Replied(acts: seq<Action>, s: nat): nat {
    if acts == [] then 0 else
      var a := acts[|acts| - 1];
      Replied(acts[..|acts| - 1], s) + (if a.Answer? && a.server == s then 1 else 0)
  }

  /** All fragments that connection s was ever given, in that order: by the route of a request, or by a redirect of the
      fragment whose turn it was on another connection. */
  function Given(acts: seq<Action>, s: nat): seq<FragId>
    decreases |acts|
  {
    if acts == [] then [] else
      var init, a := acts[..|acts| - 1], acts[|acts| - 1];
      match a
      case Request(m, _, _, route) => Given(init, s) + Routed(route, m, s)
      case Signal(_) => Given(init, s)
      case Answer(r, _, rtype, target, _) =>
        if Redirects(rtype) && target == Some(s) && Replied(init, r) < |Given(init, r)|
        then Given(init, s) + [Given(init, r)[Replied(init, r)]]
        else Given(init, s)
  }

  /** How many of them had been given when the connection last got its write signal. */
  function Written(acts: seq<Action>, s: nat): nat {
    if acts == [] then 0 else
      var init, a := acts[..|acts| - 1], acts[|acts| - 1];
      if a == Signal(s) then |Given(init, s)| else Written(init, s)
  }

  // ----- what a step does to the connections

  lemma {:induction false} DispatchQueues(conns: map<nat, Conn>, m: nat, route: seq<(nat, nat)>, s: nat)
    ensures var c := ConnOf(conns, s);
            ConnOf(Dispatch(conns, m, route), s) == Conn(c.inFrags, c.outFrags + Routed(route, m, s))
  {
    var c := ConnOf(conns, s);
    if route == [] {
      assert c.outFrags + [] == c.outFrags;
    } else {
      var init, last := route[..|route| - 1], route[|route| - 1];
      DispatchQueues(conns, m, init, s);
      var before, f := Routed(init, m, s), FragId(m, last.0);
      assert c.outFrags + before + [f] == c.outFrags + (before + [f]);
      assert Routed(init, m, s) + [] == Routed(init, m, s);
    }
  }

  /** What an answer about fragment f gives to connection s. */
  function Moved(a: Action, s: nat, f: FragId): seq<FragId>
    requires a.Answer?
  {
    if Redirects(a.rtype) && a.target == Some(s) then [f] else []
  }

  /** A request is queued behind what waits, a signal writes what waits, a reply takes the oldest fragment off the wire,
      and a redirect queues that fragment on the connection it leads to. */
  lemma StepQueues(st: State, a: Action, s: nat, maxLength: nat)
    requires Enabled(st, a) && Running(Step(st, a, maxLength))
    ensures a.Answer? ==> ConnOf(st.conns, a.server).inFrags != []
    ensures var c, c' := ConnOf(st.conns, s), ConnOf(Step(st, a, maxLength).conns, s);
            && (a.Request? ==> c' == Conn(c.inFrags, c.outFrags + Routed(a.route, a.msg, s)))
            && (a.Signal? ==> c' == if a.server == s then Conn(c.inFrags + c.outFrags, []) else c)
            && (a.Answer? ==> c'.inFrags == if a.server == s then c.inFrags[1..] else c.inFrags)
            && (a.Answer? ==> c'.outFrags == c.outFrags + Moved(a, s, ConnOf(st.conns, a.server).inFrags[0]))
  {
    hide Step, Enabled, Routed, Running;
    match a {
      case Request(m, _, _, route) => DispatchStep(st, a, s, maxLength);
      case Signal(_) => SignalStep(st, a, s, maxLength);
      case Answer(_, _, _, _, _) => AnswerStep(st, a, s, maxLength);
    }
  }

  lemma DispatchStep(st: State, a: Action, s: nat, maxLength: nat)
    requires Enabled(st, a) && a.Request?
    ensures var c := ConnOf(st.conns, s);
            ConnOf(Step(st, a, maxLength).conns, s) == Conn(c.inFrags, c.outFrags + Routed(a.route, a.msg, s))
  {
    hide Dispatch, NewMsg, Permutes, Forwardable, Routed;
    DispatchQueues(st.conns, a.msg, a.route, s);
  }

  lemma SignalStep(st: State, a: Action, s: nat, maxLength: nat)
    requires Enabled(st, a) && a.Signal?
    ensures var c := ConnOf(st.conns, s);
            ConnOf(Step(st, a, maxLength).conns, s) == if a.server == s then Conn(c.inFrags + c.outFrags, []) else c
  {}

  lemma PopQueue(conns: map<nat, Conn>, r: nat, s: nat)
    requires ConnOf(conns, r).inFrags != []
    ensures var c := ConnOf(conns, s);
            ConnOf(Pop(conns, r), s) == Conn(if r == s then c.inFrags[1..] else c.inFrags, c.outFrags)
  {}

  lemma PushQueue(conns: map<nat, Conn>, t: nat, f: FragId, s: nat)
    ensures var c := ConnOf(conns, s);
            ConnOf(Push(conns, t, f), s) == Conn(c.inFrags, c.outFrags + (if t == s then [f] else []))
  {
    var c := ConnOf(conns, s);
    assert c.outFrags + [] == c.outFrags;
  }

  lemma AnswerConns(st: State, a: Action, maxLength: nat)
    requires Enabled(st, a) && a.Answer? && Running(Step(st, a, maxLength))
    ensures ConnOf(st.conns, a.server).inFrags != []
    ensures var left := Pop(st.conns, a.server);
            Step(st, a, maxLength).conns == if Redirects(a.rtype) && a.target.Some?
                                            then Push(left, a.target.value, ConnOf(st.conns, a.server).inFrags[0])
                                            else left
  {
    hide Settle, OnReply, Released, Pop, Push, Permutes, Forwardable;
  }

  lemma AnswerStep(st: State, a: Action, s: nat, maxLength: nat)
    requires Enabled(st, a) && a.Answer? && Running(Step(st, a, maxLength))
    ensures ConnOf(st.conns, a.server).inFrags != []
    ensures var c, c' := ConnOf(st.conns, s), ConnOf(Step(st, a, maxLength).conns, s);
            && c'.inFrags == (if a.server == s then c.inFrags[1..] else c.inFrags)
            && c'.outFrags == c.outFrags + Moved(a, s, ConnOf(st.conns, a.server).inFrags[0])
  {
    hide Step, Enabled, Running, Pop, Push, ConnOf;
    AnswerConns(st, a, maxLength);
    PopQueue(st.conns, a.server, s);
    if Redirects(a.rtype) && a.target.Some? {
      PushQueue(Pop(st.conns, a.server), a.target.value, ConnOf(st.conns, a.server).inFrags[0], s);
    } else {
      assert ConnOf(st.conns, s).outFrags + [] == ConnOf(st.conns, s).outFrags;
    }
  }

  /** The route decides: a fragment goes to a connection exactly if the route says so. */
  lemma {:induction false} RoutedExactly(route: seq<(nat, nat)>, m: nat, s: nat, f: FragId)
    ensures f in Routed(route, m, s) <==> f.msg == m && (f.slot, s) in route
  {
    if route != [] {
      var init, last := route[..|route| - 1], route[|route| - 1];
      assert route == init + [last];
      RoutedExactly(init, m, s, f);
    }
  }

  // ----- every run

  /** Connection c is what the actions say of connection s. */
  ghost predicate AsGiven(acts: seq<Action>, s: nat, c: Conn) {
    var given, replied, written := Given(acts, s), Replied(acts, s), Written(acts, s);
    replied <= written <= |given| && c == Conn(given[replied..written], given[written..])
  }

  /** Fragments that are given behind the others wait behind the others. */
  lemma GivenMore(given: seq<FragId>, more: seq<FragId>, replied: nat, written: nat)
    requires replied <= written <= |given|
    ensures (given + more)[replied..written] == given[replied..written]
    ensures (given + more)[written..] == given[written..] + more
  {}

  lemma RequestAsGiven(acts: seq<Action>, s: nat, c: Conn)
    requires acts != [] && acts[|acts| - 1].Request? && AsGiven(acts[..|acts| - 1], s, c)
    ensures var a := acts[|acts| - 1]; AsGiven(acts, s, Conn(c.inFrags, c.outFrags + Routed(a.route, a.msg, s)))
  {
    hide Routed;
    var init, a := acts[..|acts| - 1], acts[|acts| - 1];
    GivenMore(Given(init, s), Routed(a.route, a.msg, s), Replied(init, s), Written(init, s));
  }

  lemma SignalAsGiven(acts: seq<Action>, s: nat, c: Conn)
    requires acts != [] && acts[|acts| - 1].Signal? && AsGiven(acts[..|acts| - 1], s, c)
    ensures AsGiven(acts, s, if acts[|acts| - 1].server == s then Conn(c.inFrags + c.outFrags, []) else c)
  {
    var init := acts[..|acts| - 1];
    var given, replied, written := Given(init, s), Replied(init, s), Written(init, s);
    assert given[replied..written] + given[written..] == given[replied..|given|];
  }

  lemma AnswerGives(acts: seq<Action>, s: nat, from: Conn)
    requires acts != [] && acts[|acts| - 1].Answer?
    requires AsGiven(acts[..|acts| - 1], acts[|acts| - 1].server, from) && from.inFrags != []
    ensures var init, a := acts[..|acts| - 1], acts[|acts| - 1];
            && Given(acts, s) == Given(init, s) + Moved(a, s, from.inFrags[0])
            && Replied(acts, s) == Replied(init, s) + (if a.server == s then 1 else 0)
            && Written(acts, s) == Written(init, s)
  {
    var init, a := acts[..|acts| - 1], acts[|acts| - 1];
    assert from.inFrags[0] == Given(init, a.server)[Replied(init, a.server)];
    assert Given(init, s) + [] == Given(init, s);
  }

  /** from is the connection of the reply, whose oldest fragment it is about. */
  lemma AnswerAsGiven(acts: seq<Action>, s: nat, c: Conn, c': Conn, from: Conn)
    requires acts != [] && acts[|acts| - 1].Answer? && AsGiven(acts[..|acts| - 1], s, c)
    requires AsGiven(acts[..|acts| - 1], acts[|acts| - 1].server, from) && from.inFrags != []
    requires var a := acts[|acts| - 1];
             && (a.server == s ==> from == c)
             && c'.inFrags == (if a.server == s then c.inFrags[1..] else c.inFrags)
             && c'.outFrags == c.outFrags + Moved(a, s, from.inFrags[0])
    ensures AsGiven(acts, s, c')
  {
    hide Given, Replied, Written, Moved;
    var init, a := acts[..|acts| - 1], acts[|acts| - 1];
    var given, replied, written := Given(init, s), Replied(init, s), Written(init, s);
    AnswerGives(acts, s, from);
    GivenMore(given, Moved(a, s, from.inFrags[0]), Replied(acts, s), written);
    if a.server == s { assert given[replied..written][1..] == given[replied + 1..written]; }
  }

  /** In every run that goes on, the fragments on the wire of a connection are those it was given and has written, in
      the order in which it was given them and without those it has replied to; the others wait in the same order. So
      the k-th reply of a connection is taken for the k-th fragment it was given. */
  lemma {:induction false} QueuesExactly(acts: seq<Action>, s: nat, maxLength: nat)
    requires Legal(acts, maxLength) && Running(Run(acts, maxLength))
    ensures AsGiven(acts, s, ConnOf(Run(acts, maxLength).conns, s))
    decreases |acts|
  {
    hide Enabled, Step, AsGiven;
    if acts == [] {
      NothingGiven(s);
    } else {
      var init, a := acts[..|acts| - 1], acts[|acts| - 1];
      var st := Run(init, maxLength);
      WasRunning(st, a);
      QueuesExactly(init, s, maxLength);
      StepQueues(st, a, s, maxLength);
      match a {
        case Request(_, _, _, _) => RequestAsGiven(acts, s, ConnOf(st.conns, s));
        case Signal(_) => SignalAsGiven(acts, s, ConnOf(st.conns, s));
        case Answer(r, _, _, _, _) =>
          QueuesExactly(init, r, maxLength);
          AnswerEnabled(st, a);
          AnswerAsGiven(acts, s, ConnOf(st.conns, s), ConnOf(Run(acts, maxLength).conns, s), ConnOf(st.conns, r));
      }
    }
  }

  lemma NothingGiven(s: nat)
    ensures AsGiven([], s, ConnOf(Init().conns, s))
  {}

  lemma WasRunning(st: State, a: Action)
    requires Enabled(st, a)
    ensures Running(st)
  {}
}
