/** How a run of the protocol can end: by a panic, or by the shutdown after a reply about authentication. */
module Endings {
  import opened Bytes
  import opened Slot
  import opened Command
  import opened Reply
  import opened Mget
  import opened Message
  import opened Answers
  import opened Sharding
  import opened Proxy
  import opened Runs
  import CommandStream

  // ----- the exact conditions

  /** A redirect is followed for a fragment whose message was released to its client, and the message object has not
      been taken into use again; or a handler panics on the reply of an open fragment. */
  ghost predicate Fatal(st: State, a: Action, maxLength: nat) {
    && a.Answer? && ConnOf(st.conns, a.server).inFrags != []
    && var f := ConnOf(st.conns, a.server).inFrags[0];
       if Redirects(a.rtype) then a.target.Some? && Released(st, f.msg) && !a.recycled
       else Open(st.msgs, f) && Panics(st.msgs[f.msg], f.slot, a.body, maxLength)
  }

  /** The reply b of slot s finishes the message. */
  predicate Finishes(m: MsgState, s: nat, b: Bytes, maxLength: nat) {
    |b| > maxLength || !Splits(m.kind) || OnlyOpen(m, s) || (m.kind.Mget? && Listed(b) == [])
  }

  /** A reply about authentication finishes the message of an open fragment. */
  ghost predicate ShutsDown(st: State, a: Action, maxLength: nat) {
    && a.Answer? && ConnOf(st.conns, a.server).inFrags != [] && EndsEngine(a.rtype)
    && var f := ConnOf(st.conns, a.server).inFrags[0];
       Open(st.msgs, f) && Finishes(st.msgs[f.msg], f.slot, a.body, maxLength)
  }

  lemma FinishesExactly(m: MsgState, s: nat, b: Bytes, t: ReplyType, maxLength: nat)
    requires MsgInv(m, maxLength) && s in m.body && !m.body[s].done && !Panics(m, s, b, maxLength)
    ensures OnReply(m, s, b, t, maxLength).Some?
    ensures OnReply(m, s, b, t, maxLength).value.done <==> Finishes(m, s, b, maxLength)
  {
    hide ReplyInv, ParseItems, Merge, ItemsOf, AllOk, DelReply, DelCount, Missing, OnlyOpen, GroupBy, NoCount,
      DoneSlots, Panics;
    PanicsExactly(m, s, b, t, maxLength);
    OpenIsNotDone(m, s, maxLength);
    OnlyOpenIsLast(m, s, b, t, maxLength);
  }

  lemma CompleteEnds(st: State, s: nat, f: FragId, body: Bytes, rtype: ReplyType, maxLength: nat)
    requires Running(st) && ConnOf(st.conns, s).inFrags != [] && Open(st.msgs, f) && MsgInv(st.msgs[f.msg], maxLength)
    ensures var st' := Complete(st, s, f, body, rtype, maxLength);
            && (st'.crashed <==> Panics(st.msgs[f.msg], f.slot, body, maxLength))
            && (st'.stopped <==> !st'.crashed && EndsEngine(rtype) && Finishes(st.msgs[f.msg], f.slot, body, maxLength))
  {
    hide MsgInv, OnReply, Panics, Finishes, Settle, Pop;
    PanicsExactly(st.msgs[f.msg], f.slot, body, rtype, maxLength);
    if !Panics(st.msgs[f.msg], f.slot, body, maxLength) {
      FinishesExactly(st.msgs[f.msg], f.slot, body, rtype, maxLength);
    }
  }

  lemma StepEnds(st: State, a: Action, maxLength: nat)
    requires Enabled(st, a) && Inv(st, maxLength)
    ensures Step(st, a, maxLength).crashed <==> Fatal(st, a, maxLength)
    ensures Step(st, a, maxLength).stopped <==> !Fatal(st, a, maxLength) && ShutsDown(st, a, maxLength)
  {
    hide PlaceInv, ClientsInv, MsgInv, Complete, Panics, Finishes, Pop, Push, Flush, Dispatch, NewMsg, Permutes,
      Forwardable, Released;
    if a.Answer? {
      var f := ConnOf(st.conns, a.server).inFrags[0];
      if Open(st.msgs, f) { CompleteEnds(st, a.server, f, a.body, a.rtype, maxLength); }
    }
  }

  /** Up to its last action a run that goes on has not ended. */
  lemma {:induction false} RunningBefore(acts: seq<Action>, i: nat, maxLength: nat)
    requires Legal(acts, maxLength) && i < |acts|
    ensures Enabled(Run(acts[..i], maxLength), acts[i])
    decreases |acts|
  {
    hide Enabled, Run;
    var init := acts[..|acts| - 1];
    if i < |init| {
      assert init[..i] == acts[..i];
      RunningBefore(init, i, maxLength);
    }
  }

  lemma LastStep(acts: seq<Action>, maxLength: nat)
    requires Legal(acts, maxLength) && acts != []
    ensures var st, a := Run(acts[..|acts| - 1], maxLength), acts[|acts| - 1];
            Enabled(st, a) && Run(acts, maxLength) == Step(st, a, maxLength)
  {
    hide Enabled, Step;
  }

  lemma {:induction false} LegalPrefix(acts: seq<Action>, i: nat, maxLength: nat)
    requires Legal(acts, maxLength) && i <= |acts|
    ensures Legal(acts[..i], maxLength)
    decreases |acts|
  {
    hide Enabled, Run;
    if i < |acts| {
      assert acts[..|acts| - 1][..i] == acts[..i];
      LegalPrefix(acts[..|acts| - 1], i, maxLength);
    } else {
      assert acts[..i] == acts;
    }
  }

  /** A run has crashed if and only if one of its actions was fatal when it came, and that was its last action. */
  lemma CrashesExactly(acts: seq<Action>, maxLength: nat)
    requires Legal(acts, maxLength)
    ensures Run(acts, maxLength).crashed <==>
            exists i :: 0 <= i < |acts| && Fatal(Run(acts[..i], maxLength), acts[i], maxLength)
    ensures forall i :: 0 <= i < |acts| && Fatal(Run(acts[..i], maxLength), acts[i], maxLength) ==> i == |acts| - 1
  {
    hide Run, Legal, Fatal, Step, Enabled;
    if acts == [] { NothingCrashed(maxLength); }
    forall i | 0 <= i < |acts| && Fatal(Run(acts[..i], maxLength), acts[i], maxLength)
      ensures i == |acts| - 1 && Run(acts, maxLength).crashed
    {
      FatalIsLast(acts, i, maxLength);
    }
    if acts != [] {
      var init := acts[..|acts| - 1];
      LastStep(acts, maxLength);
      RunKeepsInv(init, maxLength);
      StepEnds(Run(init, maxLength), acts[|acts| - 1], maxLength);
    }
  }

  lemma NothingCrashed(maxLength: nat)
    ensures !Run([], maxLength).crashed
  {}

  lemma FatalIsLast(acts: seq<Action>, i: nat, maxLength: nat)
    requires Legal(acts, maxLength) && i < |acts| && Fatal(Run(acts[..i], maxLength), acts[i], maxLength)
    ensures i == |acts| - 1 && Run(acts, maxLength).crashed
  {
    hide Run, Legal, Fatal, Step, Enabled;
    LegalPrefix(acts, i + 1, maxLength);
    assert acts[..i + 1][..i] == acts[..i];
    LastStep(acts[..i + 1], maxLength);
    RunKeepsInv(acts[..i], maxLength);
    StepEnds(Run(acts[..i], maxLength), acts[i], maxLength);
    if i + 1 < |acts| {
      RunningBefore(acts, i + 1, maxLength);
      OnlyRunning(Run(acts[..i + 1], maxLength), acts[i + 1]);
    } else {
      assert acts[..i + 1] == acts;
    }
  }

  lemma OnlyRunning(st: State, a: Action)
    requires Enabled(st, a)
    ensures Running(st)
  {}

  /** The engine has shut down if and only if the last reply was one about authentication that finished a message. */
  lemma StopsExactly(acts: seq<Action>, maxLength: nat)
    requires Legal(acts, maxLength)
    ensures Run(acts, maxLength).stopped <==>
            && acts != []
            && var st, a := Run(acts[..|acts| - 1], maxLength), acts[|acts| - 1];
               !Fatal(st, a, maxLength) && ShutsDown(st, a, maxLength)
  {
    hide Run, Legal, Fatal, ShutsDown, Step, Enabled;
    if acts == [] {
      NothingStopped(maxLength);
    } else {
      LastStep(acts, maxLength);
      RunKeepsInv(acts[..|acts| - 1], maxLength);
      StepEnds(Run(acts[..|acts| - 1], maxLength), acts[|acts| - 1], maxLength);
    }
  }

  lemma NothingStopped(maxLength: nat)
    ensures !Run([], maxLength).stopped
  {}

  // ----- servers that behave

  /** No redirect is fatal, and every reply within the limit is one that is handled by itself, whatever its siblings. */
  ghost predicate Tame(st: State, a: Action, maxLength: nat) {
    a.Answer? && ConnOf(st.conns, a.server).inFrags != [] ==>
      var f := ConnOf(st.conns, a.server).inFrags[0];
      if Redirects(a.rtype) then a.target.None? || !Released(st, f.msg) || a.recycled
      else Open(st.msgs, f) && |a.body| <= maxLength ==> Handled(st.msgs[f.msg], f.slot, a.body)
  }

  ghost predicate TameRun(acts: seq<Action>, maxLength: nat) {
    acts == [] || (TameRun(acts[..|acts| - 1], maxLength)
                   && Tame(Run(acts[..|acts| - 1], maxLength), acts[|acts| - 1], maxLength))
  }

  ghost predicate AllHandled(msgs: map<nat, MsgState>) { forall m :: m in msgs ==> HandledSoFar(msgs[m]) }

  /** A redirect is never fatal while its fragment still waits for a reply. */
  lemma OpenNotReleased(st: State, f: FragId, maxLength: nat)
    requires Inv(st, maxLength) && Open(st.msgs, f)
    ensures !Released(st, f.msg)
  {
    hide PlaceInv, MsgInv, Distinct, Bodies, AllDoneIn;
    var m := st.msgs[f.msg];
    assert ClientInv(st.msgs, m.owner, ClientOf(st.clients, m.owner));
    OpenIsNotDone(m, f.slot, maxLength);
  }

  lemma NewHandled(c: nat, req: Command.Msg)
    ensures HandledSoFar(NewMsg(c, req))
  {}

  lemma AnswerTame(st: State, a: Action, maxLength: nat)
    requires Inv(st, maxLength) && AllHandled(st.msgs) && Running(st) && a.Answer? && Tame(st, a, maxLength)
    requires ConnOf(st.conns, a.server).inFrags != []
    ensures var st' := OnAnswer(st, a.server, a.body, a.rtype, a.target, a.recycled, maxLength);
            !st'.crashed && AllHandled(st'.msgs)
  {
    hide PlaceInv, ClientsInv, MsgInv, OnReply, HandledSoFar, Handled, Settle, Pop, Push, Released;
    var f := ConnOf(st.conns, a.server).inFrags[0];
    if Open(st.msgs, f) && !Redirects(a.rtype) {
      NoPanic(st.msgs[f.msg], f.slot, a.body, a.rtype, maxLength);
    }
  }

  lemma StepTame(st: State, a: Action, maxLength: nat)
    requires Inv(st, maxLength) && AllHandled(st.msgs) && Enabled(st, a) && Tame(st, a, maxLength)
    ensures !Step(st, a, maxLength).crashed && AllHandled(Step(st, a, maxLength).msgs)
  {
    hide Inv, Tame, HandledSoFar, OnAnswer, NewMsg, Dispatch, Flush, Forwardable, Permutes;
    if a.Answer? { AnswerTame(st, a, maxLength); }
    if a.Request? { NewHandled(a.client, a.req); }
  }

  /** While each reply is handled by itself no handler panics, in any interleaving and across any redirects. */
  lemma {:induction false} NoCrash(acts: seq<Action>, maxLength: nat)
    requires TameRun(acts, maxLength)
    ensures !Run(acts, maxLength).crashed && AllHandled(Run(acts, maxLength).msgs)
  {
    hide Enabled, Step, Tame, HandledSoFar;
    if acts != [] {
      var init, a := acts[..|acts| - 1], acts[|acts| - 1];
      NoCrash(init, maxLength);
      RunKeepsInv(init, maxLength);
      var st := Run(init, maxLength);
      if Enabled(st, a) { StepTame(st, a, maxLength); }
    }
  }

  // ----- a run that crashes

  /** The request comes out of the client decoder, and the reply and its type out of the reply decoder. */
  ghost predicate Genuine(a: Action, maxLength: nat) {
    match a
    case Request(_, _, req, _) => exists b :: Decode(b, maxLength).Message? && Decode(b, maxLength).msg == req
    case Signal(_) => true
    case Answer(_, body, rtype, _, _) => ReadReply(body, 0) == Ok(rtype, |body|)
  }

  /** A decoded reply is followed as a redirect exactly if it starts with one of two words, and is about authentication
      exactly if it starts with one of four texts. */
  lemma DecodedReplies(a: Action, maxLength: nat)
    requires a.Answer? && Genuine(a, maxLength)
    ensures Redirects(a.rtype) <==> "-MOVED" <= a.body || "-ASK" <= a.body
    ensures EndsEngine(a.rtype) <==>
              || "-NOAUTH Authentication required" <= a.body
              || "-ERR invalid password" <= a.body
              || "-ERR Client sent AUTH, " + "but no password is set" <= a.body
              || "-ERR AUTH <password> called " + "without any password configured " + "for the default user." <= a.body
  {
    hide ReadReply;
    ReplyWords(a.body);
    AuthTexts(a.body);
  }

  /** On a reply that was decoded the DEL handler never panics. */
  lemma GenuineDelIsSafe(m: MsgState, s: nat, a: Action, maxLength: nat)
    requires m.kind.Del? && a.Answer? && Genuine(a, maxLength)
    ensures !Panics(m, s, a.body, maxLength)
  {
    hide Missing, OnlyOpen, NoCount;
    assert ReadReply(a.body, 0).pos >= 3;
  }

  lemma RunSnoc(acts: seq<Action>, a: Action, maxLength: nat)
    requires Legal(acts, maxLength) && Enabled(Run(acts, maxLength), a)
    ensures Run(acts + [a], maxLength) == Step(Run(acts, maxLength), a, maxLength) && Legal(acts + [a], maxLength)
  {
    hide Enabled, Step;
    assert (acts + [a])[..|acts|] == acts;
  }

  lemma EncodedIsGenuine(s: nat, v: Value, target: Option<nat>, maxLength: nat)
    requires WellFormed(v)
    ensures Genuine(Answer(s, Encode(v), TypeOf(v), target, false), maxLength)
  {
    hide ReadReply, Encode, Lies;
    LiesIsSlice(Encode(v), 0, Encode(v));
    assert Encode(v)[0..|Encode(v)|] == Encode(v);
    ReplyLies(Encode(v), 0, v);
  }

  /** MSET of two keys. */
  function MsetOf(k1: Bytes, v1: Bytes, k2: Bytes, v2: Bytes): seq<Bytes> { ["mset", k1, v1, k2, v2] }

  lemma RequestIsGenuine(c: seq<Bytes>, m: nat, client: nat, route: seq<(nat, nat)>, maxLength: nat)
    requires CommandStream.Sendable(c) && |EncodeCommand(c)| <= maxLength
    ensures Genuine(Request(m, client, CommandStream.MsgOf(c), route), maxLength)
  {
    hide Decode, EncodeCommand, CommandStream.MsgOf;
    var e := EncodeCommand(c);
    assert e + [] == e;
    CommandStream.DecodeWithin(e, [], c, [], maxLength);
  }

  lemma TwoGroups<T>(a: T, b: T, slot: T -> nat)
    ensures GroupBy([a, b], slot).Keys == {slot(a), slot(b)}
  {
    var xs := [a, b];
    assert xs[..1] == [a] && [a][..0] == [];
    assert GroupBy([a], slot) == Join(map[], slot(a), a);
  }

  lemma MsetSlots(k1: Bytes, v1: Bytes, k2: Bytes, v2: Bytes)
    ensures var req := CommandStream.MsgOf(MsetOf(k1, v1, k2, v2));
            req.kind == Mset && req.body.Keys == {Hash(k1), Hash(k2)}
  {
    hide Hash, GroupBy, EncodeCommand, Firsts;
    var c := MsetOf(k1, v1, k2, v2);
    LowerNames();
    assert c[1..] == [k1, v1, k2, v2] && [k1, v1, k2, v2][2..] == [k2, v2] && [k2, v2][2..] == [];
    assert Pairs(c[1..]) == [(k1, v1), (k2, v2)];
    TwoGroups((k1, v1), (k2, v2), PairSlot);
  }

  function MgetOf(k1: Bytes, k2: Bytes): seq<Bytes> { ["mget", k1, k2] }

  lemma MgetSlots(k1: Bytes, k2: Bytes)
    ensures var req := CommandStream.MsgOf(MgetOf(k1, k2));
            req.kind == Mget && req.body.Keys == {Hash(k1), Hash(k2)} && Forwardable(req)
  {
    hide Hash, GroupBy, EncodeCommand, Firsts, Forwardable;
    var c := MgetOf(k1, k2);
    LowerNames();
    assert c[1..] == [k1, k2];
    TwoGroups(k1, k2, Hash);
    MadeForwardable(Mget, c[1..], EncodeCommand(CommandStream.LowerName(c)));
  }

  lemma RouteSnoc(conns: map<nat, Conn>, m: nat, route: seq<(nat, nat)>, p: (nat, nat))
    ensures Slots(route + [p]) == Slots(route) + [p.0]
    ensures Dispatch(conns, m, route + [p]) == Push(Dispatch(conns, m, route), p.1, FragId(m, p.0))
  {
    hide Push;
    assert (route + [p])[..|route|] == route;
  }

  lemma RouteNone(conns: map<nat, Conn>, m: nat)
    ensures Slots([]) == [] && Dispatch(conns, m, []) == conns
  {}

  lemma TwoPushes(s1: nat, s2: nat)
    ensures Push(Push(map[], 1, FragId(0, s1)), 2, FragId(0, s2))
         == map[1 := Conn([], [FragId(0, s1)]), 2 := Conn([], [FragId(0, s2)])]
  {
    assert [] + [FragId(0, s1)] == [FragId(0, s1)] && [] + [FragId(0, s2)] == [FragId(0, s2)];
  }

  lemma TwoDistinct<T>(s1: nat, s2: nat, body: map<nat, T>)
    requires s1 != s2 && body.Keys == {s1, s2}
    ensures Permutes([s1, s2], body)
  {
    assert Distinct([s1]) by { assert [s1][..0] == []; }
    assert [s1, s2][..1] == [s1];
    assert Elements<nat>([s1, s2]) == {s1, s2};
  }

  lemma RoutedApart<T>(s1: nat, s2: nat, body: map<nat, T>) returns (route: seq<(nat, nat)>)
    requires s1 != s2 && body.Keys == {s1, s2}
    ensures Permutes(Slots(route), body)
    ensures Dispatch(map[], 0, route) == map[1 := Conn([], [FragId(0, s1)]), 2 := Conn([], [FragId(0, s2)])]
  {
    hide Slots, Dispatch, Push, Permutes;
    var none: seq<(nat, nat)>, one: seq<(nat, nat)> := [], [(s1, 1)];
    route := [(s1, 1), (s2, 2)];
    RouteNone(map[], 0);
    RouteSnoc(map[], 0, none, (s1, 1));
    RouteSnoc(map[], 0, one, (s2, 2));
    assert none + [(s1, 1)] == one && one + [(s2, 2)] == route;
    assert Slots(one) == [s1];
    assert Slots(route) == [s1, s2];
    TwoPushes(s1, s2);
    TwoDistinct(s1, s2, body);
  }

  /** A request with two fragments is on the wire of two connections. */
  lemma Dispatched(req: Command.Msg, s1: nat, s2: nat, maxLength: nat) returns (acts: seq<Action>)
    requires Forwardable(req) && s1 != s2 && req.body.Keys == {s1, s2}
    ensures Legal(acts, maxLength) && Running(Run(acts, maxLength))
    ensures |acts| == 3 && acts[0].Request? && acts[0] == Request(0, 0, req, acts[0].route)
    ensures acts[1..] == [Signal(1), Signal(2)]
    ensures var st := Run(acts, maxLength);
            && st.msgs == map[0 := NewMsg(0, req)]
            && ClientOf(st.clients, 0) == Client([0], [0], [], [], false)
            && ConnOf(st.conns, 1) == Conn([FragId(0, s1)], []) && ConnOf(st.conns, 2) == Conn([FragId(0, s2)], [])
  {
    hide Dispatch, Slots, Permutes, Forwardable, NewMsg;
    var route := RoutedApart(s1, s2, req.body);
    var a := Request(0, 0, req, route);
    RunSnoc([], a, maxLength);
    RunSnoc([a], Signal(1), maxLength);
    RunSnoc([a] + [Signal(1)], Signal(2), maxLength);
    acts := [a] + [Signal(1)] + [Signal(2)];
  }

  /** A well-formed reply over the limit, of a type that neither redirects nor shuts the engine down. */
  ghost predicate TooLong(v: Value, maxLength: nat) {
    WellFormed(v) && |Encode(v)| > maxLength && !Redirects(TypeOf(v)) && !EndsEngine(TypeOf(v))
  }

  /** A status line and the value of one key, both over the limit, and a redirect. */
  function LongStatus(maxLength: nat): Value { Status(seq(maxLength, i => 'x')) }

  function LongArray(maxLength: nat): Value { Array([Bulk(seq(maxLength, i => 'x'))]) }

  const MOVED := Failure("MOVED 0 b:1")

  lemma LongStatusFacts(maxLength: nat)
    ensures TooLong(LongStatus(maxLength), maxLength)
  {}

  lemma LongArrayFacts(maxLength: nat)
    requires maxLength <= MAX_INT
    ensures TooLong(LongArray(maxLength), maxLength)
  {
    var item := Bulk(seq(maxLength, i => 'x'));
    assert [item][1..] == [];
    assert |Encode(item)| > maxLength;
    assert EncodeAll([item]) == Encode(item) + EncodeAll([item][1..]);
  }

  lemma MovedFacts()
    ensures WellFormed(MOVED) && Redirects(TypeOf(MOVED))
  {
    var h: Bytes := "-MOVED 0 b:1";
    assert Header(MOVED) == h;
    assert h[1] == 'M';
    assert "-MOVED" <= h;
  }

  /** The reply over the limit finishes and releases the message while its other fragment is still on the wire. */
  lemma LargeReleases(st: State, s1: nat, s2: nat, req: Command.Msg, v: Value, maxLength: nat)
    requires Running(st) && Forwardable(req) && s1 != s2 && req.body.Keys == {s1, s2} && TooLong(v, maxLength)
    requires st.msgs == map[0 := NewMsg(0, req)]
    requires ClientOf(st.clients, 0) == Client([0], [0], [], [], false)
    requires ConnOf(st.conns, 1) == Conn([FragId(0, s1)], []) && ConnOf(st.conns, 2) == Conn([FragId(0, s2)], [])
    ensures var a := Answer(1, Encode(v), TypeOf(v), None, false);
            && Enabled(st, a)
            && var st' := Step(st, a, maxLength);
               Running(st') && Released(st', 0) && ConnOf(st'.conns, 2) == Conn([FragId(0, s2)], [])
  {
    hide Encode, TypeOf, WellFormed, Forwardable, Redirects, EndsEngine;
    var st' := Step(st, Answer(1, Encode(v), TypeOf(v), None, false), maxLength);
    assert st'.msgs[0] == Fail(NewMsg(0, req), RSP_TOO_LARGE);
  }

  /** A run of decoded requests and decoded replies that holds the request and panics. */
  ghost predicate PanicsOn(acts: seq<Action>, c: seq<Bytes>, maxLength: nat)
    requires c != []
  {
    && Legal(acts, maxLength) && Run(acts, maxLength).crashed
    && (forall i :: 0 <= i < |acts| ==> Genuine(acts[i], maxLength))
    && exists i :: 0 <= i < |acts| && acts[i].Request? && acts[i].req == CommandStream.MsgOf(c)
  }

  /** For every request that is split into two fragments, and every reply over the limit, there is a run that panics:
      that reply, and then a redirect of the other fragment. */
  lemma LateRedirect(c: seq<Bytes>, s1: nat, s2: nat, v: Value, maxLength: nat) returns (acts: seq<Action>)
    requires CommandStream.Sendable(c) && |EncodeCommand(c)| <= maxLength && TooLong(v, maxLength)
    requires var req := CommandStream.MsgOf(c); Forwardable(req) && s1 != s2 && req.body.Keys == {s1, s2}
    ensures PanicsOn(acts, c, maxLength)
  {
    hide Run, Legal, Genuine, Encode, TypeOf, EncodeCommand, CommandStream.MsgOf, Redirects, Enabled, Step, WellFormed,
      Forwardable;
    var req := CommandStream.MsgOf(c);
    var start := Dispatched(req, s1, s2, maxLength);
    var st := Run(start, maxLength);
    MovedFacts();
    var large := Answer(1, Encode(v), TypeOf(v), None, false);
    LargeReleases(st, s1, s2, req, v, maxLength);
    RunSnoc(start, large, maxLength);
    var late := Answer(2, Encode(MOVED), TypeOf(MOVED), Some(1), false);
    FatalRedirect(Run(start + [large], maxLength), late, maxLength);
    RunSnoc(start + [large], late, maxLength);
    acts := start + [large] + [late];
    RequestIsGenuine(c, 0, 0, start[0].route, maxLength);
    SignalsGenuine(maxLength);
    EncodedIsGenuine(1, v, None, maxLength);
    EncodedIsGenuine(2, MOVED, Some(1), maxLength);
    assert acts[0] == start[0] && acts[1] == start[1..][0] && acts[2] == start[1..][1];
    assert acts[3] == large && acts[4] == late;
  }

  /** So there is one for every MSET of two keys in different slots that fits the limit. */
  lemma LateRedirectPanics(k1: Bytes, v1: Bytes, k2: Bytes, v2: Bytes, maxLength: nat) returns (acts: seq<Action>)
    requires Hash(k1) != Hash(k2) && CommandStream.Sendable(MsetOf(k1, v1, k2, v2))
    requires |EncodeCommand(MsetOf(k1, v1, k2, v2))| <= maxLength
    ensures PanicsOn(acts, MsetOf(k1, v1, k2, v2), maxLength)
  {
    hide PanicsOn, Hash, EncodeCommand, CommandStream.MsgOf, TooLong, Forwardable;
    MsetSlots(k1, v1, k2, v2);
    MsetForwardable(k1, v1, k2, v2);
    LongStatusFacts(maxLength);
    acts := LateRedirect(MsetOf(k1, v1, k2, v2), Hash(k1), Hash(k2), LongStatus(maxLength), maxLength);
  }

  /** And for every MGET of two keys in different slots, with a reply that Redis gives when the first value is as
      long as the limit. */
  lemma LateRedirectMget(k1: Bytes, k2: Bytes, maxLength: nat) returns (acts: seq<Action>)
    requires Hash(k1) != Hash(k2) && CommandStream.Sendable(MgetOf(k1, k2))
    requires |EncodeCommand(MgetOf(k1, k2))| <= maxLength <= MAX_INT
    ensures PanicsOn(acts, MgetOf(k1, k2), maxLength)
  {
    hide PanicsOn, Hash, EncodeCommand, CommandStream.MsgOf, TooLong, Forwardable;
    MgetSlots(k1, k2);
    LongArrayFacts(maxLength);
    acts := LateRedirect(MgetOf(k1, k2), Hash(k1), Hash(k2), LongArray(maxLength), maxLength);
  }

  lemma SignalsGenuine(maxLength: nat)
    ensures Genuine(Signal(1), maxLength) && Genuine(Signal(2), maxLength)
  {}

  lemma MsetForwardable(k1: Bytes, v1: Bytes, k2: Bytes, v2: Bytes)
    ensures Forwardable(CommandStream.MsgOf(MsetOf(k1, v1, k2, v2)))
  {
    hide Hash, GroupBy, EncodeCommand, MakeMsg, Forwardable;
    LowerNames();
    var c := MsetOf(k1, v1, k2, v2);
    MadeForwardable(Mset, c[1..], EncodeCommand(CommandStream.LowerName(c)));
  }

  lemma FatalRedirect(st: State, a: Action, maxLength: nat)
    requires Running(st) && a.Answer? && Redirects(a.rtype) && a.target.Some? && !a.recycled
    requires ConnOf(st.conns, a.server).inFrags != [] && Released(st, ConnOf(st.conns, a.server).inFrags[0].msg)
    ensures Enabled(st, a) && Step(st, a, maxLength).crashed
  {
    hide Pop, Push;
  }

  /** The same with keys of known slots: nothing above is empty. */
  lemma LateRedirectExample(maxLength: nat) returns (acts: seq<Action>)
    requires |EncodeCommand(MgetOf("a", "b"))| <= maxLength <= MAX_INT
    ensures PanicsOn(acts, MgetOf("a", "b"), maxLength)
  {
    hide Hash, PanicsOn, EncodeCommand;
    LetterSlots();
    acts := LateRedirectMget("a", "b", maxLength);
  }
}
