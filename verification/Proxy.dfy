/** The fragment and reply protocol with any number of clients and Redis connections: core/eventloop.go:187-307,
    core/connection.go:156-222, 313-359, 529-571, core/server/server_c.go:67-112, 193-218. */
module Proxy {
  import opened Bytes
  import opened Command
  import opened Reply
  import opened Message
  import opened Sharding

  /** A fragment: the message it belongs to and its slot. */
  datatype FragId = FragId(msg: nat, slot: nat)

  /** A connection to Redis: fragments on the wire and fragments that wait for the write signal. */
  datatype Conn = Conn(inFrags: seq<FragId>, outFrags: seq<FragId>)

  /** queue is the message queue of the client and out the bytes released to it; forwarded and answered
      list the messages of the client in the order in which they were dispatched and released. */
  datatype Client = Client(queue: seq<nat>, forwarded: seq<nat>, answered: seq<nat>, out: Bytes, closed: bool)

  /** msgs keeps every message that was ever dispatched; lost holds the fragments that a redirect dropped
      because its target had no connection. crashed tells that a handler panicked and stopped that the engine shut
      down; the rest of the state is then as it was before. */
  datatype State = State(
    msgs: map<nat, MsgState>,
    clients: map<nat, Client>,
    conns: map<nat, Conn>,
    lost: set<FragId>,
    crashed: bool,
    stopped: bool)

  /** Request is one OnCReact that forwards req and finds connections for its slots as route says, in the order in
      which the map of fragments is walked. Signal is one handleWriteSignal. Answer is one decoded reply: target is
      the connection a redirect leads to, and recycled tells whether a message object that was released has since
      been taken from the pool again. */
  datatype Action =
    | Request(msg: nat, client: nat, req: Command.Msg, route: seq<(nat, nat)>)
    | Signal(server: nat)
    | Answer(server: nat, body: Bytes, rtype: ReplyType, target: Option<nat>, recycled: bool)

  const NO_CLIENT := Client([], [], [], [], false)

  function ClientOf(clients: map<nat, Client>, c: nat): Client { if c in clients then clients[c] else NO_CLIENT }

  function ConnOf(conns: map<nat, Conn>, s: nat): Conn { if s in conns then conns[s] else Conn([], []) }

  function Init(): State { State(map[], map[], map[], {}, false, false) }

  // ----- the queues of the connections

  function Push(conns: map<nat, Conn>, s: nat, f: FragId): map<nat, Conn> {
    var c := ConnOf(conns, s);
    conns[s := c.(outFrags := c.outFrags + [f])]
  }

  function Pop(conns: map<nat, Conn>, s: nat): map<nat, Conn>
    requires ConnOf(conns, s).inFrags != []
  {
    var c := ConnOf(conns, s);
    conns[s := c.(inFrags := c.inFrags[1..])]
  }

  function Flush(conns: map<nat, Conn>, s: nat): map<nat, Conn> {
    var c := ConnOf(conns, s);
    conns[s := Conn(c.inFrags + c.outFrags, [])]
  }

  /** The loop of OnCReact over the fragments of message m. */
  function Dispatch(conns: map<nat, Conn>, m: nat, route: seq<(nat, nat)>): map<nat, Conn> {
    if route == [] then conns else
      var last := route[|route| - 1];
      Push(Dispatch(conns, m, route[..|route| - 1]), last.1, FragId(m, last.0))
  }

  // ----- the steps

  function Slots(route: seq<(nat, nat)>): (slots: seq<nat>)
    ensures |slots| == |route|
  {
    if route == [] then [] else Slots(route[..|route| - 1]) + [route[|route| - 1].0]
  }

  predicate Running(st: State) { !st.crashed && !st.stopped }

  ghost predicate Enabled(st: State, a: Action) {
    && Running(st)
    && match a
       case Request(m, c, req, route) => m !in st.msgs && Forwardable(req) && Permutes(Slots(route), req.body)
       case Signal(s) => true
       case Answer(s, _, _, _, _) => ConnOf(st.conns, s).inFrags != []
  }

  /** The bodies of the given messages, one after the other. */
  function Bodies(msgs: map<nat, MsgState>, ms: seq<nat>): Bytes {
    if ms == [] then [] else
      var m := ms[|ms| - 1];
      Bodies(msgs, ms[..|ms| - 1]) + (if m in msgs then msgs[m].rspBody else [])
  }

  predicate AllDoneIn(msgs: map<nat, MsgState>, ms: seq<nat>) {
    forall m :: m in ms && m in msgs ==> msgs[m].done
  }

  /** What the event loop does for the client of a message that has just become done. */
  function Settle(msgs: map<nat, MsgState>, k: Client): Client {
    if k.closed then k
    else if k.queue == [] then k.(closed := true)
    else if !AllDoneIn(msgs, k.queue) then k
    else k.(queue := [], answered := k.answered + k.queue, out := k.out + Bodies(msgs, k.queue))
  }

  /** A message was released to its client. */
  predicate Released(st: State, m: nat) {
    m in st.msgs && m in ClientOf(st.clients, st.msgs[m].owner).answered
  }

  /** OnMoved. A write to the slot table of a released message panics unless the object is in use again. */
  function Redirect(st: State, s: nat, f: FragId, target: Option<nat>, recycled: bool): State
    requires ConnOf(st.conns, s).inFrags != []
  {
    var conns := Pop(st.conns, s);
    if target.None? then st.(conns := conns, lost := st.lost + {f})
    else if Released(st, f.msg) && !recycled then st.(crashed := true)
    else st.(conns := Push(conns, target.value, f))
  }

  predicate Redirects(t: ReplyType) { t.RspMoved? || t.RspAsk? }

  /** The replies about authentication. */
  predicate EndsEngine(t: ReplyType) { t.RspNeedAuth? || t.RspNeedNtAuth? || t.RspAuthFailed? }

  /** An ordinary reply for a fragment that is not done. One about authentication that finishes its message shuts the
      engine down before anything is released. */
  function Complete(st: State, s: nat, f: FragId, body: Bytes, rtype: ReplyType, maxLength: nat): State
    requires ConnOf(st.conns, s).inFrags != []
    requires f.msg in st.msgs && f.slot in st.msgs[f.msg].body && !st.msgs[f.msg].body[f.slot].done
  {
    match OnReply(st.msgs[f.msg], f.slot, body, rtype, maxLength)
    case None => st.(crashed := true)
    case Some(m) =>
      if m.done && EndsEngine(rtype) then st.(stopped := true)
      else
        var msgs := st.msgs[f.msg := m];
        var clients :=
          if m.done then st.clients[m.owner := Settle(msgs, ClientOf(st.clients, m.owner))] else st.clients;
        st.(msgs := msgs, clients := clients, conns := Pop(st.conns, s))
  }

  function OnAnswer(st: State, s: nat, body: Bytes, rtype: ReplyType, target: Option<nat>, recycled: bool,
                    maxLength: nat): State
    requires ConnOf(st.conns, s).inFrags != []
  {
    var f := ConnOf(st.conns, s).inFrags[0];
    if Redirects(rtype) then Redirect(st, s, f, target, recycled)
    else if f.msg !in st.msgs || f.slot !in st.msgs[f.msg].body || st.msgs[f.msg].body[f.slot].done then
      st.(conns := Pop(st.conns, s))
    else Complete(st, s, f, body, rtype, maxLength)
  }

  function OnRequest(st: State, m: nat, c: nat, req: Command.Msg, route: seq<(nat, nat)>): State {
    var k := ClientOf(st.clients, c);
    st.(msgs := st.msgs[m := NewMsg(c, req)],
        clients := st.clients[c := k.(queue := k.queue + [m], forwarded := k.forwarded + [m])],
        conns := Dispatch(st.conns, m, route))
  }

  function Step(st: State, a: Action, maxLength: nat): State
    requires Enabled(st, a)
  {
    match a
    case Request(m, c, req, route) => OnRequest(st, m, c, req, route)
    case Signal(s) => st.(conns := Flush(st.conns, s))
    case Answer(s, body, rtype, target, recycled) => OnAnswer(st, s, body, rtype, target, recycled, maxLength)
  }

  // ----- where the fragments are

  function All(c: Conn): seq<FragId> { c.inFrags + c.outFrags }

  /** Fragment f is the i-th of connection s. */
  ghost predicate At(conns: map<nat, Conn>, s: nat, i: nat, f: FragId) {
    i < |All(ConnOf(conns, s))| && All(ConnOf(conns, s))[i] == f
  }

  ghost predicate Placed(conns: map<nat, Conn>, f: FragId) { exists s, i :: At(conns, s, i, f) }

  /** No fragment is at two positions. */
  ghost predicate Unique(conns: map<nat, Conn>) {
    forall s, i, t, j, f :: At(conns, s, i, f) && At(conns, t, j, f) ==> s == t && i == j
  }

  lemma PopAt(conns: map<nat, Conn>, s: nat, t: nat, i: nat, f: FragId)
    requires ConnOf(conns, s).inFrags != []
    ensures At(Pop(conns, s), t, i, f) <==> At(conns, t, if t == s then i + 1 else i, f)
  {
    var c := ConnOf(conns, s);
    assert All(c.(inFrags := c.inFrags[1..])) == All(c)[1..];
  }

  lemma PushAt(conns: map<nat, Conn>, s: nat, f: FragId, t: nat, i: nat, g: FragId)
    ensures At(Push(conns, s, f), t, i, g) <==>
            At(conns, t, i, g) || (t == s && i == |All(ConnOf(conns, s))| && g == f)
  {
    var c := ConnOf(conns, s);
    assert All(c.(outFrags := c.outFrags + [f])) == All(c) + [f];
  }

  lemma FlushAt(conns: map<nat, Conn>, s: nat, t: nat, i: nat, f: FragId)
    ensures At(Flush(conns, s), t, i, f) <==> At(conns, t, i, f)
  {
    var c := ConnOf(conns, s);
    assert All(Conn(c.inFrags + c.outFrags, [])) == All(c);
  }

  /** Taking the head away leaves every other fragment where it was, and the head nowhere. */
  lemma PopEffect(conns: map<nat, Conn>, s: nat)
    requires ConnOf(conns, s).inFrags != [] && Unique(conns)
    ensures Unique(Pop(conns, s)) && Placed(conns, ConnOf(conns, s).inFrags[0])
    ensures forall f :: Placed(Pop(conns, s), f) <==> Placed(conns, f) && f != ConnOf(conns, s).inFrags[0]
  {
    hide Pop;
    var head := ConnOf(conns, s).inFrags[0];
    assert At(conns, s, 0, head);
    forall t, i: nat, f ensures At(Pop(conns, s), t, i, f) <==> At(conns, t, if t == s then i + 1 else i, f) {
      PopAt(conns, s, t, i, f);
    }
    forall f | Placed(conns, f) && f != head ensures Placed(Pop(conns, s), f) {
      var t: nat, i: nat :| At(conns, t, i, f);
      assert t == s ==> i != 0;
      assert At(Pop(conns, s), t, if t == s then i - 1 else i, f);
    }
  }

  lemma PushEffect(conns: map<nat, Conn>, s: nat, f: FragId)
    requires Unique(conns) && !Placed(conns, f)
    ensures Unique(Push(conns, s, f))
    ensures forall g :: Placed(Push(conns, s, f), g) <==> Placed(conns, g) || g == f
  {
    hide Push;
    forall t, i: nat, g ensures At(Push(conns, s, f), t, i, g) <==>
                           At(conns, t, i, g) || (t == s && i == |All(ConnOf(conns, s))| && g == f) {
      PushAt(conns, s, f, t, i, g);
    }
    assert At(Push(conns, s, f), s, |All(ConnOf(conns, s))|, f);
  }

  lemma FlushEffect(conns: map<nat, Conn>, s: nat)
    requires Unique(conns)
    ensures Unique(Flush(conns, s)) && forall f :: Placed(Flush(conns, s), f) <==> Placed(conns, f)
  {
    hide Flush;
    forall t, i: nat, f ensures At(Flush(conns, s), t, i, f) <==> At(conns, t, i, f) {
      FlushAt(conns, s, t, i, f);
    }
  }

  lemma {:induction false} DispatchEffect(conns: map<nat, Conn>, m: nat, route: seq<(nat, nat)>)
    requires Unique(conns) && Distinct(Slots(route)) && forall s :: !Placed(conns, FragId(m, s))
    ensures Unique(Dispatch(conns, m, route))
    ensures forall f :: Placed(Dispatch(conns, m, route), f) <==>
                        Placed(conns, f) || (f.msg == m && f.slot in Slots(route))
  {
    hide Unique, Placed, Push;
    if route != [] {
      var init, last := route[..|route| - 1], route[|route| - 1];
      assert Slots(route)[..|init|] == Slots(init);
      DispatchEffect(conns, m, init);
      PushEffect(Dispatch(conns, m, init), last.1, FragId(m, last.0));
    }
  }

  // ----- the invariant

  predicate Known(msgs: map<nat, MsgState>, f: FragId) { f.msg in msgs && f.slot in msgs[f.msg].body }

  predicate Open(msgs: map<nat, MsgState>, f: FragId) { Known(msgs, f) && !msgs[f.msg].body[f.slot].done }

  /** Every fragment is at one position at most, and an open one is at one position unless a redirect dropped it. */
  ghost predicate PlaceInv(msgs: map<nat, MsgState>, conns: map<nat, Conn>, lost: set<FragId>) {
    && Unique(conns)
    && (forall f :: Placed(conns, f) ==> Known(msgs, f) && f !in lost)
    && (forall f :: f in lost ==> Known(msgs, f))
    && (forall f :: Open(msgs, f) ==> Placed(conns, f) || f in lost)
  }

  ghost predicate MsgsInv(msgs: map<nat, MsgState>, maxLength: nat) {
    forall m :: m in msgs ==> MsgInv(msgs[m], maxLength)
  }

  /** The messages of client c are released in order, each once, and no sooner than all before them are done. */
  ghost predicate ClientInv(msgs: map<nat, MsgState>, c: nat, k: Client) {
    && !k.closed && k.forwarded == k.answered + k.queue && Distinct(k.forwarded)
    && (forall m :: m in k.forwarded <==> m in msgs && msgs[m].owner == c)
    && (forall m :: m in k.answered ==> msgs[m].done)
    && k.out == Bodies(msgs, k.answered)
    && (k.queue == [] || !AllDoneIn(msgs, k.queue))
  }

  ghost predicate ClientsInv(msgs: map<nat, MsgState>, clients: map<nat, Client>) {
    forall c :: ClientInv(msgs, c, ClientOf(clients, c))
  }

  ghost predicate Inv(st: State, maxLength: nat) {
    && MsgsInv(st.msgs, maxLength)
    && PlaceInv(st.msgs, st.conns, st.lost)
    && ClientsInv(st.msgs, st.clients)
  }

  lemma InitInv(maxLength: nat)
    ensures Inv(Init(), maxLength)
  {
    var st := Init();
    assert forall f :: !Placed(st.conns, f);
    assert forall c :: ClientOf(st.clients, c) == NO_CLIENT;
  }

  // ----- a request

  lemma RequestPlaces(st: State, m: nat, c: nat, req: Command.Msg, route: seq<(nat, nat)>)
    requires PlaceInv(st.msgs, st.conns, st.lost) && Enabled(st, Request(m, c, req, route))
    ensures var st' := OnRequest(st, m, c, req, route); PlaceInv(st'.msgs, st'.conns, st'.lost)
  {
    hide Unique, Placed, Dispatch, Slots, Distinct, Forwardable;
    DispatchEffect(st.conns, m, route);
    assert forall s :: s in Slots(route) <==> s in Elements(Slots(route));
    var msgs := st.msgs[m := NewMsg(c, req)];
    assert forall f :: Known(msgs, f) <==> if f.msg == m then f.slot in req.body else Known(st.msgs, f);
    assert forall f :: Open(msgs, f) <==> if f.msg == m then f.slot in req.body else Open(st.msgs, f);
  }

  lemma RequestMsgs(st: State, m: nat, c: nat, req: Command.Msg, route: seq<(nat, nat)>, maxLength: nat)
    requires MsgsInv(st.msgs, maxLength) && Enabled(st, Request(m, c, req, route))
    ensures MsgsInv(OnRequest(st, m, c, req, route).msgs, maxLength)
  {
    hide MsgInv, Forwardable, NewMsg;
    NewMsgInv(c, req, maxLength);
  }

  lemma {:induction false} BodiesDependOn(msgs: map<nat, MsgState>, msgs': map<nat, MsgState>, ms: seq<nat>)
    requires forall m :: m in ms ==> m in msgs && m in msgs' && msgs[m].rspBody == msgs'[m].rspBody
    ensures Bodies(msgs, ms) == Bodies(msgs', ms)
  {
    if ms != [] { BodiesDependOn(msgs, msgs', ms[..|ms| - 1]); }
  }

  /** Nothing changes for a client when only messages of others, or its own unfinished ones, change. */
  lemma ClientFrame(msgs: map<nat, MsgState>, c: nat, k: Client, m: nat, x: MsgState)
    requires ClientInv(msgs, c, k) && x.owner != c && (m in msgs ==> msgs[m].owner == x.owner)
    ensures ClientInv(msgs[m := x], c, k)
  {
    hide Bodies, Distinct;
    BodiesDependOn(msgs, msgs[m := x], k.answered);
  }

  lemma DistinctSnoc(xs: seq<nat>, x: nat)
    requires Distinct(xs) && x !in xs
    ensures Distinct(xs + [x])
  {
    assert (xs + [x])[..|xs|] == xs;
  }

  lemma LastNotDone(msgs: map<nat, MsgState>, ms: seq<nat>, m: nat)
    requires m in msgs && !msgs[m].done
    ensures !AllDoneIn(msgs, ms + [m])
  {
    assert m in ms + [m];
  }

  lemma OwnsMore(msgs: map<nat, MsgState>, c: nat, ms: seq<nat>, m: nat, x: MsgState)
    requires m !in msgs && x.owner == c && forall n :: n in ms <==> n in msgs && msgs[n].owner == c
    ensures forall n :: n in ms + [m] <==> n in msgs[m := x] && msgs[m := x][n].owner == c
  {}

  lemma StillDone(msgs: map<nat, MsgState>, ms: seq<nat>, m: nat, x: MsgState)
    requires m !in msgs && forall n :: n in ms ==> n in msgs && msgs[n].done
    ensures forall n :: n in ms ==> msgs[m := x][n].done
  {}

  lemma RequestOwner(msgs: map<nat, MsgState>, c: nat, k: Client, m: nat, x: MsgState)
    requires ClientInv(msgs, c, k) && m !in msgs && x.owner == c && !x.done
    ensures ClientInv(msgs[m := x], c, k.(queue := k.queue + [m], forwarded := k.forwarded + [m]))
  {
    hide Bodies, Distinct, AllDoneIn;
    BodiesDependOn(msgs, msgs[m := x], k.answered);
    assert m !in k.forwarded;
    DistinctSnoc(k.forwarded, m);
    LastNotDone(msgs[m := x], k.queue, m);
    OwnsMore(msgs, c, k.forwarded, m, x);
    StillDone(msgs, k.answered, m, x);
    assert k.answered + k.queue + [m] == k.answered + (k.queue + [m]);
  }

  lemma RequestClients(st: State, m: nat, c: nat, req: Command.Msg, route: seq<(nat, nat)>)
    requires ClientsInv(st.msgs, st.clients) && Enabled(st, Request(m, c, req, route))
    ensures var st' := OnRequest(st, m, c, req, route); ClientsInv(st'.msgs, st'.clients)
  {
    hide ClientInv, Dispatch, Slots, Forwardable;
    var st' := OnRequest(st, m, c, req, route);
    forall d ensures ClientInv(st'.msgs, d, ClientOf(st'.clients, d)) {
      assert ClientInv(st.msgs, d, ClientOf(st.clients, d));
      if d == c {
        RequestOwner(st.msgs, c, ClientOf(st.clients, c), m, NewMsg(c, req));
      } else {
        ClientFrame(st.msgs, d, ClientOf(st.clients, d), m, NewMsg(c, req));
      }
    }
  }

  // ----- a reply

  /** The message f.msg changed to x, and the head f of connection s was taken. */
  lemma CompletePlaces(st: State, s: nat, x: MsgState)
    requires ConnOf(st.conns, s).inFrags != [] && PlaceInv(st.msgs, st.conns, st.lost)
    requires var f := ConnOf(st.conns, s).inFrags[0];
             && Open(st.msgs, f) && x.body.Keys == st.msgs[f.msg].body.Keys
             && DoneSlots(x.body) >= DoneSlots(st.msgs[f.msg].body) + {f.slot}
    ensures PlaceInv(st.msgs[ConnOf(st.conns, s).inFrags[0].msg := x], Pop(st.conns, s), st.lost)
  {
    hide Unique, Placed, Pop;
    PopEffect(st.conns, s);
    var f := ConnOf(st.conns, s).inFrags[0];
    var msgs := st.msgs[f.msg := x];
    assert forall g :: Known(msgs, g) <==> Known(st.msgs, g);
    assert forall g :: Open(msgs, g) ==> Open(st.msgs, g) && g != f by {
      forall g | Open(msgs, g) ensures Open(st.msgs, g) && g != f {
        assert g.msg == f.msg ==> g.slot !in DoneSlots(x.body);
      }
    }
  }

  /** Popping a fragment that is not open. */
  lemma DropPlaces(msgs: map<nat, MsgState>, conns: map<nat, Conn>, lost: set<FragId>, s: nat)
    requires ConnOf(conns, s).inFrags != [] && PlaceInv(msgs, conns, lost)
    requires !Open(msgs, ConnOf(conns, s).inFrags[0])
    ensures PlaceInv(msgs, Pop(conns, s), lost)
  {
    hide Unique, Placed, Pop, Open;
    PopEffect(conns, s);
  }

  lemma LosePlaces(msgs: map<nat, MsgState>, conns: map<nat, Conn>, lost: set<FragId>, s: nat)
    requires ConnOf(conns, s).inFrags != [] && PlaceInv(msgs, conns, lost)
    ensures PlaceInv(msgs, Pop(conns, s), lost + {ConnOf(conns, s).inFrags[0]})
  {
    hide Unique, Placed, Pop, Open;
    PopEffect(conns, s);
  }

  lemma MovePlaces(msgs: map<nat, MsgState>, conns: map<nat, Conn>, lost: set<FragId>, s: nat, t: nat)
    requires ConnOf(conns, s).inFrags != [] && PlaceInv(msgs, conns, lost)
    ensures PlaceInv(msgs, Push(Pop(conns, s), t, ConnOf(conns, s).inFrags[0]), lost)
  {
    hide Unique, Placed, Pop, Push, Open;
    PopEffect(conns, s);
    PushEffect(Pop(conns, s), t, ConnOf(conns, s).inFrags[0]);
  }

  lemma {:induction false} BodiesConcat(msgs: map<nat, MsgState>, a: seq<nat>, b: seq<nat>)
    ensures Bodies(msgs, a + b) == Bodies(msgs, a) + Bodies(msgs, b)
  {
    if b == [] {
      assert a + b == a;
    } else {
      assert (a + b)[..|a + b| - 1] == a + b[..|b| - 1];
      BodiesConcat(msgs, a, b[..|b| - 1]);
    }
  }

  /** The message of client c that changes was not done: it is queued, and what was released stays the same. */
  lemma CompleteOwner(msgs: map<nat, MsgState>, c: nat, k: Client, m: nat, x: MsgState)
    requires ClientInv(msgs, c, k) && m in msgs && msgs[m].owner == c == x.owner && !msgs[m].done
    ensures m in k.queue && Bodies(msgs[m := x], k.answered) == Bodies(msgs, k.answered)
    ensures ClientInv(msgs[m := x], c, if x.done then Settle(msgs[m := x], k) else k)
  {
    hide Bodies, Distinct;
    assert m in k.forwarded && m !in k.answered;
    BodiesDependOn(msgs, msgs[m := x], k.answered);
    BodiesConcat(msgs[m := x], k.answered, k.queue);
    assert k.answered + k.queue + [] == k.answered + k.queue;
  }

  lemma CompleteClients(msgs: map<nat, MsgState>, clients: map<nat, Client>, m: nat, x: MsgState)
    requires ClientsInv(msgs, clients) && m in msgs && x.owner == msgs[m].owner && !msgs[m].done
    ensures var msgs' := msgs[m := x];
            ClientsInv(msgs', if x.done then clients[x.owner := Settle(msgs', ClientOf(clients, x.owner))] else clients)
  {
    hide ClientInv, Settle;
    var msgs' := msgs[m := x];
    var clients' := if x.done then clients[x.owner := Settle(msgs', ClientOf(clients, x.owner))] else clients;
    forall d ensures ClientInv(msgs', d, ClientOf(clients', d)) {
      var k := ClientOf(clients, d);
      assert ClientInv(msgs, d, k);
      if d == x.owner { CompleteOwner(msgs, d, k, m, x); } else { ClientFrame(msgs, d, k, m, x); }
    }
  }

  lemma CompleteInv(st: State, s: nat, body: Bytes, rtype: ReplyType, maxLength: nat)
    requires Inv(st, maxLength) && ConnOf(st.conns, s).inFrags != [] && Open(st.msgs, ConnOf(st.conns, s).inFrags[0])
    ensures Inv(Complete(st, s, ConnOf(st.conns, s).inFrags[0], body, rtype, maxLength), maxLength)
  {
    hide PlaceInv, ClientsInv, MsgInv, Settle, Pop, OnReply;
    var f := ConnOf(st.conns, s).inFrags[0];
    var m := st.msgs[f.msg];
    var r := OnReply(m, f.slot, body, rtype, maxLength);
    if r.Some? {
      OpenIsNotDone(m, f.slot, maxLength);
      OnReplyKeepsInv(m, f.slot, body, rtype, maxLength);
      CompletePlaces(st, s, r.value);
      CompleteClients(st.msgs, st.clients, f.msg, r.value);
    }
  }

  lemma AnswerInv(st: State, s: nat, body: Bytes, rtype: ReplyType, target: Option<nat>, recycled: bool, maxLength: nat)
    requires Inv(st, maxLength) && ConnOf(st.conns, s).inFrags != []
    ensures Inv(OnAnswer(st, s, body, rtype, target, recycled, maxLength), maxLength)
  {
    hide MsgsInv, PlaceInv, ClientsInv, Complete, Pop, Push;
    var f := ConnOf(st.conns, s).inFrags[0];
    if Redirects(rtype) {
      LosePlaces(st.msgs, st.conns, st.lost, s);
      if target.Some? { MovePlaces(st.msgs, st.conns, st.lost, s, target.value); }
    } else if Open(st.msgs, f) {
      CompleteInv(st, s, body, rtype, maxLength);
    } else {
      DropPlaces(st.msgs, st.conns, st.lost, s);
    }
  }

  lemma SignalInv(st: State, s: nat, maxLength: nat)
    requires Inv(st, maxLength)
    ensures Inv(st.(conns := Flush(st.conns, s)), maxLength)
  {
    hide MsgsInv, ClientsInv, Unique, Placed, Flush, Open;
    FlushEffect(st.conns, s);
  }

  lemma StepKeepsInv(st: State, a: Action, maxLength: nat)
    requires Enabled(st, a) && Inv(st, maxLength)
    ensures Inv(Step(st, a, maxLength), maxLength)
  {
    hide Enabled, MsgsInv, PlaceInv, ClientsInv, OnRequest, OnAnswer, Flush;
    match a {
      case Request(m, c, req, route) =>
        RequestPlaces(st, m, c, req, route);
        RequestMsgs(st, m, c, req, route, maxLength);
        RequestClients(st, m, c, req, route);
      case Signal(s) => SignalInv(st, s, maxLength);
      case Answer(s, body, rtype, target, recycled) =>
        AnswerEnabled(st, a);
        AnswerInv(st, s, body, rtype, target, recycled, maxLength);
    }
  }

  lemma AnswerEnabled(st: State, a: Action)
    requires Enabled(st, a) && a.Answer?
    ensures ConnOf(st.conns, a.server).inFrags != []
  {}
}
