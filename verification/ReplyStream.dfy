/** A connection to Redis receives its replies: core/connection.go:156-165, core/codec_s.go:45-109 and the loop of
    core/eventloop.go:187-215, up to what is done with a fragment that got its reply. */
module ReplyStream {
  import opened Bytes
  import opened Reply
  import opened Chunks

  const OK: Bytes := "+OK\r\n"

  /** A fragment and the reply that was attached to it. */
  datatype Pair = Pair(frag: nat, body: Bytes, rtype: ReplyType)

  /** step is the number of handshake commands that were sent; stuck tells that the loop makes no more progress. */
  datatype Link = Link(
    step: int, initializing: bool, unread: Bytes, inFrags: seq<nat>, attached: seq<Pair>, stuck: bool)

  /** The replies of a handshake that succeeds. */
  function Shortcut(step: int): Bytes { if step == 1 then OK else if step == 2 then OK + OK else [] }

  datatype Outcome = Done(c: Link) | Waiting(c: Link) | Failed(c: Link)

  function InitializingDecode(c: Link): (o: Outcome)
    ensures |o.c.unread| <= |c.unread|
  {
    if c.unread == [] then Waiting(c)
    else if c.step < 1 || c.step > 2 then Failed(c)
    else if Shortcut(c.step) <= c.unread then Done(c.(unread := c.unread[|Shortcut(c.step)|..], initializing := false))
    else if c.unread[0] != '-' && c.unread[0] != '+' then Failed(c)
    else if c.unread <= Shortcut(c.step) then Waiting(c)
    else Done(c)
  }

  function Decode(c: Link): (o: Outcome)
    ensures o.Done? ==> |o.c.unread| < |c.unread|
  {
    if c.unread == [] then Waiting(c)
    else
      var reply := ReadReply(c.unread, 0);
      if reply.Err? then (if reply.error.InvalidResp? then Failed(c) else Waiting(c))
      else if c.inFrags == [] then Failed(c)
      else Done(c.(unread := c.unread[reply.pos..], inFrags := c.inFrags[1..],
                   attached := c.attached + [Pair(c.inFrags[0], c.unread[..reply.pos], reply.value)]))
  }

  function Sread(c: Link): (o: Outcome)
    ensures o.Done? ==> |o.c.unread| < |c.unread|
  {
    if !c.initializing then Decode(c)
    else
      var init := InitializingDecode(c);
      if init.Done? then Decode(init.c) else init
  }

  /** The read loop: replies are taken while there is one. After a failure the source retries for ever. */
  function Drain(c: Link): Link
    decreases |c.unread|
  {
    match Sread(c)
    case Done(c') => Drain(c')
    case Waiting(c') => c'
    case Failed(c') => c'.(stuck := true)
  }

  method DrainLoop(c: Link) returns (r: Link)
    ensures r == Drain(c)
  {
    hide Sread;
    r := c;
    while true
      invariant Drain(r) == Drain(c)
      decreases |r.unread|
    {
      match Sread(r) {
        case Done(c') => r := c';
        case Waiting(c') => return c';
        case Failed(c') => return c'.(stuck := true);
      }
    }
  }

  /** A fragment enters the queue when its request is written; a chunk of replies arrives. */
  datatype Event = Enter(frag: nat) | Arrive(chunk: Bytes)

  function React(c: Link, e: Event): Link {
    if c.stuck then c
    else match e
      case Enter(f) => c.(inFrags := c.inFrags + [f])
      case Arrive(chunk) => Drain(c.(unread := c.unread + chunk))
  }

  function ReactAll(c: Link, events: seq<Event>): Link
    decreases |events|
  {
    if events == [] then c else ReactAll(React(c, events[0]), events[1..])
  }

  // ----- the k-th reply belongs to the k-th fragment

  function Arrived(events: seq<Event>): Bytes {
    if events == [] then [] else (if events[0].Arrive? then events[0].chunk else []) + Arrived(events[1..])
  }

  function Entered(events: seq<Event>): seq<nat> {
    if events == [] then [] else (if events[0].Enter? then [events[0].frag] else []) + Entered(events[1..])
  }

  /** Fragments and replies, paired in order. */
  function Pairs(frags: seq<nat>, vs: seq<Value>): seq<Pair> {
    if frags == [] || vs == [] then [] else [Pair(frags[0], Encode(vs[0]), TypeOf(vs[0]))] + Pairs(frags[1..], vs[1..])
  }

  ghost predicate AllWellFormed(vs: seq<Value>) { forall i :: 0 <= i < |vs| ==> WellFormed(vs[i]) }

  /** What is still to come of the handshake. */
  function HelloLeft(c: Link): Bytes { if c.initializing then Shortcut(c.step) else [] }

  /** The unread bytes and the bytes to come are the rest of the handshake and then the replies vs. */
  ghost predicate InStep(c: Link, f: Bytes, vs: seq<Value>) {
    && !c.stuck && AllWellFormed(vs) && (c.initializing ==> 1 <= c.step <= 2)
    && c.unread + f == HelloLeft(c) + EncodeAll(vs)
  }

  /** Nothing more can be taken before more arrives. */
  ghost predicate Dry(c: Link, vs: seq<Value>) {
    if c.initializing then |c.unread| < |HelloLeft(c)| else vs == [] || |c.unread| < |Encode(vs[0])|
  }

  lemma PrefixOf(b: Bytes, f: Bytes, s: Bytes, t: Bytes)
    requires b + f == s + t
    ensures |s| <= |b| ==> s <= b && b[|s|..] + f == t && Lies(b, 0, s)
    ensures |b| < |s| ==> b <= s && Cut(b, 0, s)
  {
    assert forall k :: 0 <= k < |b| && k < |s| ==> b[k] == (b + f)[k] == (s + t)[k] == s[k];
    if |s| <= |b| {
      assert b + f == b[..|s|] + (b[|s|..] + f) && (b + f)[..|s|] == (s + t)[..|s|] == s;
      assert (b + f)[|s|..] == (s + t)[|s|..] == t;
    }
  }

  lemma ShortcutStarts(step: int)
    requires 1 <= step <= 2
    ensures Shortcut(step) != [] && Shortcut(step)[0] == '+'
  {}

  /** A complete handshake is stripped. */
  lemma HelloTaken(c: Link, f: Bytes, vs: seq<Value>) returns (next: Link)
    requires InStep(c, f, vs) && c.initializing && |HelloLeft(c)| <= |c.unread|
    ensures next == c.(unread := next.unread, initializing := false) && InStep(next, f, vs)
    ensures |next.unread| < |c.unread| && Drain(c) == Drain(next)
  {
    hide Decode, EncodeAll;
    ShortcutStarts(c.step);
    PrefixOf(c.unread, f, Shortcut(c.step), EncodeAll(vs));
    next := c.(unread := c.unread[|Shortcut(c.step)|..], initializing := false);
    assert [] + EncodeAll(vs) == EncodeAll(vs);
    assert InitializingDecode(c) == Done(next);
    assert Sread(c) == Sread(next);
  }

  lemma HelloWaits(c: Link, f: Bytes, vs: seq<Value>)
    requires InStep(c, f, vs) && c.initializing && |c.unread| < |HelloLeft(c)|
    ensures Drain(c) == c
  {
    hide Decode, EncodeAll;
    ShortcutStarts(c.step);
    PrefixOf(c.unread, f, Shortcut(c.step), EncodeAll(vs));
  }

  /** The link after v was attached to the oldest fragment. */
  function Attached(c: Link, v: Value): Link
    requires |Encode(v)| <= |c.unread| && c.inFrags != []
  {
    c.(unread := c.unread[|Encode(v)|..], inFrags := c.inFrags[1..],
       attached := c.attached + [Pair(c.inFrags[0], Encode(v), TypeOf(v))])
  }

  lemma ReplyDecoded(c: Link, f: Bytes, v: Value, t: Bytes)
    requires WellFormed(v) && c.unread + f == Encode(v) + t && |Encode(v)| <= |c.unread|
    ensures Decode(c) == if c.inFrags == [] then Failed(c) else Done(Attached(c, v))
    ensures c.unread[|Encode(v)|..] + f == t && |Encode(v)| > 0
  {
    hide ReadReply, Encode, Lies;
    PrefixOf(c.unread, f, Encode(v), t);
    ReplyLies(c.unread, 0, v);
    PrefixIsSlice(c.unread, Encode(v));
  }

  lemma PairsStep(frag: nat, frags: seq<nat>, g: seq<nat>, vs: seq<Value>, before: seq<Pair>)
    requires vs != []
    ensures (before + [Pair(frag, Encode(vs[0]), TypeOf(vs[0]))]) + Pairs(frags + g, vs[1..])
         == before + Pairs([frag] + frags + g, vs)
  {
    hide Encode, TypeOf;
    assert ([frag] + frags + g)[1..] == frags + g;
  }

  /** A complete reply goes to the oldest fragment. */
  lemma ReplyTaken(c: Link, f: Bytes, vs: seq<Value>, g: seq<nat>) returns (next: Link)
    requires InStep(c, f, vs) && !c.initializing && vs != [] && |Encode(vs[0])| <= |c.unread| && !Drain(c).stuck
    ensures InStep(next, f, vs[1..]) && !next.initializing && |next.unread| < |c.unread| && Drain(c) == Drain(next)
    ensures c.inFrags != [] && next.inFrags == c.inFrags[1..]
    ensures next.attached + Pairs(next.inFrags + g, vs[1..]) == c.attached + Pairs(c.inFrags + g, vs)
  {
    hide Decode, Encode, Pairs;
    var t := EncodeAll(vs[1..]);
    assert [] + EncodeAll(vs) == Encode(vs[0]) + t && [] + t == t;
    ReplyDecoded(c, f, vs[0], t);
    next := if c.inFrags == [] then c else Attached(c, vs[0]);
    if c.inFrags != [] {
      PairsStep(c.inFrags[0], c.inFrags[1..], g, vs, c.attached);
      assert [c.inFrags[0]] + c.inFrags[1..] == c.inFrags;
    }
  }

  lemma PrefixIsSlice(b: Bytes, e: Bytes)
    requires e <= b
    ensures b[..|e|] == e
  {}

  lemma ReplyWaits(c: Link, f: Bytes, vs: seq<Value>)
    requires InStep(c, f, vs) && !c.initializing && Dry(c, vs)
    ensures Drain(c) == c
  {
    hide ReadReply, Encode, Cut;
    assert [] + EncodeAll(vs) == EncodeAll(vs);
    if vs != [] {
      PrefixOf(c.unread, f, Encode(vs[0]), EncodeAll(vs[1..]));
      ReplyCut(c.unread, 0, vs[0]);
    }
  }

  /** The loop takes every complete reply and keeps the pairing. */
  lemma {:induction false} DrainStream(c: Link, f: Bytes, vs: seq<Value>, g: seq<nat>) returns (rest: seq<Value>)
    requires InStep(c, f, vs) && !Drain(c).stuck
    ensures var c' := Drain(c);
            && InStep(c', f, rest) && Dry(c', rest)
            && |vs| - |rest| == |c.inFrags| - |c'.inFrags| >= 0 && c'.inFrags == c.inFrags[|vs| - |rest|..]
            && rest == vs[|vs| - |rest|..]
            && c'.attached + Pairs(c'.inFrags + g, rest) == c.attached + Pairs(c.inFrags + g, vs)
    decreases |c.unread|
  {
    hide Drain, Encode, EncodeAll, Pairs, HelloLeft;
    if c.initializing {
      if |HelloLeft(c)| <= |c.unread| {
        var next := HelloTaken(c, f, vs);
        rest := DrainStream(next, f, vs, g);
      } else {
        HelloWaits(c, f, vs);
        rest := vs;
      }
    } else if vs != [] && |Encode(vs[0])| <= |c.unread| {
      var next := ReplyTaken(c, f, vs, g);
      rest := DrainStream(next, f, vs[1..], g);
    } else {
      ReplyWaits(c, f, vs);
      rest := vs;
    }
  }

  lemma {:induction false} StuckStays(c: Link, events: seq<Event>)
    requires c.stuck
    ensures ReactAll(c, events) == c
    decreases |events|
  {
    if events != [] { StuckStays(c, events[1..]); }
  }

  lemma {:induction false} ReactStream(c: Link, events: seq<Event>, vs: seq<Value>)
    requires InStep(c, Arrived(events), vs) && Dry(c, vs) && !ReactAll(c, events).stuck
    ensures var c' := ReactAll(c, events);
            var all := c.inFrags + Entered(events);
            && c'.unread == [] && !c'.initializing && |vs| <= |all| && c'.inFrags == all[|vs|..]
            && c'.attached == c.attached + Pairs(all, vs)
    decreases |events|
  {
    hide React, Encode, HelloLeft, Pairs, InStep, Dry;
    if events == [] {
      PairsNone(c.inFrags);
      NothingOpen(c, vs);
      assert c.inFrags + [] == c.inFrags;
    } else {
      var c1 := React(c, events[0]);
      if c1.stuck { StuckStays(c1, events[1..]); }
      var left := ReactOnce(c, events, vs);
      ReactStream(c1, events[1..], left);
    }
  }

  /** From c to c' the first replies of vs were attached to the first of the fragments, which are all followed by g. */
  ghost predicate KeepsPairing(c: Link, frags: seq<nat>, vs: seq<Value>, c': Link, g: seq<nat>, left: seq<Value>) {
    var k := |vs| - |left|;
    && 0 <= k <= |frags| && c'.inFrags + g == frags[k..]
    && c'.attached + Pairs(c'.inFrags + g, left) == c.attached + Pairs(frags, vs)
  }

  lemma DrainPairs(c: Link, f: Bytes, vs: seq<Value>, g: seq<nat>) returns (left: seq<Value>)
    requires InStep(c, f, vs) && !Drain(c).stuck
    ensures InStep(Drain(c), f, left) && Dry(Drain(c), left) && KeepsPairing(c, c.inFrags + g, vs, Drain(c), g, left)
  {
    hide Drain, InStep, Dry, Pairs;
    left := DrainStream(c, f, vs, g);
    var k := |vs| - |left|;
    assert c.inFrags[k..] + g == (c.inFrags + g)[k..];
  }

  /** One event keeps in step with the stream and keeps the pairing. */
  lemma ReactOnce(c: Link, events: seq<Event>, vs: seq<Value>) returns (left: seq<Value>)
    requires events != [] && InStep(c, Arrived(events), vs) && Dry(c, vs) && !React(c, events[0]).stuck
    ensures var c' := React(c, events[0]);
            && InStep(c', Arrived(events[1..]), left) && Dry(c', left)
            && KeepsPairing(c, c.inFrags + Entered(events), vs, c', Entered(events[1..]), left)
  {
    hide Drain, Encode, HelloLeft, Pairs, InStep, Dry;
    var e, rest := events[0], events[1..];
    if e.Enter? {
      EnterInStep(c, e.frag, Arrived(events), vs);
      assert [] + Arrived(rest) == Arrived(rest);
      assert c.inFrags + ([e.frag] + Entered(rest)) == c.inFrags + [e.frag] + Entered(rest);
      left := vs;
    } else {
      var c0 := c.(unread := c.unread + e.chunk);
      ArriveInStep(c, e.chunk, Arrived(rest), vs);
      assert [] + Entered(rest) == Entered(rest);
      left := DrainPairs(c0, Arrived(rest), vs, Entered(rest));
    }
  }

  lemma PairsNone(frags: seq<nat>)
    ensures Pairs(frags, []) == []
  {}

  lemma NothingOpen(c: Link, vs: seq<Value>)
    requires InStep(c, [], vs) && Dry(c, vs)
    ensures c.unread == [] && !c.initializing && vs == []
  {
    assert c.unread + [] == c.unread;
  }

  lemma EnterInStep(c: Link, g: nat, f: Bytes, vs: seq<Value>)
    requires InStep(c, f, vs) && Dry(c, vs)
    ensures InStep(c.(inFrags := c.inFrags + [g]), f, vs) && Dry(c.(inFrags := c.inFrags + [g]), vs)
  {}

  lemma ArriveInStep(c: Link, chunk: Bytes, f: Bytes, vs: seq<Value>)
    requires InStep(c, chunk + f, vs)
    ensures InStep(c.(unread := c.unread + chunk), f, vs)
  {
    Assoc(c.unread, chunk, f);
  }

  // ----- replies that do not overtake their requests

  /** With so many bytes of handshake, bytes received and fragments entered so far, no reply of vs is complete
      before its fragment has entered, neither now nor after any of the events. */
  ghost predicate Causal(hello: nat, received: nat, frags: nat, events: seq<Event>, vs: seq<Value>)
    decreases |events|
  {
    && (|vs| <= frags || received < hello + |EncodeAll(vs[..frags + 1])|)
    && (events == [] ||
        match events[0]
        case Enter(_) => Causal(hello, received, frags + 1, events[1..], vs)
        case Arrive(chunk) => Causal(hello, received + |chunk|, frags, events[1..], vs))
  }

  lemma {:induction false} EncodeAllSplit(vs: seq<Value>, k: nat)
    requires k <= |vs|
    ensures EncodeAll(vs) == EncodeAll(vs[..k]) + EncodeAll(vs[k..])
    decreases k
  {
    hide Encode;
    if k == 0 {
      assert vs[..0] == [] && vs[0..] == vs;
    } else {
      EncodeAllSplit(vs[1..], k - 1);
      assert vs[..k][1..] == vs[1..][..k - 1] && vs[k..] == vs[1..][k - 1..];
      Assoc(Encode(vs[0]), EncodeAll(vs[1..][..k - 1]), EncodeAll(vs[k..]));
    }
  }

  lemma EncodeAllPart(vs: seq<Value>, k: nat, n: nat)
    requires k <= n <= |vs|
    ensures |EncodeAll(vs[..n])| == |EncodeAll(vs[..k])| + |EncodeAll(vs[k..][..n - k])|
  {
    EncodeAllSplit(vs[..n], k);
    assert vs[..n][..k] == vs[..k] && vs[..n][k..] == vs[k..][..n - k];
  }

  /** The same claim counted from a later moment, when k replies and part of the handshake are done with. */
  lemma {:induction false} CausalLater(hello: nat, received: nat, frags: nat, events: seq<Event>, vs: seq<Value>,
                                       k: nat, hello': nat, received': nat)
    requires Causal(hello, received, frags, events, vs) && k <= frags && k <= |vs|
    requires hello - hello' == received - received' - |EncodeAll(vs[..k])|
    ensures Causal(hello', received', frags - k, events, vs[k..])
    decreases |events|
  {
    hide EncodeAll;
    if frags < |vs| { EncodeAllPart(vs, k, frags + 1); }
    if events != [] {
      match events[0] {
        case Enter(_) => CausalLater(hello, received, frags + 1, events[1..], vs, k, hello', received');
        case Arrive(chunk) =>
          CausalLater(hello, received + |chunk|, frags, events[1..], vs, k, hello', received' + |chunk|);
      }
    }
  }

  /** No reply without a fragment is complete, so the loop does not get stuck. */
  lemma {:induction false} DrainNotStuck(c: Link, f: Bytes, vs: seq<Value>)
    requires InStep(c, f, vs) && Causal(|HelloLeft(c)|, |c.unread|, |c.inFrags|, [], vs)
    ensures !Drain(c).stuck
    decreases |c.unread|
  {
    hide Decode, Encode, Drain, EncodeAll, InitializingDecode;
    if c.initializing {
      if |HelloLeft(c)| <= |c.unread| {
        var next := HelloTaken(c, f, vs);
        HelloSize(c, next, f, vs);
        DrainNotStuck(next, f, vs);
      } else {
        HelloWaits(c, f, vs);
      }
    } else if vs != [] && |Encode(vs[0])| <= |c.unread| {
      ReplyNotStuck(c, f, vs);
      DrainNotStuck(Attached(c, vs[0]), f, vs[1..]);
    } else {
      ReplyWaits(c, f, vs);
    }
  }

  lemma HelloSize(c: Link, next: Link, f: Bytes, vs: seq<Value>)
    requires InStep(c, f, vs) && InStep(next, f, vs) && c.initializing && !next.initializing
    ensures |c.unread| - |next.unread| == |HelloLeft(c)|
  {
    assert |c.unread + f| - |next.unread + f| == |HelloLeft(c)|;
  }

  lemma FirstEncoding(vs: seq<Value>)
    requires vs != []
    ensures EncodeAll(vs[..1]) == Encode(vs[0])
  {
    hide Encode;
    assert vs[..1][1..] == [] && Encode(vs[0]) + [] == Encode(vs[0]);
  }

  lemma HasFragment(c: Link, vs: seq<Value>)
    requires vs != [] && |Encode(vs[0])| <= |c.unread| && Causal(0, |c.unread|, |c.inFrags|, [], vs)
    ensures c.inFrags != []
  {
    hide Encode, EncodeAll;
    FirstEncoding(vs);
  }

  lemma AttachedInStep(c: Link, f: Bytes, vs: seq<Value>)
    requires InStep(c, f, vs) && !c.initializing && vs != [] && |Encode(vs[0])| <= |c.unread| && c.inFrags != []
    ensures Drain(c) == Drain(Attached(c, vs[0])) && InStep(Attached(c, vs[0]), f, vs[1..]) && |Encode(vs[0])| > 0
  {
    hide Decode, Encode;
    var t := EncodeAll(vs[1..]);
    assert [] + EncodeAll(vs) == Encode(vs[0]) + t && [] + t == t;
    ReplyDecoded(c, f, vs[0], t);
  }

  lemma ReplyNotStuck(c: Link, f: Bytes, vs: seq<Value>)
    requires InStep(c, f, vs) && !c.initializing && vs != [] && |Encode(vs[0])| <= |c.unread|
    requires Causal(0, |c.unread|, |c.inFrags|, [], vs)
    ensures c.inFrags != [] && |Encode(vs[0])| > 0
    ensures Drain(c) == Drain(Attached(c, vs[0])) && InStep(Attached(c, vs[0]), f, vs[1..])
    ensures Causal(0, |Attached(c, vs[0]).unread|, |c.inFrags| - 1, [], vs[1..])
  {
    hide Drain, Encode, EncodeAll, InStep, Causal;
    HasFragment(c, vs);
    AttachedInStep(c, f, vs);
    FirstEncoding(vs);
    CausalLater(0, |c.unread|, |c.inFrags|, [], vs, 1, 0, |c.unread| - |Encode(vs[0])|);
  }

  lemma CausalNow(hello: nat, received: nat, frags: nat, events: seq<Event>, vs: seq<Value>)
    requires Causal(hello, received, frags, events, vs)
    ensures Causal(hello, received, frags, [], vs)
  {}

  /** One event of a causal run: the link is not stuck and the rest of the run is causal from there. */
  lemma CausalStep(c: Link, events: seq<Event>, vs: seq<Value>) returns (left: seq<Value>)
    requires InStep(c, Arrived(events), vs) && Dry(c, vs) && events != []
    requires Causal(|HelloLeft(c)|, |c.unread|, |c.inFrags|, events, vs)
    ensures var c' := React(c, events[0]);
            && !c'.stuck && InStep(c', Arrived(events[1..]), left) && Dry(c', left)
            && Causal(|HelloLeft(c')|, |c'.unread|, |c'.inFrags|, events[1..], left)
  {
    hide Drain, Encode, EncodeAll, HelloLeft, InStep, Dry;
    var e, rest := events[0], events[1..];
    if e.Enter? {
      EnterInStep(c, e.frag, Arrived(events), vs);
      assert [] + Arrived(rest) == Arrived(rest);
      SameHello(c, c.(inFrags := c.inFrags + [e.frag]));
      left := vs;
    } else {
      var c0 := c.(unread := c.unread + e.chunk);
      ArriveInStep(c, e.chunk, Arrived(rest), vs);
      SameHello(c, c0);
      CausalNow(|HelloLeft(c0)|, |c0.unread|, |c0.inFrags|, rest, vs);
      DrainNotStuck(c0, Arrived(rest), vs);
      left := DrainStream(c0, Arrived(rest), vs, []);
      DrainSize(c0, Drain(c0), Arrived(rest), vs, |vs| - |left|);
      CausalLater(|HelloLeft(c0)|, |c0.unread|, |c0.inFrags|, rest, vs, |vs| - |left|,
                  |HelloLeft(Drain(c0))|, |Drain(c0).unread|);
    }
  }

  lemma SameHello(c: Link, d: Link)
    requires c.initializing == d.initializing && c.step == d.step
    ensures HelloLeft(c) == HelloLeft(d)
  {}

  lemma DrainSize(c: Link, d: Link, f: Bytes, vs: seq<Value>, k: nat)
    requires k <= |vs| && InStep(c, f, vs) && InStep(d, f, vs[k..])
    ensures |HelloLeft(c)| - |HelloLeft(d)| == |c.unread| - |d.unread| - |EncodeAll(vs[..k])|
  {
    hide EncodeAll;
    EncodeAllSplit(vs, k);
    assert |c.unread + f| == |HelloLeft(c)| + |EncodeAll(vs)|;
    assert |d.unread + f| == |HelloLeft(d)| + |EncodeAll(vs[k..])|;
  }

  lemma {:induction false} NeverStuck(c: Link, events: seq<Event>, vs: seq<Value>)
    requires InStep(c, Arrived(events), vs) && Dry(c, vs)
    requires Causal(|HelloLeft(c)|, |c.unread|, |c.inFrags|, events, vs)
    ensures !ReactAll(c, events).stuck
    decreases |events|
  {
    hide React, Encode, EncodeAll, HelloLeft, Dry, Causal;
    if events != [] {
      var left := CausalStep(c, events, vs);
      NeverStuck(React(c, events[0]), events[1..], left);
    }
  }

  /** A connection on which step handshake commands were sent and nothing was received. */
  function Opened(step: int): Link { Link(step, step > 0, [], [], [], false) }

  /** However the handshake replies and the replies vs are cut into reads, and however the reads interleave with the
      sending of requests, the k-th reply is attached to the k-th fragment that was sent, and nothing is left over. */
  lemma RepliesPaired(step: int, events: seq<Event>, vs: seq<Value>)
    requires 0 <= step <= 2 && AllWellFormed(vs) && Arrived(events) == Shortcut(step) + EncodeAll(vs)
    requires Causal(|Shortcut(step)|, 0, 0, events, vs)
    ensures var c := ReactAll(Opened(step), events);
            && !c.stuck && c.unread == [] && !c.initializing
            && |vs| <= |Entered(events)| && c.inFrags == Entered(events)[|vs|..]
            && c.attached == Pairs(Entered(events), vs)
  {
    hide ReactAll, EncodeAll, Pairs, Causal, Entered, Arrived, Encode;
    var c := Opened(step);
    if step > 0 { ShortcutStarts(step); }
    if vs != [] { EncodedNotEmpty(vs[0]); }
    assert [] + Arrived(events) == Arrived(events);
    NeverStuck(c, events, vs);
    ReactStream(c, events, vs);
    assert [] + Entered(events) == Entered(events) && [] + Pairs(Entered(events), vs) == Pairs(Entered(events), vs);
  }

  lemma EncodedNotEmpty(v: Value)
    ensures |Encode(v)| > 0
  {}

  // ----- what goes wrong

  /** The replies of a handshake that succeeds, to one command and to two. */
  lemma HandshakeTexts()
    ensures Shortcut(1) == "+OK\r\n" && Shortcut(2) == "+OK\r\n+OK\r\n"
  {}

  /** A handshake that is answered with an error: the error is taken for the reply to the oldest fragment, and without
      one the loop gets stuck. */
  lemma HelloRefused(c: Link, line: Bytes, rest: Bytes)
    requires c.initializing && 1 <= c.step <= 2 && '\n' !in line && c.unread == Encode(Failure(line)) + rest
    ensures c.inFrags != [] ==> Sread(c) == Done(Attached(c, Failure(line)))
    ensures c.inFrags == [] ==> Drain(c) == c.(stuck := true)
  {
    hide Decode, Encode;
    ShortcutStarts(c.step);
    assert c.unread + [] == c.unread;
    FailureStarts(line);
    ReplyDecoded(c, [], Failure(line), rest);
  }

  lemma FailureStarts(line: Bytes)
    ensures Encode(Failure(line)) != [] && Encode(Failure(line))[0] == '-'
  {}

  /** Bytes that are no handshake at all. */
  lemma HelloGarbage(c: Link)
    requires c.initializing && c.unread != [] && c.unread[0] != '-' && c.unread[0] != '+'
    ensures Drain(c) == c.(stuck := true)
  {
    hide Decode;
    if 1 <= c.step <= 2 { ShortcutStarts(c.step); }
  }

  /** Bytes that no reply can start with, and a reply that nobody waits for, get the loop stuck; an incomplete reply is
      waited for. */
  lemma Unpaired(c: Link)
    requires !c.initializing && c.unread != []
    ensures var o := ReadReply(c.unread, 0);
            && (o.Err? ==> Drain(c) == if o.error.InvalidResp? then c.(stuck := true) else c)
            && (o.Ok? && c.inFrags == [] ==> Drain(c) == c.(stuck := true))
  {
    hide ReadReply;
  }

  // ----- arbitrary bytes: the cuts do not matter

  function More(c: Link, x: Bytes): Link { c.(unread := c.unread + x) }

  function MoreOf(o: Outcome, x: Bytes): Outcome {
    match o
    case Done(c) => Done(More(c, x))
    case Waiting(c) => Waiting(More(c, x))
    case Failed(c) => Failed(More(c, x))
  }

  lemma InitializingMore(c: Link, x: Bytes)
    ensures var o := InitializingDecode(c); !o.Waiting? ==> InitializingDecode(More(c, x)) == MoreOf(o, x)
  {
    var s := Shortcut(c.step);
    var b := c.unread;
    if s <= b {
      assert s <= b + x && (b + x)[|s|..] == b[|s|..] + x;
    } else if !(b <= s) {
      Differ(b, s);
      var k :| 0 <= k < |b| && k < |s| && b[k] != s[k];
      assert (b + x)[k] != s[k];
    }
  }

  lemma Differ(b: Bytes, s: Bytes)
    requires !(b <= s) && !(s <= b)
    ensures exists k :: 0 <= k < |b| && k < |s| && b[k] != s[k]
  {
    var n := if |b| <= |s| then |b| else |s|;
    assert b[..n] != s[..n];
  }

  lemma DecodeMore(c: Link, x: Bytes)
    ensures var o := Decode(c); !o.Waiting? ==> Decode(More(c, x)) == MoreOf(o, x)
  {
    hide ReadReply;
    ReplyStable(c.unread, x, 0);
    var reply := ReadReply(c.unread, 0);
    if c.unread != [] && reply.Ok? {
      assert (c.unread + x)[reply.pos..] == c.unread[reply.pos..] + x;
      assert (c.unread + x)[..reply.pos] == c.unread[..reply.pos];
    }
  }

  /** What one round of the loop decides it decides with more bytes, and a wait can be taken up where it was left. */
  lemma SreadMore(c: Link, x: Bytes)
    ensures var o := Sread(c); if o.Waiting? then Sread(More(c, x)) == Sread(More(o.c, x))
                               else Sread(More(c, x)) == MoreOf(o, x)
  {
    hide InitializingDecode, Decode;
    DecodeMore(c, x);
    InitializingMore(c, x);
    var init := InitializingDecode(c);
    InitializedOnce(c);
    if c.initializing && init.Done? {
      DecodeMore(init.c, x);
      WaitKeeps(init.c);
      InitializingMore(init.c, x);
    } else {
      WaitKeeps(c);
    }
  }

  lemma WaitKeeps(c: Link)
    ensures Decode(c).Waiting? ==> Decode(c).c == c
  {
    hide ReadReply;
  }

  /** The handshake is left behind, or nothing has changed. */
  lemma InitializedOnce(c: Link)
    ensures var o := InitializingDecode(c); o.c == c || (o.Done? && !o.c.initializing)
  {}

  lemma SreadNotStuck(c: Link)
    ensures Sread(c).c.stuck == c.stuck
  {
    hide ReadReply;
  }

  /** Bytes that arrive in two parts leave what they leave when they arrive at once. */
  lemma {:induction false} DrainMore(c: Link, x: Bytes)
    requires !c.stuck
    ensures var d := Drain(c); Drain(More(c, x)) == if d.stuck then More(d, x) else Drain(More(d, x))
    decreases |c.unread|
  {
    hide Sread;
    SreadMore(c, x);
    SreadNotStuck(c);
    if Sread(c).Done? { DrainMore(Sread(c).c, x); }
  }

  /** The same events with the reads between two requests joined to one. */
  function Joined(events: seq<Event>): seq<Event> {
    if events == [] then []
    else
      var rest := Joined(events[1..]);
      if events[0].Arrive? && rest != [] && rest[0].Arrive? then [Arrive(events[0].chunk + rest[0].chunk)] + rest[1..]
      else [events[0]] + rest
  }

  /** Equal, but for the bytes that a stuck link does not look at any more. */
  ghost predicate SameLink(c: Link, d: Link) {
    c == d || (c.stuck && d == c.(unread := d.unread))
  }

  lemma ArriveJoined(c: Link, x: Bytes, y: Bytes)
    ensures SameLink(React(React(c, Arrive(x)), Arrive(y)), React(c, Arrive(x + y)))
  {
    hide Drain;
    if !c.stuck {
      DrainMore(More(c, x), y);
      Assoc(c.unread, x, y);
    }
  }

  lemma SameReact(c: Link, d: Link, events: seq<Event>)
    requires SameLink(c, d)
    ensures SameLink(ReactAll(c, events), ReactAll(d, events))
  {
    hide React;
    if c.stuck {
      StuckStays(c, events);
      StuckStays(d, events);
    }
  }

  lemma {:induction false} JoinedReacts(c: Link, events: seq<Event>)
    ensures SameLink(ReactAll(c, events), ReactAll(c, Joined(events)))
    decreases |events|
  {
    hide React;
    if events != [] {
      var e, rest := events[0], Joined(events[1..]);
      var c1 := React(c, e);
      JoinedReacts(c1, events[1..]);
      if e.Arrive? && rest != [] && rest[0].Arrive? {
        var both := Arrive(e.chunk + rest[0].chunk);
        assert Joined(events)[0] == both && Joined(events)[1..] == rest[1..];
        ArriveJoined(c, e.chunk, rest[0].chunk);
        SameReact(React(c1, rest[0]), React(c, both), rest[1..]);
      } else {
        assert Joined(events)[0] == e && Joined(events)[1..] == rest;
      }
    }
  }

  /** Whatever bytes Redis sends, however they are cut into reads between two requests, the same replies are attached to
      the same fragments, and the link waits or gets stuck in the same state. */
  lemma CutsDoNotMatter(c: Link, events: seq<Event>, others: seq<Event>)
    requires Joined(events) == Joined(others)
    ensures SameLink(ReactAll(c, events), ReactAll(c, others))
  {
    hide ReactAll, Joined;
    JoinedReacts(c, events);
    JoinedReacts(c, others);
  }
}
