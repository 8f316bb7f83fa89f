/** Whole runs of the protocol: what holds in every reachable state, for any interleaving of clients and servers. */
module Runs {
  import opened Bytes
  import opened Command
  import opened Reply
  import opened Mget
  import opened Message
  import opened Answers
  import opened Sharding
  import opened Proxy

  /** The state after the given actions. */
  ghost function Run(acts: seq<Action>, maxLength: nat): State {
    if acts == [] then Init() else
      var st, a := Run(acts[..|acts| - 1], maxLength), acts[|acts| - 1];
      if Enabled(st, a) then Step(st, a, maxLength) else st
  }

  /** Every action could happen when it did. */
  ghost predicate Legal(acts: seq<Action>, maxLength: nat) {
    acts == [] ||
    (Legal(acts[..|acts| - 1], maxLength) && Enabled(Run(acts[..|acts| - 1], maxLength), acts[|acts| - 1]))
  }

  lemma {:induction false} RunKeepsInv(acts: seq<Action>, maxLength: nat)
    ensures Inv(Run(acts, maxLength), maxLength)
  {
    hide Inv, Enabled, Step;
    if acts == [] {
      InitInv(maxLength);
    } else {
      var st, a := Run(acts[..|acts| - 1], maxLength), acts[|acts| - 1];
      RunKeepsInv(acts[..|acts| - 1], maxLength);
      if Enabled(st, a) { StepKeepsInv(st, a, maxLength); }
    }
  }

  // ----- conservation of fragments

  /** In every reachable state the counter of a message is the number of its answered fragments, the message is
      done exactly if that is all of them, and an open fragment is at exactly one position of exactly one connection,
      unless a redirect found no connection for it. */
  lemma FragmentsConserved(acts: seq<Action>, m: nat, s: nat, maxLength: nat)
    requires m in Run(acts, maxLength).msgs
    ensures var st := Run(acts, maxLength);
            var x := st.msgs[m];
            && x.doneNumber == |DoneSlots(x.body)|
            && (x.done <==> x.doneNumber == |x.body|)
            && (s in x.body && !x.body[s].done ==>
                  (FragId(m, s) !in st.lost <==> exists t, i :: At(st.conns, t, i, FragId(m, s))))
            && (forall t, i, t', i' :: At(st.conns, t, i, FragId(m, s)) && At(st.conns, t', i', FragId(m, s)) ==>
                  t == t' && i == i')
  {
    hide Run, At, ClientsInv, ReplyInv;
    RunKeepsInv(acts, maxLength);
    var st := Run(acts, maxLength);
    assert MsgInv(st.msgs[m], maxLength);
    assert s in st.msgs[m].body && !st.msgs[m].body[s].done ==> Open(st.msgs, FragId(m, s));
  }

  /** This action is a redirect of fragment f that finds no connection. */
  ghost predicate Drops(st: State, a: Action, f: FragId) {
    Enabled(st, a) && a.Answer? && Redirects(a.rtype) && a.target.None? && ConnOf(st.conns, a.server).inFrags[0] == f
  }

  lemma StepDrops(st: State, a: Action, f: FragId, maxLength: nat)
    requires Enabled(st, a)
    ensures f in Step(st, a, maxLength).lost <==> f in st.lost || Drops(st, a, f)
  {
    hide Settle, Dispatch, Pop, Push, Flush, OnReply, NewMsg, Permutes, Forwardable, AllDoneIn;
  }

  ghost predicate DropsAt(acts: seq<Action>, i: nat, f: FragId, maxLength: nat) {
    i < |acts| && Drops(Run(acts[..i], maxLength), acts[i], f)
  }

  lemma DropsBefore(acts: seq<Action>, i: nat, f: FragId, maxLength: nat)
    requires i + 1 < |acts|
    ensures DropsAt(acts[..|acts| - 1], i, f, maxLength) <==> DropsAt(acts, i, f, maxLength)
  {
    hide Drops, Run;
    assert acts[..|acts| - 1][..i] == acts[..i];
  }

  /** The fragments that are lost are exactly those. */
  lemma {:induction false} LostExactly(acts: seq<Action>, f: FragId, maxLength: nat)
    ensures f in Run(acts, maxLength).lost <==> exists i :: DropsAt(acts, i, f, maxLength)
  {
    hide Step, DropsAt, Enabled;
    if acts == [] {
      forall i ensures !DropsAt(acts, i, f, maxLength) { NoDrop(i, f, maxLength); }
    } else {
      var n := |acts| - 1;
      var init, a := acts[..n], acts[n];
      var st := Run(init, maxLength);
      LostExactly(init, f, maxLength);
      forall i: nat | i < n ensures DropsAt(init, i, f, maxLength) <==> DropsAt(acts, i, f, maxLength) {
        DropsBefore(acts, i, f, maxLength);
      }
      DropsInside(init, f, maxLength);
      DropsInside(acts, f, maxLength);
      LastDrop(acts, f, maxLength);
      if Enabled(st, a) { StepDrops(st, a, f, maxLength); }
    }
  }

  lemma NoDrop(i: nat, f: FragId, maxLength: nat)
    ensures !DropsAt([], i, f, maxLength)
  {}

  lemma DropsInside(acts: seq<Action>, f: FragId, maxLength: nat)
    ensures forall i: nat :: DropsAt(acts, i, f, maxLength) ==> i < |acts|
  {}

  lemma LastDrop(acts: seq<Action>, f: FragId, maxLength: nat)
    requires acts != []
    ensures var n := |acts| - 1;
            && (DropsAt(acts, n, f, maxLength) <==> Drops(Run(acts[..n], maxLength), acts[n], f))
            && (DropsAt(acts, n, f, maxLength) ==> Enabled(Run(acts[..n], maxLength), acts[n]))
  {
    hide Run, Permutes, Forwardable;
  }

  // ----- exactly once and in order

  /** The messages that the run dispatched for client c, in that order. */
  function Requested(acts: seq<Action>, c: nat): seq<nat> {
    if acts == [] then [] else
      var a := acts[|acts| - 1];
      Requested(acts[..|acts| - 1], c) + (if a.Request? && a.client == c then [a.msg] else [])
  }

  lemma SettleKeepsForwarded(msgs: map<nat, MsgState>, k: Client)
    ensures Settle(msgs, k).forwarded == k.forwarded
  {}

  lemma StepForwards(st: State, a: Action, c: nat, maxLength: nat)
    requires Enabled(st, a)
    ensures ClientOf(Step(st, a, maxLength).clients, c).forwarded
         == ClientOf(st.clients, c).forwarded + (if a.Request? && a.client == c then [a.msg] else [])
  {
    hide Settle, Dispatch, Pop, Push, Flush, OnReply, NewMsg, Permutes, Forwardable, AllDoneIn;
    forall msgs: map<nat, MsgState>, k ensures Settle(msgs, k).forwarded == k.forwarded {
      SettleKeepsForwarded(msgs, k);
    }
  }

  lemma {:induction false} ForwardedAsRequested(acts: seq<Action>, c: nat, maxLength: nat)
    requires Legal(acts, maxLength)
    ensures ClientOf(Run(acts, maxLength).clients, c).forwarded == Requested(acts, c)
  {
    hide Enabled, Step;
    if acts != [] {
      var init, a := acts[..|acts| - 1], acts[|acts| - 1];
      StepForwards(Run(init, maxLength), a, c, maxLength);
      ForwardedAsRequested(init, c, maxLength);
    }
  }

  /** No fragment of the client is outstanding: neither queued, nor on the wire, nor dropped. */
  ghost predicate Quiet(st: State, c: nat) {
    forall f :: Open(st.msgs, f) && st.msgs[f.msg].owner == c ==> !Placed(st.conns, f) && f !in st.lost
  }

  lemma QuietDone(st: State, m: nat, c: nat, maxLength: nat)
    requires Inv(st, maxLength) && Quiet(st, c) && m in st.msgs && st.msgs[m].owner == c
    ensures st.msgs[m].done
  {
    hide ClientsInv, Unique, Placed, ReplyInv, Shaped;
    var body := st.msgs[m].body;
    assert MsgInv(st.msgs[m], maxLength);
    forall s | s in body ensures s in DoneSlots(body) {
      assert !Open(st.msgs, FragId(m, s));
    }
    assert DoneSlots(body) == body.Keys;
    AllDone(body);
  }

  lemma QuietEmpty(st: State, c: nat, maxLength: nat)
    requires Inv(st, maxLength) && Quiet(st, c)
    ensures ClientOf(st.clients, c).queue == []
  {
    hide MsgsInv, PlaceInv, Quiet, Distinct, Bodies;
    var k := ClientOf(st.clients, c);
    assert ClientInv(st.msgs, c, k);
    forall m | m in k.queue && m in st.msgs ensures st.msgs[m].done {
      assert m in k.forwarded;
      QuietDone(st, m, c, maxLength);
    }
  }

  /** These bytes of out are the reply of message m. */
  ghost predicate IsReply(out: Bytes, from: nat, to: nat, msgs: map<nat, MsgState>, m: nat) {
    m in msgs && from <= to <= |out| && out[from..to] == msgs[m].rspBody
  }

  /** The bytes from cuts[i] to cuts[i + 1] are the reply of the i-th message, and there are no other bytes. */
  ghost predicate RepliesInTurn(out: Bytes, msgs: map<nat, MsgState>, ms: seq<nat>, cuts: seq<nat>) {
    && |cuts| == |ms| + 1 && cuts[0] == 0 && cuts[|ms|] == |out|
    && forall i {:trigger ms[i]} :: 0 <= i < |ms| ==> IsReply(out, cuts[i], cuts[i + 1], msgs, ms[i])
  }

  lemma OneMoreReply(out: Bytes, msgs: map<nat, MsgState>, ms: seq<nat>, cuts: seq<nat>, m: nat)
    requires RepliesInTurn(out, msgs, ms, cuts) && m in msgs
    ensures var out' := out + msgs[m].rspBody; RepliesInTurn(out', msgs, ms + [m], cuts + [|out'|])
  {
    var out', ms' := out + msgs[m].rspBody, ms + [m];
    var cuts' := cuts + [|out'|];
    forall i {:trigger ms'[i]} | 0 <= i < |ms'| ensures IsReply(out', cuts'[i], cuts'[i + 1], msgs, ms'[i]) {
      if i < |ms| {
        assert IsReply(out, cuts[i], cuts[i + 1], msgs, ms[i]);
        assert out'[cuts[i]..cuts[i + 1]] == out[cuts[i]..cuts[i + 1]];
      }
    }
  }

  lemma {:induction false} BodiesInTurn(msgs: map<nat, MsgState>, ms: seq<nat>) returns (cuts: seq<nat>)
    requires forall m :: m in ms ==> m in msgs
    ensures RepliesInTurn(Bodies(msgs, ms), msgs, ms, cuts)
  {
    if ms == [] {
      cuts := [0];
    } else {
      hide RepliesInTurn;
      var init, m := ms[..|ms| - 1], ms[|ms| - 1];
      cuts := BodiesInTurn(msgs, init);
      OneMoreReply(Bodies(msgs, init), msgs, init, cuts, m);
      assert init + [m] == ms;
      cuts := cuts + [|Bodies(msgs, ms)|];
    }
  }

  /** The bytes released to a client are the replies of its requests, each once and in request order; the rest of
      its requests is still queued, and one of these is not done; and once no fragment of the client is outstanding
      nothing is left to answer. */
  lemma ExactlyOnceInOrder(acts: seq<Action>, c: nat, maxLength: nat)
    requires Legal(acts, maxLength)
    ensures var st := Run(acts, maxLength);
            var k := ClientOf(st.clients, c);
            && !k.closed && Distinct(Requested(acts, c))
            && Requested(acts, c) == k.answered + k.queue
            && (exists cuts :: RepliesInTurn(k.out, st.msgs, k.answered, cuts))
            && (forall m :: m in k.answered ==> m in st.msgs && st.msgs[m].done && st.msgs[m].owner == c)
            && (k.queue != [] ==> exists m :: m in k.queue && m in st.msgs && !st.msgs[m].done)
            && (Quiet(st, c) ==> k.queue == [] && k.answered == Requested(acts, c))
  {
    hide Run, Legal, MsgsInv, PlaceInv, Quiet, Distinct, Bodies, RepliesInTurn;
    RunKeepsInv(acts, maxLength);
    ForwardedAsRequested(acts, c, maxLength);
    var st := Run(acts, maxLength);
    var k := ClientOf(st.clients, c);
    assert ClientInv(st.msgs, c, k);
    assert forall m :: m in k.answered ==> m in k.forwarded;
    var cuts := BodiesInTurn(st.msgs, k.answered);
    if Quiet(st, c) {
      QuietEmpty(st, c, maxLength);
      assert k.answered + [] == k.answered;
    }
  }

  /** So a client with one answered request has got its reply and nothing else. */
  lemma OneAnswer(out: Bytes, msgs: map<nat, MsgState>, m: nat, cuts: seq<nat>)
    requires RepliesInTurn(out, msgs, [m], cuts)
    ensures m in msgs && out == msgs[m].rspBody
  {
    assert [m][0] == m && out[0..|out|] == out;
  }

  // ----- a message stays the request it was made from

  ghost predicate SameRequest(x: MsgState, y: MsgState) {
    x.owner == y.owner && x.kind == y.kind && x.keys == y.keys && x.groups == y.groups && x.body.Keys == y.body.Keys
  }

  lemma StepKeepsRequest(st: State, a: Action, m: nat, maxLength: nat)
    requires Enabled(st, a) && m in st.msgs
    ensures var st' := Step(st, a, maxLength); m in st'.msgs && SameRequest(st'.msgs[m], st.msgs[m])
  {
    hide Settle, Dispatch, Pop, Push, Flush, NewMsg, Permutes, Forwardable, ParseItems, Merge, ItemsOf, AllOk, DelReply;
    if a.Answer? {
      var f := ConnOf(st.conns, a.server).inFrags[0];
      if Open(st.msgs, f) { ReplyKeepsRequest(st.msgs[f.msg], f.slot, a.body, a.rtype, maxLength); }
    }
  }

  lemma ReplyKeepsRequest(m: MsgState, s: nat, b: Bytes, t: ReplyType, maxLength: nat)
    requires s in m.body && !m.body[s].done
    ensures var r := OnReply(m, s, b, t, maxLength); r.Some? ==> SameRequest(r.value, m)
  {
    hide ParseItems, Merge, ItemsOf, AllOk, DelReply, DelCount, Fail;
    FailKeepsRequest(m, RSP_TOO_LARGE);
    FailKeepsRequest(Recorded(m, s, b, t), ERR_UNKNOWN_MGET);
    assert Recorded(m, s, b, t).body.Keys == m.body.Keys;
  }

  lemma FailKeepsRequest(m: MsgState, error: Bytes)
    ensures SameRequest(Fail(m, error), m)
  {
    assert Fail(m, error).body.Keys == m.body.Keys;
  }

  lemma {:induction false} RequestsRemembered(acts: seq<Action>, i: nat, maxLength: nat)
    requires Legal(acts, maxLength) && i < |acts| && acts[i].Request?
    ensures var st := Run(acts, maxLength);
            acts[i].msg in st.msgs && SameRequest(st.msgs[acts[i].msg], NewMsg(acts[i].client, acts[i].req))
    decreases |acts|
  {
    hide Enabled, SameRequest, NewMsg;
    var init, a := acts[..|acts| - 1], acts[|acts| - 1];
    var st := Run(init, maxLength);
    if i == |acts| - 1 {
      Dispatched(st, a, maxLength);
    } else {
      RequestsRemembered(init, i, maxLength);
      StepKeepsRequest(st, a, acts[i].msg, maxLength);
      SameTrans(Run(acts, maxLength).msgs[acts[i].msg], st.msgs[acts[i].msg], NewMsg(acts[i].client, acts[i].req));
    }
  }

  lemma Dispatched(st: State, a: Action, maxLength: nat)
    requires Enabled(st, a) && a.Request?
    ensures var st' := Step(st, a, maxLength);
            a.msg in st'.msgs && SameRequest(st'.msgs[a.msg], NewMsg(a.client, a.req))
  {
    hide Dispatch, Permutes, Forwardable, NewMsg;
  }

  lemma SameTrans(x: MsgState, y: MsgState, z: MsgState)
    requires SameRequest(x, y) && SameRequest(y, z)
    ensures SameRequest(x, z)
  {}

  lemma ShapedOf(m: MsgState, maxLength: nat)
    requires MsgInv(m, maxLength)
    ensures Shaped(m.kind, m.keys, m.groups, m.body.Keys)
  {}

  // ----- what was said is never taken back

  /** k is what k0 became: more was released, nothing was changed. */
  predicate Grew(k0: Client, k: Client) { k0.out <= k.out && k0.answered <= k.answered && k0.forwarded <= k.forwarded }

  lemma StepGrows(st: State, a: Action, c: nat, maxLength: nat)
    requires Enabled(st, a)
    ensures Grew(ClientOf(st.clients, c), ClientOf(Step(st, a, maxLength).clients, c))
  {
    hide Bodies, Dispatch, Pop, Push, Flush, OnReply, NewMsg, Permutes, Forwardable, AllDoneIn;
  }

  lemma {:induction false} OutputOnlyGrows(acts: seq<Action>, n: nat, c: nat, maxLength: nat)
    requires n <= |acts|
    ensures Grew(ClientOf(Run(acts[..n], maxLength).clients, c), ClientOf(Run(acts, maxLength).clients, c))
    decreases |acts|
  {
    hide Enabled, Step;
    if n == |acts| {
      assert acts[..n] == acts;
    } else {
      var init, a := acts[..|acts| - 1], acts[|acts| - 1];
      assert init[..n] == acts[..n];
      OutputOnlyGrows(init, n, c, maxLength);
      var st := Run(init, maxLength);
      if Enabled(st, a) { StepGrows(st, a, c, maxLength); }
    }
  }
}
