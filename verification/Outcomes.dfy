/** What a client is told at the end of a run, in terms of the replies that the run brought: core/connection.go:183-221
    and core/codec_s.go:182-277 over any interleaving. */
module Outcomes {
  import opened Bytes
  import opened Slot
  import opened Command
  import opened Reply
  import opened Mget
  import opened Message
  import opened Answers
  import opened Sharding
  import opened Proxy
  import opened Runs

  // ----- the replies of a run

  /** The action is a reply to the open fragment f, and the run goes on after it. */
  ghost predicate Delivers(st: State, a: Action, f: FragId, maxLength: nat) {
    && Enabled(st, a) && a.Answer? && !Redirects(a.rtype)
    && ConnOf(st.conns, a.server).inFrags[0] == f && Open(st.msgs, f)
    && Running(Step(st, a, maxLength))
  }

  /** The reply that the run brought to fragment f. */
  ghost function ReplyTo(acts: seq<Action>, f: FragId, maxLength: nat): Option<Frag> {
    if acts == [] then None else
      var init, a := acts[..|acts| - 1], acts[|acts| - 1];
      if Delivers(Run(init, maxLength), a, f, maxLength) then Some(Frag(true, a.body, a.rtype))
      else ReplyTo(init, f, maxLength)
  }

  /** The reply is that of one of the actions. */
  lemma {:induction false} ReplyCame(acts: seq<Action>, f: FragId, maxLength: nat) returns (i: nat)
    requires ReplyTo(acts, f, maxLength).Some?
    ensures i < |acts| && Delivers(Run(acts[..i], maxLength), acts[i], f, maxLength)
    ensures ReplyTo(acts, f, maxLength).value == Frag(true, acts[i].body, acts[i].rtype)
  {
    hide Delivers, Run;
    var n := |acts| - 1;
    if Delivers(Run(acts[..n], maxLength), acts[n], f, maxLength) {
      i := n;
      IsAnswer(Run(acts[..n], maxLength), acts[n], f, maxLength);
    } else {
      i := ReplyCame(acts[..n], f, maxLength);
      assert acts[..n][..i] == acts[..i];
    }
  }

  lemma IsAnswer(st: State, a: Action, f: FragId, maxLength: nat)
    requires Delivers(st, a, f, maxLength)
    ensures a.Answer? && Enabled(st, a)
  {}

  // ----- what a message makes of them

  /** The reply to the fragment of slot s made the message fail. */
  ghost predicate RefusedAt(acts: seq<Action>, m: nat, x: MsgState, s: nat, maxLength: nat) {
    && s in x.body
    && ReplyTo(acts, FragId(m, s), maxLength).Some?
    && Refused(x.kind, ReplyTo(acts, FragId(m, s), maxLength).value.rspBody, maxLength)
  }

  ghost function RefusalAt(acts: seq<Action>, m: nat, s: nat, maxLength: nat): Bytes
    requires ReplyTo(acts, FragId(m, s), maxLength).Some?
  {
    Refusal(ReplyTo(acts, FragId(m, s), maxLength).value.rspBody, maxLength)
  }

  /** A fragment is as it was dispatched until its reply, and then it is the reply. */
  function FragAfter(reply: Option<Frag>): Frag { if reply.Some? then reply.value else Frag(false, [], RspUnknown) }

  /** Message m, which is x, is what the replies of the run have made of it. */
  ghost predicate Accounted(acts: seq<Action>, m: nat, x: MsgState, maxLength: nat) {
    && (x.failed <==> exists s :: RefusedAt(acts, m, x, s, maxLength))
    && (x.failed ==> exists s :: RefusedAt(acts, m, x, s, maxLength) && x.rspBody == RefusalAt(acts, m, s, maxLength))
    && (forall s :: s in x.body && !x.body[s].done ==> ReplyTo(acts, FragId(m, s), maxLength).None?)
    && (!x.failed ==> forall s :: s in x.body ==> x.body[s] == FragAfter(ReplyTo(acts, FragId(m, s), maxLength)))
  }

  // ----- one step

  lemma StepMessage(st: State, a: Action, m: nat, maxLength: nat)
    requires Enabled(st, a) && m in st.msgs
    ensures m in Step(st, a, maxLength).msgs
    ensures forall s :: Delivers(st, a, FragId(m, s), maxLength) ==>
              && s in st.msgs[m].body && !st.msgs[m].body[s].done
              && OnReply(st.msgs[m], s, a.body, a.rtype, maxLength) == Some(Step(st, a, maxLength).msgs[m])
    ensures (forall s :: !Delivers(st, a, FragId(m, s), maxLength)) ==> Step(st, a, maxLength).msgs[m] == st.msgs[m]
  {
    hide Settle, Dispatch, Pop, Push, Flush, NewMsg, OnReply, Permutes, Forwardable;
    if a.Answer? {
      var f := ConnOf(st.conns, a.server).inFrags[0];
      assert f.msg == m ==> f == FragId(m, f.slot);
    }
  }

  /** At most one fragment gets a reply in one step. */
  lemma OneDelivered(st: State, a: Action, f: FragId, g: FragId, maxLength: nat)
    requires Delivers(st, a, f, maxLength) && Delivers(st, a, g, maxLength)
    ensures f == g
  {}

  lemma Growing(st: State, a: Action, m: nat, maxLength: nat)
    requires Enabled(st, a) && m in st.msgs
    ensures m in Step(st, a, maxLength).msgs
  {
    hide Settle, Dispatch, Pop, Push, Flush, NewMsg, OnReply, Permutes, Forwardable;
  }

  /** A message that was not dispatched yet has got no reply. */
  lemma {:induction false} NoReplyYet(acts: seq<Action>, f: FragId, maxLength: nat)
    requires f.msg !in Run(acts, maxLength).msgs
    ensures ReplyTo(acts, f, maxLength).None?
  {
    hide Enabled, Step;
    if acts != [] {
      var init, a := acts[..|acts| - 1], acts[|acts| - 1];
      var st := Run(init, maxLength);
      if f.msg in st.msgs && Enabled(st, a) { Growing(st, a, f.msg, maxLength); }
      NoReplyYet(init, f, maxLength);
    }
  }

  lemma NewAccounted(acts: seq<Action>, m: nat, x: MsgState, maxLength: nat)
    requires !x.failed && forall s :: s in x.body ==> x.body[s] == Frag(false, [], RspUnknown)
    requires forall s :: ReplyTo(acts, FragId(m, s), maxLength).None?
    ensures Accounted(acts, m, x, maxLength)
  {
    hide ReplyTo;
  }

  lemma SameAccounted(acts: seq<Action>, acts': seq<Action>, m: nat, x: MsgState, maxLength: nat)
    requires Accounted(acts, m, x, maxLength)
    requires forall s :: ReplyTo(acts', FragId(m, s), maxLength) == ReplyTo(acts, FragId(m, s), maxLength)
    ensures Accounted(acts', m, x, maxLength)
  {
    hide ReplyTo, Refused, Refusal;
    forall s ensures RefusedAt(acts', m, x, s, maxLength) <==> RefusedAt(acts, m, x, s, maxLength) {}
  }

  /** An open fragment gets its reply. */
  lemma RepliedAccounted(acts: seq<Action>, acts': seq<Action>, m: nat, x: MsgState, s: nat, b: Bytes, t: ReplyType,
                         maxLength: nat)
    requires MsgInv(x, maxLength) && s in x.body && !x.body[s].done && Accounted(acts, m, x, maxLength)
    requires OnReply(x, s, b, t, maxLength).Some?
    requires ReplyTo(acts', FragId(m, s), maxLength) == Some(Frag(true, b, t))
    requires forall u :: u != s ==> ReplyTo(acts', FragId(m, u), maxLength) == ReplyTo(acts, FragId(m, u), maxLength)
    ensures Accounted(acts', m, OnReply(x, s, b, t, maxLength).value, maxLength)
  {
    hide ReplyTo, Refused, Refusal, OnReply, MsgInv, ReplyInv, CountsInv, DoneSlots;
    var x' := OnReply(x, s, b, t, maxLength).value;
    OpenIsNotDone(x, s, maxLength);
    FailsExactly(x, s, b, t, maxLength);
    ReplyKeepsRequest(x, s, b, t, maxLength);
    OnReplyKeepsInv(x, s, b, t, maxLength);
    assert RefusedAt(acts', m, x', s, maxLength) <==> x'.failed;
    forall u | u != s ensures !RefusedAt(acts', m, x', u, maxLength) {
      assert !RefusedAt(acts, m, x, u, maxLength);
    }
    OpenStays(x, x', s);
  }

  /** The fragments that are open after the reply were open before. */
  lemma OpenStays(x: MsgState, x': MsgState, s: nat)
    requires x'.body.Keys == x.body.Keys && s in x.body
    requires DoneSlots(x'.body) == (if x'.failed then x.body.Keys else DoneSlots(x.body) + {s})
    ensures forall u :: u in x'.body && !x'.body[u].done ==> u in x.body && !x.body[u].done && u != s
  {
    forall u | u in x'.body && !x'.body[u].done ensures u in x.body && !x.body[u].done && u != s {
      assert u !in DoneSlots(x'.body);
      assert u in x.body.Keys;
    }
  }

  // ----- every run

  lemma ReplyToSnoc(acts: seq<Action>, f: FragId, maxLength: nat)
    requires acts != []
    ensures var init, a := acts[..|acts| - 1], acts[|acts| - 1];
            ReplyTo(acts, f, maxLength) == if Delivers(Run(init, maxLength), a, f, maxLength)
                                           then Some(Frag(true, a.body, a.rtype)) else ReplyTo(init, f, maxLength)
  {
    hide Delivers, Run;
  }

  lemma FirstStep(st: State, a: Action, m: nat, maxLength: nat)
    requires Enabled(st, a) && m !in st.msgs && m in Step(st, a, maxLength).msgs
    ensures var x := Step(st, a, maxLength).msgs[m];
            !x.failed && forall s :: s in x.body ==> x.body[s] == Frag(false, [], RspUnknown)
  {
    hide Settle, Dispatch, Pop, Push, Flush, OnReply, Permutes, Forwardable;
  }

  lemma FirstAccounted(acts: seq<Action>, m: nat, maxLength: nat)
    requires acts != [] && m !in Run(acts[..|acts| - 1], maxLength).msgs && m in Run(acts, maxLength).msgs
    ensures Accounted(acts, m, Run(acts, maxLength).msgs[m], maxLength)
  {
    hide Enabled, Step, Accounted, ReplyTo;
    var init, a := acts[..|acts| - 1], acts[|acts| - 1];
    var st := Run(init, maxLength);
    forall s ensures ReplyTo(acts, FragId(m, s), maxLength).None? {
      ReplyToSnoc(acts, FragId(m, s), maxLength);
      NoReplyYet(init, FragId(m, s), maxLength);
    }
    FirstStep(st, a, m, maxLength);
    NewAccounted(acts, m, Run(acts, maxLength).msgs[m], maxLength);
  }

  lemma MessageInv(acts: seq<Action>, m: nat, maxLength: nat)
    requires m in Run(acts, maxLength).msgs
    ensures MsgInv(Run(acts, maxLength).msgs[m], maxLength)
  {
    hide Run, PlaceInv, ClientsInv, MsgInv;
    RunKeepsInv(acts, maxLength);
  }

  lemma DeliveredAccounted(acts: seq<Action>, m: nat, s: nat, maxLength: nat)
    requires acts != [] && m in Run(acts[..|acts| - 1], maxLength).msgs
    requires var init := acts[..|acts| - 1];
             && Delivers(Run(init, maxLength), acts[|acts| - 1], FragId(m, s), maxLength)
             && Accounted(init, m, Run(init, maxLength).msgs[m], maxLength)
    ensures m in Run(acts, maxLength).msgs && Accounted(acts, m, Run(acts, maxLength).msgs[m], maxLength)
  {
    hide Enabled, Step, Accounted, ReplyTo, OnReply, MsgInv, Delivers;
    var init, a := acts[..|acts| - 1], acts[|acts| - 1];
    var st := Run(init, maxLength);
    IsAnswer(st, a, FragId(m, s), maxLength);
    StepMessage(st, a, m, maxLength);
    MessageInv(init, m, maxLength);
    ReplyToSnoc(acts, FragId(m, s), maxLength);
    forall u | u != s ensures ReplyTo(acts, FragId(m, u), maxLength) == ReplyTo(init, FragId(m, u), maxLength) {
      ReplyToSnoc(acts, FragId(m, u), maxLength);
      if Delivers(st, a, FragId(m, u), maxLength) { OneDelivered(st, a, FragId(m, s), FragId(m, u), maxLength); }
    }
    RepliedAccounted(init, acts, m, st.msgs[m], s, a.body, a.rtype, maxLength);
  }

  /** In every run every message is what the replies of the run have made of it. */
  lemma {:induction false} RunAccounts(acts: seq<Action>, m: nat, maxLength: nat)
    requires m in Run(acts, maxLength).msgs
    ensures Accounted(acts, m, Run(acts, maxLength).msgs[m], maxLength)
  {
    hide Enabled, Step, Accounted, ReplyTo, Delivers;
    var init, a := acts[..|acts| - 1], acts[|acts| - 1];
    var st := Run(init, maxLength);
    if m !in st.msgs {
      FirstAccounted(acts, m, maxLength);
    } else {
      RunAccounts(init, m, maxLength);
      if s :| Delivers(st, a, FragId(m, s), maxLength) {
        DeliveredAccounted(acts, m, s, maxLength);
      } else {
        if Enabled(st, a) { StepMessage(st, a, m, maxLength); }
        forall s ensures ReplyTo(acts, FragId(m, s), maxLength) == ReplyTo(init, FragId(m, s), maxLength) {
          ReplyToSnoc(acts, FragId(m, s), maxLength);
        }
        SameAccounted(init, acts, m, st.msgs[m], maxLength);
      }
    }
  }

  // ----- end to end: requests that are not split

  /** The reply to the fragment of slot s, once there is one. */
  ghost function BodyTo(acts: seq<Action>, m: nat, s: nat, maxLength: nat): Bytes {
    var reply := ReplyTo(acts, FragId(m, s), maxLength);
    if reply.Some? then reply.value.rspBody else []
  }

  /** Of a message that is done and did not fail every fragment has its reply. */
  lemma AllReplied(acts: seq<Action>, m: nat, s: nat, maxLength: nat)
    requires m in Run(acts, maxLength).msgs
    requires var x := Run(acts, maxLength).msgs[m]; x.done && !x.failed && s in x.body
    ensures ReplyTo(acts, FragId(m, s), maxLength) == Some(Run(acts, maxLength).msgs[m].body[s])
  {
    hide Run, ReplyTo, ReplyInv, RefusedAt;
    var x := Run(acts, maxLength).msgs[m];
    RunAccounts(acts, m, maxLength);
    MessageInv(acts, m, maxLength);
    AllDone(x.body);
    assert s in DoneSlots(x.body);
  }

  /** A message that failed says so because of one of its replies. */
  lemma SomeRefused(acts: seq<Action>, m: nat, maxLength: nat) returns (s: nat)
    requires m in Run(acts, maxLength).msgs && Run(acts, maxLength).msgs[m].failed
    ensures var x := Run(acts, maxLength).msgs[m];
            && s in x.body && ReplyTo(acts, FragId(m, s), maxLength).Some?
            && Refused(x.kind, BodyTo(acts, m, s, maxLength), maxLength)
            && x.rspBody == Refusal(BodyTo(acts, m, s, maxLength), maxLength)
  {
    hide Run, ReplyTo, Refused, Refusal;
    RunAccounts(acts, m, maxLength);
    var x := Run(acts, maxLength).msgs[m];
    s :| RefusedAt(acts, m, x, s, maxLength) && x.rspBody == RefusalAt(acts, m, s, maxLength);
  }

  lemma NoneRefused(acts: seq<Action>, m: nat, s: nat, maxLength: nat)
    requires m in Run(acts, maxLength).msgs && !Run(acts, maxLength).msgs[m].failed
    requires s in Run(acts, maxLength).msgs[m].body && ReplyTo(acts, FragId(m, s), maxLength).Some?
    ensures !Refused(Run(acts, maxLength).msgs[m].kind, BodyTo(acts, m, s, maxLength), maxLength)
  {
    hide Run, ReplyTo, Refused, Refusal;
    RunAccounts(acts, m, maxLength);
    assert !RefusedAt(acts, m, Run(acts, maxLength).msgs[m], s, maxLength);
  }

  lemma OnlySlot(x: MsgState, s: nat, u: nat, maxLength: nat)
    requires MsgInv(x, maxLength) && !Splits(x.kind) && s in x.body && u in x.body
    ensures s == u
  {
    SubsetSize({s}, x.body.Keys);
  }

  /** A request that was not split is answered with the reply of its only fragment, byte for byte, or with the size
      error. */
  lemma SingleEndToEnd(acts: seq<Action>, i: nat, s: nat, maxLength: nat)
    requires Legal(acts, maxLength) && i < |acts|
    requires acts[i].Request? && !Splits(acts[i].req.kind) && s in acts[i].req.body
    requires acts[i].msg in Run(acts, maxLength).msgs && Run(acts, maxLength).msgs[acts[i].msg].done
    ensures ReplyTo(acts, FragId(acts[i].msg, s), maxLength).Some?
    ensures var b := BodyTo(acts, acts[i].msg, s, maxLength);
            Run(acts, maxLength).msgs[acts[i].msg].rspBody
            == if |b| > maxLength then "-ERR rsp msg length too large\r\n" else b
  {
    hide Run, Legal, ReplyTo, MsgInv;
    var m := acts[i].msg;
    var x := Run(acts, maxLength).msgs[m];
    RequestsRemembered(acts, i, maxLength);
    MessageInv(acts, m, maxLength);
    SameSlots(acts[i], x);
    if x.failed {
      var u := SomeRefused(acts, m, maxLength);
      OnlySlot(x, s, u, maxLength);
    } else {
      AllReplied(acts, m, s, maxLength);
      NoneRefused(acts, m, s, maxLength);
      SingleAnswer(x, s, maxLength);
    }
  }

  lemma SameSlots(a: Action, x: MsgState)
    requires a.Request? && SameRequest(x, NewMsg(a.client, a.req))
    ensures x.body.Keys == a.req.body.Keys && x.kind == a.req.kind && x.keys == a.req.keys && x.groups == a.req.frags
  {
    assert NewMsg(a.client, a.req).body.Keys == a.req.body.Keys;
  }

  // ----- MGET

  lemma {:induction false} ItoaGrows(m: nat, n: nat)
    requires m <= n
    ensures |Itoa(m)| <= |Itoa(n)|
  {
    if m >= 10 { ItoaGrows(m / 10, n / 10); }
  }

  lemma {:induction false} ValuesGrow(stores: map<nat, Store>, keys: seq<Bytes>, s: nat)
    ensures |EncodeAll(ValuesOf(stores, InSlot(keys, Hash, s)))| <= |EncodeAll(ValuesOf(stores, keys))|
  {
    hide Hash, Encode, EncodeAll, ValueOf;
    if keys == [] {
      assert ValuesOf(stores, keys) == ValuesOf(stores, InSlot(keys, Hash, s));
    } else {
      var init, k := keys[..|keys| - 1], keys[|keys| - 1];
      ValuesGrow(stores, init, s);
      EncodeAllSnoc(ValuesOf(stores, init), ValueOf(stores, k));
      assert ValuesOf(stores, keys) == ValuesOf(stores, init) + [ValueOf(stores, k)];
      if Hash(k) == s {
        var part := InSlot(init, Hash, s);
        EncodeAllSnoc(ValuesOf(stores, part), ValueOf(stores, k));
        assert ValuesOf(stores, part + [k]) == ValuesOf(stores, part) + [ValueOf(stores, k)];
      } else {
        assert InSlot(keys, Hash, s) == InSlot(init, Hash, s);
      }
    }
  }

  /** The reply of a shard is no longer than the reply to the whole request. */
  lemma ShardNotLonger(stores: map<nat, Store>, keys: seq<Bytes>, s: nat)
    requires s in Group(keys)
    ensures |MgetReply(stores, Group(keys)[s])| <= |MgetReply(stores, keys)|
  {
    hide Hash, EncodeAll, Itoa;
    GroupsPartition(keys, Hash, s);
    InSlotNotLonger(keys, s);
    var part := InSlot(keys, Hash, s);
    ValuesGrow(stores, keys, s);
    ItoaGrows(|part|, |keys|);
    ArrayParts(ValuesOf(stores, part));
    ArrayParts(ValuesOf(stores, keys));
  }

  lemma ShardLists(stores: map<nat, Store>, keys: seq<Bytes>, s: nat)
    requires Encodable(stores, keys) && s in Group(keys)
    ensures Listed(MgetReply(stores, Group(keys)[s])) != []
  {
    hide GroupBy, Hash, ParseItems, ValueOf, Encode;
    GroupNotLonger(keys, s);
    GroupMembers(keys, Hash, s);
    ItemsRoundTrip(ValuesOf(stores, Group(keys)[s]));
  }

  /** Once an MGET of the run is done, and the shards that replied did so with the values of their keys, the client gets
      the reply of the unsplit MGET on the keys of the request, or the size error if that is over the limit. */
  lemma MgetEndToEnd(acts: seq<Action>, i: nat, stores: map<nat, Store>, maxLength: nat)
    requires Legal(acts, maxLength) && i < |acts|
    requires acts[i].Request? && acts[i].req.kind.Mget? && Encodable(stores, acts[i].req.keys)
    requires acts[i].msg in Run(acts, maxLength).msgs && Run(acts, maxLength).msgs[acts[i].msg].done
    requires forall s :: s in Group(acts[i].req.keys) && ReplyTo(acts, FragId(acts[i].msg, s), maxLength).Some? ==>
               BodyTo(acts, acts[i].msg, s, maxLength) == MgetReply(stores, Group(acts[i].req.keys)[s])
    ensures var reply := MgetReply(stores, acts[i].req.keys);
            Run(acts, maxLength).msgs[acts[i].msg].rspBody
            == if |reply| > maxLength then "-ERR rsp msg length too large\r\n" else reply
  {
    hide Run, Legal, MsgInv, MgetReply, Encodable, GroupBy, ReplyTo, Listed;
    var m, keys := acts[i].msg, acts[i].req.keys;
    var x := Run(acts, maxLength).msgs[m];
    RequestsRemembered(acts, i, maxLength);
    MessageInv(acts, m, maxLength);
    SameSlots(acts[i], x);
    ShapedOf(x, maxLength);
    if x.failed {
      var s := SomeRefused(acts, m, maxLength);
      ShardLists(stores, keys, s);
      ShardNotLonger(stores, keys, s);
    } else {
      forall s | s in x.body ensures x.body[s].rspBody == MgetReply(stores, x.groups[s]) {
        AllReplied(acts, m, s, maxLength);
      }
      MgetAnswer(x, stores, maxLength);
    }
  }

  // ----- DEL

  /** An integer reply. */
  function Counted(n: nat): Bytes { Encode(Integer(Itoa(n))) }

  lemma DelReplyIsInteger(n: nat)
    ensures DelReply(n) == Counted(n)
  {
    hide Itoa;
    var v := Integer(Itoa(n));
    assert Header(v) == ":" + Itoa(n) && Body(v) == [];
    assert Encode(v) == Header(v) + CRLF + Body(v);
    assert Header(v) + CRLF + [] == Header(v) + CRLF;
  }

  /** One of the replies to the message was over the limit. */
  ghost predicate SomeTooLarge(acts: seq<Action>, m: nat, maxLength: nat) {
    exists s :: ReplyTo(acts, FragId(m, s), maxLength).Some? && |BodyTo(acts, m, s, maxLength)| > maxLength
  }

  /** Only fragments of the message get replies. */
  lemma {:induction false} ReplyKnown(acts: seq<Action>, f: FragId, maxLength: nat)
    requires ReplyTo(acts, f, maxLength).Some?
    ensures Known(Run(acts, maxLength).msgs, f)
  {
    hide Enabled, Step, Delivers, ReplyTo;
    NothingReplied(f, maxLength);
    var init, a := acts[..|acts| - 1], acts[|acts| - 1];
    var st := Run(init, maxLength);
    ReplyToSnoc(acts, f, maxLength);
    if Delivers(st, a, f, maxLength) { IsOpen(st, a, f, maxLength); } else { ReplyKnown(init, f, maxLength); }
    if Enabled(st, a) { StepKeepsRequest(st, a, f.msg, maxLength); }
  }

  lemma NothingReplied(f: FragId, maxLength: nat)
    ensures ReplyTo([], f, maxLength).None?
  {}

  lemma IsOpen(st: State, a: Action, f: FragId, maxLength: nat)
    requires Delivers(st, a, f, maxLength)
    ensures Open(st.msgs, f)
  {}

  /** A message other than MGET fails exactly if one of its replies was over the limit. */
  lemma TooLargeExactly(acts: seq<Action>, m: nat, maxLength: nat)
    requires m in Run(acts, maxLength).msgs && !Run(acts, maxLength).msgs[m].kind.Mget?
    ensures var x := Run(acts, maxLength).msgs[m];
            && (x.failed <==> SomeTooLarge(acts, m, maxLength))
            && (x.failed ==> x.rspBody == "-ERR rsp msg length too large\r\n")
  {
    hide Run, ReplyTo;
    var x := Run(acts, maxLength).msgs[m];
    if x.failed {
      var s := SomeRefused(acts, m, maxLength);
      assert |BodyTo(acts, m, s, maxLength)| > maxLength;
    } else {
      forall s | ReplyTo(acts, FragId(m, s), maxLength).Some? ensures |BodyTo(acts, m, s, maxLength)| <= maxLength {
        ReplyKnown(acts, FragId(m, s), maxLength);
        NoneRefused(acts, m, s, maxLength);
      }
    }
  }

  /** The shards ran their fragments of a DEL in the given order, and those that replied did so with their counts. */
  ghost predicate DelReplies(acts: seq<Action>, m: nat, keys: seq<Bytes>, store: Store, order: seq<nat>,
                             maxLength: nat)
  {
    && Permutes(order, Group(keys))
    && forall j :: 0 <= j < |order| && order[j] in Group(keys) ==>
         ReplyTo(acts, FragId(m, order[j]), maxLength).Some? ==>
           BodyTo(acts, m, order[j], maxLength)
           == Counted(ExecDel(RunDel(store, Group(keys), order[..j]).0, Group(keys)[order[j]]).1)
  }

  lemma DelWasAnswered(acts: seq<Action>, m: nat, keys: seq<Bytes>, store: Store, order: seq<nat>, x: MsgState,
                       maxLength: nat)
    requires DelReplies(acts, m, keys, store, order, maxLength)
    requires x.groups == Group(keys) && x.body.Keys == Group(keys).Keys
    requires forall s :: s in x.body ==> ReplyTo(acts, FragId(m, s), maxLength) == Some(x.body[s])
    ensures DelAnswered(x, store, order)
  {
    hide ReplyTo, GroupBy, ExecDel, RunDel, DelReply, Counted;
    forall j | 0 <= j < |order|
      ensures && order[j] in x.body && order[j] in x.groups
              && x.body[order[j]].rspBody
                 == DelReply(ExecDel(RunDel(store, x.groups, order[..j]).0, x.groups[order[j]]).1)
    {
      assert order[j] in Elements(order);
      DelReplyIsInteger(ExecDel(RunDel(store, Group(keys), order[..j]).0, Group(keys)[order[j]]).1);
    }
  }

  /** The client gets the count of the unsplit DEL, whatever order the shards ran and replied in, unless a reply was
      over the limit. */
  lemma DelEndToEnd(acts: seq<Action>, i: nat, store: Store, order: seq<nat>, maxLength: nat)
    requires Legal(acts, maxLength) && i < |acts|
    requires acts[i].Request? && acts[i].req.kind.Del? && |acts[i].req.keys| <= MAX_INT
    requires acts[i].msg in Run(acts, maxLength).msgs && Run(acts, maxLength).msgs[acts[i].msg].done
    requires DelReplies(acts, acts[i].msg, acts[i].req.keys, store, order, maxLength)
    ensures Run(acts, maxLength).msgs[acts[i].msg].rspBody
            == if SomeTooLarge(acts, acts[i].msg, maxLength) then "-ERR rsp msg length too large\r\n"
               else Counted(ExecDel(store, acts[i].req.keys).1)
  {
    hide Run, Legal, MsgInv, DelReplies, DelAnswered, ExecDel, ReplyTo, Counted, SomeTooLarge, DelReply;
    var m, keys := acts[i].msg, acts[i].req.keys;
    var x := Run(acts, maxLength).msgs[m];
    RequestsRemembered(acts, i, maxLength);
    MessageInv(acts, m, maxLength);
    SameSlots(acts[i], x);
    ShapedOf(x, maxLength);
    TooLargeExactly(acts, m, maxLength);
    if !x.failed {
      forall s | s in x.body ensures ReplyTo(acts, FragId(m, s), maxLength) == Some(x.body[s]) {
        AllReplied(acts, m, s, maxLength);
      }
      DelWasAnswered(acts, m, keys, store, order, x, maxLength);
      DelAnswer(x, store, order, maxLength);
      DelReplyIsInteger(ExecDel(store, keys).1);
    }
  }

  /** What the replies to the given fragments count, all in all. */
  ghost function SumOf(acts: seq<Action>, m: nat, slots: seq<nat>, maxLength: nat): int {
    if slots == [] then 0
    else SumOf(acts, m, slots[..|slots| - 1], maxLength) + DelCount(BodyTo(acts, m, slots[|slots| - 1], maxLength))
  }

  lemma {:induction false} SumsAgree(acts: seq<Action>, m: nat, body: map<nat, Frag>, slots: seq<nat>, maxLength: nat)
    requires forall s :: s in slots ==> s in body && ReplyTo(acts, FragId(m, s), maxLength) == Some(body[s])
    ensures SumCounts(body, slots) == SumOf(acts, m, slots, maxLength)
  {
    hide ReplyTo, DelCount;
    if slots != [] {
      assert slots == slots[..|slots| - 1] + [slots[|slots| - 1]];
      SumsAgree(acts, m, body, slots[..|slots| - 1], maxLength);
    }
  }

  /** Whatever the shards reply to a DEL, within the limit, the client gets the sum of the counts in 64 bits. */
  lemma DelSums(acts: seq<Action>, i: nat, order: seq<nat>, maxLength: nat)
    requires Legal(acts, maxLength) && i < |acts|
    requires acts[i].Request? && acts[i].req.kind.Del? && Permutes(order, acts[i].req.body)
    requires acts[i].msg in Run(acts, maxLength).msgs && Run(acts, maxLength).msgs[acts[i].msg].done
    requires !SomeTooLarge(acts, acts[i].msg, maxLength)
    ensures Run(acts, maxLength).msgs[acts[i].msg].rspBody
            == DelReply(Wrap64(SumOf(acts, acts[i].msg, order, maxLength)))
  {
    hide Run, Legal, ReplyTo, SomeTooLarge, DelReply, SumCounts, SumOf, Distinct, GroupBy, DelCount, Wrap64;
    var m := acts[i].msg;
    var x := Run(acts, maxLength).msgs[m];
    RequestsRemembered(acts, i, maxLength);
    MessageInv(acts, m, maxLength);
    SameSlots(acts[i], x);
    TooLargeExactly(acts, m, maxLength);
    AllAnswered(x, maxLength);
    forall s | s in order ensures s in x.body && ReplyTo(acts, FragId(m, s), maxLength) == Some(x.body[s]) {
      assert s in Elements(order);
      AllReplied(acts, m, s, maxLength);
    }
    assert forall s :: s in order <==> s in Elements(order);
    assert forall s :: s in x.arrived <==> s in Elements(x.arrived);
    SumPermutes(x.body, x.arrived, order);
    SumsAgree(acts, m, x.body, order, maxLength);
  }

  /** An integer counts what it says, and an error whose text is no number counts as minus one. */
  lemma DelCounts(n: nat, line: Bytes)
    requires n <= MAX_INT
    ensures DelCount(Counted(n)) == n
    ensures ParseLen(line).BadLength? ==> DelCount(Encode(Failure(line))) == -1
  {
    hide ParseLen, Counted;
    DelReplyIsInteger(n);
    DelCountOf(n);
    var v := Failure(line);
    assert Header(v) == "-" + line && Body(v) == [];
    var b := Encode(v);
    assert b == Header(v) + CRLF + Body(v) == Header(v) + CRLF;
    assert b[1..|b| - 2] == line;
  }

  /** So a DEL on one shard that fails is answered with minus one. */
  lemma DelErrorAnswered(acts: seq<Action>, i: nat, s: nat, line: Bytes, maxLength: nat)
    requires Legal(acts, maxLength) && i < |acts|
    requires acts[i].Request? && acts[i].req.kind.Del? && acts[i].req.body.Keys == {s}
    requires acts[i].msg in Run(acts, maxLength).msgs && Run(acts, maxLength).msgs[acts[i].msg].done
    requires !SomeTooLarge(acts, acts[i].msg, maxLength) && ParseLen(line).BadLength?
    requires BodyTo(acts, acts[i].msg, s, maxLength) == Encode(Failure(line))
    ensures Run(acts, maxLength).msgs[acts[i].msg].rspBody == ":-1\r\n"
  {
    hide Run, Legal, SomeTooLarge, BodyTo, ParseLen, Encode, DelCount;
    var order: seq<nat> := [s];
    OnlyOne(s, acts[i].req.body);
    DelSums(acts, i, order, maxLength);
    DelCounts(0, line);
    assert order[..0] == [];
    assert SumOf(acts, acts[i].msg, order, maxLength) == -1;
    MinusOne();
  }

  lemma OnlyOne<T>(s: nat, body: map<nat, T>)
    requires body.Keys == {s}
    ensures Permutes([s], body)
  {
    var order: seq<nat> := [s];
    assert order[..0] == [];
    assert Elements<nat>(order) == {s};
  }

  lemma MinusOne()
    ensures DelReply(Wrap64(-1)) == ":-1\r\n"
  {
    assert Wrap64(-1) == -1;
    assert Itoa(1) == "1";
  }

  // ----- MSET

  /** Every fragment has got a reply that starts with the word OK. */
  ghost predicate AllSaidOk(acts: seq<Action>, m: nat, slots: set<nat>, maxLength: nat) {
    forall s :: s in slots ==> "+OK" <= BodyTo(acts, m, s, maxLength)
  }

  /** The client is told OK exactly if every shard said so, and in whatever order the shards ran they leave the store of
      the unsplit MSET on the pairs of the request. */
  lemma MsetEndToEnd(acts: seq<Action>, i: nat, args: seq<Bytes>, raw: Bytes, store: Store, order: seq<nat>,
                     maxLength: nat)
    requires Legal(acts, maxLength) && i < |acts|
    requires acts[i].Request? && acts[i].req == MakeMsg(Mset, args, raw) && Permutes(order, acts[i].req.body)
    requires acts[i].msg in Run(acts, maxLength).msgs && Run(acts, maxLength).msgs[acts[i].msg].done
    requires forall j :: 0 <= j < |acts| && acts[j].Answer? ==>
               ReadReply(acts[j].body, 0) == Ok(acts[j].rtype, |acts[j].body|)
    ensures Run(acts, maxLength).msgs[acts[i].msg].rspBody
            == if SomeTooLarge(acts, acts[i].msg, maxLength) then "-ERR rsp msg length too large\r\n"
               else if AllSaidOk(acts, acts[i].msg, acts[i].req.body.Keys, maxLength) then "+OK\r\n"
               else "-ERR unknown error\r\n"
    ensures RunMset(store, GroupPairs(Pairs(args)), order) == ExecMset(store, Pairs(args))
  {
    hide Run, Legal, MsgInv, RunMset, ExecMset, GroupBy, Pairs, EncodeCommand, Firsts, ReplyTo, SomeTooLarge, ReadReply;
    var m := acts[i].msg;
    var x := Run(acts, maxLength).msgs[m];
    RequestsRemembered(acts, i, maxLength);
    MessageInv(acts, m, maxLength);
    SameSlots(acts[i], x);
    TooLargeExactly(acts, m, maxLength);
    assert acts[i].req.body.Keys == GroupPairs(Pairs(args)).Keys;
    ShardedMset(store, Pairs(args), order);
    if !x.failed {
      forall s | s in x.body ensures x.body[s].rspType.RspOk? <==> "+OK" <= BodyTo(acts, m, s, maxLength) {
        AllReplied(acts, m, s, maxLength);
        var j := ReplyCame(acts, FragId(m, s), maxLength);
        IsAnswer(Run(acts[..j], maxLength), acts[j], FragId(m, s), maxLength);
        ReplyWords(acts[j].body);
      }
      MsetAnswer(x, maxLength);
    }
  }
}
