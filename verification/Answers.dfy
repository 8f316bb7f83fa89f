/** What the client is told, end to end: the reply of a finished message compared with the reply one Redis would
    have given to the unsplit request. */
module Answers {
  import opened Bytes
  import opened Slot
  import opened Command
  import opened Reply
  import opened Mget
  import opened Message
  import opened Sharding

  lemma AllAnswered(m: MsgState, maxLength: nat)
    requires MsgInv(m, maxLength) && m.done && !m.failed
    ensures DoneSlots(m.body) == m.body.Keys && Distinct(m.arrived) && Elements(m.arrived) == m.body.Keys
  {
    AllDone(m.body);
  }

  // ----- MGET

  /** If every shard answered its fragment with the values of its keys, the client gets the unsplit reply. */
  lemma MgetAnswer(m: MsgState, stores: map<nat, Store>, maxLength: nat)
    requires MsgInv(m, maxLength) && m.kind.Mget? && m.done && !m.failed && Encodable(stores, m.keys)
    requires forall s :: s in m.body ==> m.body[s].rspBody == MgetReply(stores, m.groups[s])
    ensures var reply := MgetReply(stores, m.keys);
            m.rspBody == if |reply| > maxLength then RSP_TOO_LARGE else reply
  {
    hide GroupBy, MgetReply, Merge, Encodable, ParseItems, NoCount, SumCounts, DoneSlots, Distinct;
    forall s | s in m.groups ensures Some(ItemsOf(m.body)[s]) == ParseItems(MgetReply(stores, m.groups[s])) {
      ShardReplyParses(stores, m.keys, s);
    }
    MgetReassembles(stores, m.keys, ItemsOf(m.body), maxLength);
  }

  lemma ShardReplyParses(stores: map<nat, Store>, keys: seq<Bytes>, s: nat)
    requires Encodable(stores, keys) && s in Group(keys)
    ensures ParseItems(MgetReply(stores, Group(keys)[s])).Some?
  {
    hide GroupBy, Hash, ParseItems, ValueOf;
    GroupNotLonger(keys, s);
    GroupMembers(keys, Hash, s);
    ItemsRoundTrip(ValuesOf(stores, Group(keys)[s]));
  }

  // ----- DEL

  /** The reply of every fragment is the count of the shard that ran it, in some order of the fragments. */
  ghost predicate DelAnswered(m: MsgState, st: Store, order: seq<nat>) {
    && Permutes(order, m.groups)
    && forall i :: 0 <= i < |order| ==>
         && order[i] in m.body && order[i] in m.groups
         && m.body[order[i]].rspBody == DelReply(ExecDel(RunDel(st, m.groups, order[..i]).0, m.groups[order[i]]).1)
  }

  lemma DelCountOf(n: nat)
    requires n <= MAX_INT
    ensures DelCount(DelReply(n)) == n
  {
    hide Itoa, ParseLen;
    var b := DelReply(n);
    assert b[1..|b| - 2] == Itoa(n);
    ParseLenItoa(n);
  }

  lemma {:induction false} DelCountBound(st: Store, keys: seq<Bytes>)
    ensures ExecDel(st, keys).1 <= |keys|
  {
    if keys != [] { DelCountBound(st, keys[..|keys| - 1]); }
  }

  lemma DelStep(m: MsgState, st: Store, order: seq<nat>, n: nat)
    requires DelAnswered(m, st, order) && n < |order| && m.groups == Group(m.keys) && |m.keys| <= MAX_INT
    ensures var s := order[n];
            DelCount(m.body[s].rspBody) == ExecDel(RunDel(st, m.groups, order[..n]).0, m.groups[s]).1
  {
    hide GroupBy, ExecDel, RunDel, DelReply, DelCount, Permutes;
    var s := order[n];
    GroupNotLonger(m.keys, s);
    var before := RunDel(st, m.groups, order[..n]).0;
    DelCountBound(before, m.groups[s]);
    DelCountOf(ExecDel(before, m.groups[s]).1);
  }

  lemma {:induction false} SumIsRun(m: MsgState, st: Store, order: seq<nat>, n: nat)
    requires DelAnswered(m, st, order) && n <= |order| && m.groups == Group(m.keys) && |m.keys| <= MAX_INT
    ensures SumCounts(m.body, order[..n]) == RunDel(st, m.groups, order[..n]).1
  {
    hide GroupBy, ExecDel, DelCount, DelReply, Permutes;
    if n > 0 {
      SumIsRun(m, st, order, n - 1);
      assert order[..n][..n - 1] == order[..n - 1] && order[n - 1] in m.body;
      DelStep(m, st, order, n - 1);
    }
  }

  function Without(xs: seq<nat>, x: nat): seq<nat> {
    if xs == [] then [] else
      var init, last := xs[..|xs| - 1], xs[|xs| - 1];
      if last == x then init else Without(init, x) + [last]
  }

  lemma {:induction false} WithoutRemoves(body: map<nat, Frag>, xs: seq<nat>, x: nat)
    requires Distinct(xs) && x in xs && x in body
    ensures var ys := Without(xs, x);
            && Distinct(ys) && (forall y :: y in ys <==> y in xs && y != x)
            && SumCounts(body, xs) == SumCounts(body, ys) + DelCount(body[x].rspBody)
  {
    hide DelCount;
    var init, last := xs[..|xs| - 1], xs[|xs| - 1];
    assert xs == init + [last];
    if last != x {
      WithoutRemoves(body, init, x);
      assert Without(xs, x)[..|Without(init, x)|] == Without(init, x);
    }
  }

  /** The sum does not depend on the order in which the replies arrived. */
  lemma {:induction false} SumPermutes(body: map<nat, Frag>, xs: seq<nat>, ys: seq<nat>)
    requires Distinct(xs) && Distinct(ys) && (forall x :: x in xs <==> x in ys) && (forall x :: x in xs ==> x in body)
    ensures SumCounts(body, xs) == SumCounts(body, ys)
  {
    hide DelCount, Without;
    if xs == [] {
      DistinctSize(ys, {});
    } else {
      var init, last := xs[..|xs| - 1], xs[|xs| - 1];
      assert xs == init + [last];
      WithoutRemoves(body, ys, last);
      SumPermutes(body, init, Without(ys, last));
    }
  }

  /** The client gets the count of the unsplit DEL, whatever order the shards ran and answered in. */
  lemma DelAnswer(m: MsgState, st: Store, order: seq<nat>, maxLength: nat)
    requires MsgInv(m, maxLength) && m.kind.Del? && m.done && !m.failed && |m.keys| <= MAX_INT
    requires DelAnswered(m, st, order)
    ensures m.rspBody == DelReply(ExecDel(st, m.keys).1)
  {
    hide GroupBy, ExecDel, RunDel, DelCount, DelReply, Distinct, SumCounts;
    AllAnswered(m, maxLength);
    assert forall s :: s in order <==> s in Elements(order);
    assert forall s :: s in m.arrived <==> s in Elements(m.arrived);
    SumPermutes(m.body, m.arrived, order);
    assert order[..|order|] == order;
    SumIsRun(m, st, order, |order|);
    ShardedDel(st, m.keys, order);
    DelCountBound(st, m.keys);
  }

  // ----- MSET and the rest

  /** MSET answers OK exactly if every shard did, and otherwise the one error. */
  lemma MsetAnswer(m: MsgState, maxLength: nat)
    requires MsgInv(m, maxLength) && m.kind.Mset? && m.done && !m.failed
    ensures m.rspBody == OK <==> forall s :: s in m.body ==> m.body[s].rspType.RspOk?
    ensures m.rspBody == OK || m.rspBody == ERR_UNKNOWN
  {
    assert OK[0] != ERR_UNKNOWN[0];
  }

  /** A request that is not split is answered with the bytes of its only fragment. */
  lemma SingleAnswer(m: MsgState, s: nat, maxLength: nat)
    requires MsgInv(m, maxLength) && !Splits(m.kind) && m.done && !m.failed && s in m.body
    ensures m.rspBody == m.body[s].rspBody
  {
    AllAnswered(m, maxLength);
    SubsetSize({s}, m.body.Keys);
    assert m.arrived != [] ==> m.arrived[0] in Elements(m.arrived);
    assert s in Elements(m.arrived);
  }

  // ----- panics

  /** The merge reads past an answer exactly if it does so for one of the keys. */
  lemma {:induction false} PiecesExactly(keys: seq<Bytes>, groups: map<nat, seq<Bytes>>, rsp: map<nat, seq<Bytes>>)
    ensures Pieces(keys, groups, rsp).None? <==> exists k :: k in keys && Piece(groups, rsp, k).None?
  {
    hide Piece;
    if keys != [] {
      var init, last := keys[..|keys| - 1], keys[|keys| - 1];
      assert keys == init + [last];
      PiecesExactly(init, groups, rsp);
    }
  }

  /** Every fragment but that of slot s has been answered. */
  predicate OnlyOpen(m: MsgState, s: nat) { forall t :: t in m.body && t != s ==> m.body[t].done }

  function Listed(b: Bytes): seq<Bytes> { if ParseItems(b).Some? then ParseItems(b).value else [] }

  /** The items of slot t when b is the reply of slot s. */
  function ItemsWith(m: MsgState, s: nat, b: Bytes, t: nat): seq<Bytes> {
    if t == s then Listed(b) else if t in m.body then Listed(m.body[t].rspBody) else []
  }

  /** With b as the reply of slot s, the answer of the shard of key k is too short to hold the first place of k. */
  predicate Missing(m: MsgState, s: nat, b: Bytes, k: Bytes) {
    Hash(k) in m.groups && |ItemsWith(m, s, b, Hash(k))| <= FirstIndex(m.groups[Hash(k)], k)
  }

  /** The replies that a handler panics on: a DEL body that is too short to slice, an MGET header without a count, and
      an MGET reply that is the last one and completes answers of which one is too short. */
  ghost predicate Panics(m: MsgState, s: nat, b: Bytes, maxLength: nat) {
    && |b| <= maxLength
    && (|| (m.kind.Del? && |b| < 3)
        || (m.kind.Mget? && NoCount(b))
        || (m.kind.Mget? && OnlyOpen(m, s) && Listed(b) != [] && exists k :: k in m.keys && Missing(m, s, b, k)))
  }

  lemma MissingIsNone(m: MsgState, s: nat, b: Bytes, t: ReplyType, k: Bytes)
    requires m.kind.Mget? && Shaped(m.kind, m.keys, m.groups, m.body.Keys) && s in m.body && k in m.keys
    ensures Piece(m.groups, ItemsOf(Recorded(m, s, b, t).body), k).None? <==> Missing(m, s, b, k)
  {
    hide Hash, GroupBy, ParseItems, FirstIndex;
    GroupMembers(m.keys, Hash, Hash(k));
  }

  lemma MergePanics(m: MsgState, s: nat, b: Bytes, t: ReplyType, maxLength: nat)
    requires m.kind.Mget? && Shaped(m.kind, m.keys, m.groups, m.body.Keys) && s in m.body
    ensures Merge(m.keys, m.groups, ItemsOf(Recorded(m, s, b, t).body), maxLength).None?
       <==> exists k :: k in m.keys && Missing(m, s, b, k)
  {
    hide GroupBy, ItemsOf, Piece, Pieces, Missing, Itoa;
    PiecesExactly(m.keys, m.groups, ItemsOf(Recorded(m, s, b, t).body));
    forall k | k in m.keys
      ensures Piece(m.groups, ItemsOf(Recorded(m, s, b, t).body), k).None? <==> Missing(m, s, b, k)
    {
      MissingIsNone(m, s, b, t, k);
    }
  }

  lemma OnlyOpenIsLast(m: MsgState, s: nat, b: Bytes, t: ReplyType, maxLength: nat)
    requires MsgInv(m, maxLength) && s in m.body && !m.body[s].done
    ensures var r := Recorded(m, s, b, t); r.doneNumber <= |r.body| && (r.doneNumber == |r.body| <==> OnlyOpen(m, s))
  {
    hide GroupBy, SumCounts, Assembled;
    RecordedInv(m, s, b, t, maxLength);
    var r := Recorded(m, s, b, t);
    AllDone(r.body);
    assert OnlyOpen(m, s) ==> DoneSlots(r.body) == r.body.Keys;
    assert DoneSlots(r.body) == r.body.Keys ==> OnlyOpen(m, s) by {
      assert forall u :: u in m.body ==> u in r.body;
    }
  }

  lemma MgetPanicsExactly(m: MsgState, s: nat, b: Bytes, t: ReplyType, maxLength: nat)
    requires MsgInv(m, maxLength) && m.kind.Mget? && s in m.body && !m.body[s].done
    ensures OnMget(Recorded(m, s, b, t), b, maxLength).None?
       <==> NoCount(b) || (OnlyOpen(m, s) && Listed(b) != [] && exists k :: k in m.keys && Missing(m, s, b, k))
  {
    hide ParseItems, Merge, ItemsOf, Missing, OnlyOpen, ReplyInv, NoCount, GroupBy, DoneSlots;
    OnlyOpenIsLast(m, s, b, t, maxLength);
    MergePanics(m, s, b, t, maxLength);
  }

  /** A handler panics on a reply if and only if the reply is one of those. */
  lemma PanicsExactly(m: MsgState, s: nat, b: Bytes, t: ReplyType, maxLength: nat)
    requires MsgInv(m, maxLength) && s in m.body && !m.body[s].done
    ensures OnReply(m, s, b, t, maxLength).None? <==> Panics(m, s, b, maxLength)
  {
    hide MsgInv, OnMget, Missing, OnlyOpen, NoCount, ItemsWith, AllOk, DelReply, DelCount;
    if m.kind.Mget? { MgetPanicsExactly(m, s, b, t, maxLength); }
  }

  // ----- errors of the proxy's own

  /** The reply ends the message with an error: it is over the limit, or it is to an MGET and lists nothing. */
  predicate Refused(kind: Kind, b: Bytes, maxLength: nat) { |b| > maxLength || (kind.Mget? && Listed(b) == []) }

  /** The error that the client gets then. */
  function Refusal(b: Bytes, maxLength: nat): Bytes {
    if |b| > maxLength then "-ERR rsp msg length too large\r\n" else "-ERR unknown mget error\r\n"
  }

  /** A message fails exactly on such a reply, and with that error; any other reply is recorded as it came. */
  lemma FailsExactly(m: MsgState, s: nat, b: Bytes, t: ReplyType, maxLength: nat)
    requires MsgInv(m, maxLength) && s in m.body && !m.body[s].done && OnReply(m, s, b, t, maxLength).Some?
    ensures var m' := OnReply(m, s, b, t, maxLength).value;
            && (m'.failed <==> Refused(m.kind, b, maxLength))
            && (m'.failed ==> m'.done && m'.rspBody == Refusal(b, maxLength))
            && (!m'.failed ==> m'.body == m.body[s := Frag(true, b, t)])
  {
    hide MsgInv, ParseItems, Merge, ItemsOf, AllOk, DelReply, DelCount;
    OpenIsNotDone(m, s, maxLength);
  }

  // ----- replies that are fine whatever the siblings are

  /** For every key of its fragment an MGET reply has an item at the first place of the key. */
  ghost predicate Serves(groups: map<nat, seq<Bytes>>, s: nat, b: Bytes) {
    !NoCount(b) && (s in groups ==> forall k :: k in groups[s] ==> FirstIndex(groups[s], k) < |Listed(b)|)
  }

  /** What a handler asks of one reply by itself. */
  ghost predicate Handled(m: MsgState, s: nat, b: Bytes) {
    && (m.kind.Del? ==> |b| >= 3)
    && (m.kind.Mget? ==> Serves(m.groups, s, b) || (!NoCount(b) && Listed(b) == []))
  }

  ghost predicate HandledSoFar(m: MsgState) {
    m.kind.Mget? && !m.failed ==> forall s :: s in DoneSlots(m.body) ==> Serves(m.groups, s, m.body[s].rspBody)
  }

  lemma NothingMissing(m: MsgState, s: nat, b: Bytes, k: Bytes)
    requires m.kind.Mget? && Shaped(m.kind, m.keys, m.groups, m.body.Keys) && k in m.keys && OnlyOpen(m, s)
    requires Serves(m.groups, s, b) && HandledSoFar(m) && !m.failed
    ensures !Missing(m, s, b, k)
  {
    hide Hash, GroupBy, ParseItems, FirstIndex, NoCount;
    GroupMembers(m.keys, Hash, Hash(k));
    var t := Hash(k);
    assert t != s ==> t in DoneSlots(m.body) && Serves(m.groups, t, m.body[t].rspBody);
  }

  lemma HandledIsSafe(m: MsgState, s: nat, b: Bytes, maxLength: nat)
    requires MsgInv(m, maxLength) && HandledSoFar(m) && s in m.body && !m.body[s].done && Handled(m, s, b)
    ensures !Panics(m, s, b, maxLength)
  {
    hide ReplyInv, HandledSoFar, Serves, Missing, OnlyOpen, NoCount, ItemsWith, GroupBy, DoneSlots;
    OpenIsNotDone(m, s, maxLength);
    if m.kind.Mget? && OnlyOpen(m, s) && Listed(b) != [] {
      forall k | k in m.keys ensures !Missing(m, s, b, k) {
        NothingMissing(m, s, b, k);
      }
    }
    if m.kind.Mget? && Serves(m.groups, s, b) { ServesCounts(m.groups, s, b); }
  }

  lemma ServesCounts(groups: map<nat, seq<Bytes>>, s: nat, b: Bytes)
    requires Serves(groups, s, b)
    ensures !NoCount(b)
  {}

  lemma RecordedHandled(m: MsgState, s: nat, b: Bytes, t: ReplyType, maxLength: nat)
    requires MsgInv(m, maxLength) && HandledSoFar(m) && s in m.body && !m.body[s].done && Serves(m.groups, s, b)
    ensures HandledSoFar(Recorded(m, s, b, t))
  {
    hide ParseItems, GroupBy, Assembled, SumCounts, NoCount;
    OpenIsNotDone(m, s, maxLength);
  }

  /** A reply that is handled by itself does not panic, now or when the other fragments complete. */
  lemma NoPanic(m: MsgState, s: nat, b: Bytes, t: ReplyType, maxLength: nat)
    requires MsgInv(m, maxLength) && HandledSoFar(m) && s in m.body && !m.body[s].done
    requires |b| <= maxLength ==> Handled(m, s, b)
    ensures OnReply(m, s, b, t, maxLength).Some? && HandledSoFar(OnReply(m, s, b, t, maxLength).value)
  {
    hide ParseItems, Merge, DelCount, DelReply, GroupBy, ItemsOf, AllOk, DoneSlots, Serves, NoCount,
      ReplyInv, Missing, OnlyOpen;
    PanicsExactly(m, s, b, t, maxLength);
    if |b| <= maxLength {
      HandledIsSafe(m, s, b, maxLength);
      if m.kind.Mget? && Serves(m.groups, s, b) { RecordedHandled(m, s, b, t, maxLength); }
    }
  }

  /** A shard that answers with an array of as many plain values as it was asked for keys is handled. */
  lemma ArrayHandled(m: MsgState, s: nat, vs: seq<Value>)
    requires s in m.groups && |vs| == |m.groups[s]| <= MAX_STRINGS && forall i :: 0 <= i < |vs| ==> Plain(vs[i])
    ensures Handled(m, s, Encode(Array(vs)))
  {
    hide ParseItems, Itoa, EncodeAll, NoCount;
    ItemsRoundTrip(vs);
  }

  /** An error reply to an MGET fragment, by contrast, always panics unless its text is a number. */
  lemma ErrorReplyPanics(m: MsgState, s: nat, line: Bytes, t: ReplyType, maxLength: nat)
    requires m.kind.Mget? && s in m.body && !m.body[s].done
    requires WellFormed(Failure(line)) && |line| + 3 <= maxLength
    ensures var len := ParseLen(line);
            NoCount(Encode(Failure(line))) <==> len.BadLength? || len.n < 0 || len.n > MAX_STRINGS
    ensures NoCount(Encode(Failure(line))) ==> OnReply(m, s, Encode(Failure(line)), t, maxLength).None?
  {
    hide Lies, ReadLine, ParseLen, Items;
    var v := Failure(line);
    var b := Encode(v);
    LiesIsSlice(b, 0, b);
    EncodingSplits(b, 0, v);
    HeaderIsLine(v);
    LineLies(b, 0, Header(v));
    assert Header(v)[1..] == line;
  }
}
