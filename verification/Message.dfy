/** One client request while its fragments are answered: core/connection.go:183-221 and the MGet, MSet, Del
    and Default handlers of core/codec_s.go:182-277. */
module Message {
  import opened Bytes
  import opened Slot
  import opened Command
  import opened Reply
  import opened Mget
  import opened Sharding

  datatype Frag = Frag(done: bool, rspBody: Bytes, rspType: ReplyType)

  /** arrived lists the answered slots in the order of their replies; failed tells that the error path was taken.
      Both are recorded only to state what the other fields mean. */
  datatype MsgState = MsgState(
    owner: nat,
    kind: Kind,
    keys: seq<Bytes>,
    groups: map<nat, seq<Bytes>>,
    body: map<nat, Frag>,
    doneNumber: nat,
    delNum: int,
    done: bool,
    rspBody: Bytes,
    arrived: seq<nat>,
    failed: bool)

  const OK: Bytes := "+OK\r\n"
  const ERR_UNKNOWN: Bytes := "-ERR unknown error\r\n"
  const ERR_UNKNOWN_MGET: Bytes := "-ERR unknown mget error\r\n"

  /** The message that a decoded request becomes when it is dispatched. */
  function NewMsg(owner: nat, req: Command.Msg): MsgState {
    MsgState(owner, req.kind, req.keys, req.frags, map s | s in req.body :: Frag(false, [], RspUnknown),
             0, 0, false, [], [], false)
  }

  predicate Splits(kind: Kind) { kind.Mget? || kind.Del? || kind.Mset? }

  /** One fragment per slot of the request; several only for MGET, DEL and MSET. */
  ghost predicate Shaped(kind: Kind, keys: seq<Bytes>, groups: map<nat, seq<Bytes>>, slots: set<nat>) {
    && slots != {} && (!Splits(kind) ==> |slots| == 1)
    && (kind.Mget? || kind.Del? ==> groups == Group(keys) && slots == groups.Keys)
  }

  /** What every dispatched request satisfies. */
  ghost predicate Forwardable(req: Command.Msg) { Shaped(req.kind, req.keys, req.frags, req.body.Keys) }

  lemma SomeGroup<T>(xs: seq<T>, slot: T -> nat)
    requires xs != []
    ensures GroupBy(xs, slot) != map[]
  {
    assert slot(xs[|xs| - 1]) in GroupBy(xs, slot);
  }

  lemma MadeForwardable(kind: Kind, args: seq<Bytes>, raw: Bytes)
    requires kind.Mget? || kind.Del? ==> args != []
    requires kind.Mset? ==> |args| >= 2
    ensures Forwardable(MakeMsg(kind, args, raw))
  {
    hide Hash, GroupBy, EncodeCommand, Pairs, Firsts;
    var body := MakeMsg(kind, args, raw).body;
    if kind.Mset? {
      SomeGroup(Pairs(args), PairSlot);
      assert body.Keys == GroupPairs(Pairs(args)).Keys;
    } else if kind.Mget? || kind.Del? {
      SomeGroup(args, Hash);
      assert body.Keys == Group(args).Keys;
    } else {
      var s := if kind.Eval? then (if |args| > 2 then Hash(args[2]) else 0)
               else (if args != [] then Hash(args[0]) else 0);
      assert body.Keys == {s};
    }
  }

  /** Every request that the client decoder produces can be dispatched. */
  lemma DecodedForwardable(b: Bytes, maxLength: nat)
    requires Decode(b, maxLength).Message?
    ensures Forwardable(Decode(b, maxLength).msg)
  {
    hide ReadLine, ParseLen, ParseArg, ParseArgs, ToLower, Hash, GroupBy, Forwardable, MakeMsg;
    var line := ReadLine(b, 0);
    var n := ParseLen(line.value[1..]).n - 1;
    var command := ParseArg(b, line.pos);
    var kind := if |b| > maxLength then TooLarge else KindOf(ToLower(command.value), n);
    var args := ParseArgs(b, command.pos, n);
    MadeForwardable(kind, args.value, Lowered(b, command)[..args.pos]);
  }

  /** The count in an integer reply; a body that is no number counts as minus one. */
  function DelCount(b: Bytes): int {
    if |b| < 3 then -1 else
      var len := ParseLen(b[1..|b| - 2]);
      if len.BadLength? then -1 else len.n
  }

  function Decimal(n: int): Bytes { if n < 0 then "-" + Itoa(-n) else Itoa(n) }

  function DelReply(n: int): Bytes { ":" + Decimal(n) + CRLF }

  function ItemsOf(body: map<nat, Frag>): map<nat, seq<Bytes>> {
    map s | s in body :: match ParseItems(body[s].rspBody) case Some(items) => items case None => []
  }

  predicate AllOk(body: map<nat, Frag>) { forall s :: s in body ==> body[s].rspType.RspOk? }

  /** The error path: every fragment counts as done, and the error is the reply. */
  function Fail(m: MsgState, error: Bytes): MsgState {
    m.(body := map s | s in m.body :: m.body[s].(done := true),
       doneNumber := |m.body|, done := true, rspBody := error, failed := true)
  }

  /** The message after the bookkeeping that all handlers share. */
  function Recorded(m: MsgState, s: nat, b: Bytes, t: ReplyType): MsgState {
    m.(body := m.body[s := Frag(true, b, t)], doneNumber := m.doneNumber + 1, arrived := m.arrived + [s])
  }

  /** MGet: wait for the other fragments, then merge. None stands for a panic. */
  function OnMget(m: MsgState, b: Bytes, maxLength: nat): Option<MsgState> {
    match ParseItems(b)
    case None => None
    case Some(items) =>
      if items == [] then Some(Fail(m, ERR_UNKNOWN_MGET))
      else if m.doneNumber < |m.body| then Some(m)
      else match Merge(m.keys, m.groups, ItemsOf(m.body), maxLength)
           case None => None
           case Some(reply) => Some(m.(done := true, rspBody := reply))
  }

  function OnMset(m: MsgState): MsgState {
    if m.doneNumber < |m.body| then m else m.(done := true, rspBody := if AllOk(m.body) then OK else ERR_UNKNOWN)
  }

  /** Del: a body too short to slice is a panic. */
  function OnDel(m: MsgState, b: Bytes): Option<MsgState> {
    if |b| < 3 then None
    else
      var m' := m.(delNum := Wrap64(m.delNum + DelCount(b)));
      Some(if m.doneNumber < |m.body| then m' else m'.(done := true, rspBody := DelReply(m'.delNum)))
  }

  /** The reply b of the given type for the fragment of slot s, which is not done. None stands for a panic. */
  function OnReply(m: MsgState, s: nat, b: Bytes, t: ReplyType, maxLength: nat): Option<MsgState>
    requires s in m.body && !m.body[s].done
  {
    if |b| > maxLength then Some(Fail(m, RSP_TOO_LARGE))
    else
      var r := Recorded(m, s, b, t);
      match m.kind
      case Mget => OnMget(r, b, maxLength)
      case Mset => Some(OnMset(r))
      case Del => OnDel(r, b)
      case _ => Some(r.(done := true, rspBody := b))
  }

  // ----- what the counters and the reply mean

  function DoneSlots(body: map<nat, Frag>): set<nat> { set s | s in body && body[s].done }

  /** The sum of the counts of the given slots. */
  function SumCounts(body: map<nat, Frag>, slots: seq<nat>): int {
    if slots == [] then 0
    else SumCounts(body, slots[..|slots| - 1])
         + (if slots[|slots| - 1] in body then DelCount(body[slots[|slots| - 1]].rspBody) else 0)
  }

  /** The reply that the recorded answers of the fragments add up to. */
  function Assembled(m: MsgState, maxLength: nat): Option<Bytes> {
    match m.kind
    case Mget => Merge(m.keys, m.groups, ItemsOf(m.body), maxLength)
    case Mset => Some(if AllOk(m.body) then OK else ERR_UNKNOWN)
    case Del => Some(DelReply(Wrap64(SumCounts(m.body, m.arrived))))
    case _ => if m.arrived != [] && m.arrived[0] in m.body then Some(m.body[m.arrived[0]].rspBody) else None
  }

  ghost predicate CountsInv(m: MsgState) {
    && Shaped(m.kind, m.keys, m.groups, m.body.Keys)
    && m.doneNumber == |DoneSlots(m.body)|
    && (m.done <==> m.doneNumber == |m.body|)
  }

  ghost predicate ReplyInv(m: MsgState, maxLength: nat) {
    if m.failed then m.done && m.rspBody in {RSP_TOO_LARGE, ERR_UNKNOWN_MGET}
    else
      && Distinct(m.arrived) && (forall s :: s in m.arrived <==> s in DoneSlots(m.body))
      && (m.kind.Del? ==> m.delNum == Wrap64(SumCounts(m.body, m.arrived)))
      && (m.done ==> Assembled(m, maxLength) == Some(m.rspBody))
  }

  ghost predicate MsgInv(m: MsgState, maxLength: nat) { CountsInv(m) && ReplyInv(m, maxLength) }

  lemma NewMsgInv(owner: nat, req: Command.Msg, maxLength: nat)
    requires Forwardable(req)
    ensures MsgInv(NewMsg(owner, req), maxLength)
  {
    var m := NewMsg(owner, req);
    assert m.body.Keys == req.body.Keys && DoneSlots(m.body) == {};
  }

  lemma FailInv(m: MsgState, error: Bytes, maxLength: nat)
    requires Shaped(m.kind, m.keys, m.groups, m.body.Keys)
    requires error in {RSP_TOO_LARGE, ERR_UNKNOWN_MGET}
    ensures MsgInv(Fail(m, error), maxLength) && Fail(m, error).body.Keys == m.body.Keys
    ensures DoneSlots(Fail(m, error).body) == m.body.Keys
  {
    var f := Fail(m, error);
    assert f.body.Keys == m.body.Keys && DoneSlots(f.body) == f.body.Keys;
    assert |f.body| == |f.body.Keys| && |m.body| == |m.body.Keys|;
  }

  lemma AllDone(body: map<nat, Frag>)
    ensures |DoneSlots(body)| <= |body|
    ensures |DoneSlots(body)| == |body| <==> DoneSlots(body) == body.Keys
  {
    SubsetSize(DoneSlots(body), body.Keys);
  }

  lemma SubsetSize(a: set<nat>, b: set<nat>)
    requires a <= b
    ensures |a| <= |b| && (|a| == |b| <==> a == b)
  {
    assert b == a + (b - a);
  }

  lemma {:induction false} SumUnaffected(body: map<nat, Frag>, s: nat, f: Frag, slots: seq<nat>)
    requires s !in slots
    ensures SumCounts(body[s := f], slots) == SumCounts(body, slots)
  {
    if slots != [] { SumUnaffected(body, s, f, slots[..|slots| - 1]); }
  }

  lemma DoneStep(body: map<nat, Frag>, s: nat, f: Frag)
    requires s in body && !body[s].done && f.done
    ensures body[s := f].Keys == body.Keys && |body[s := f]| == |body|
    ensures DoneSlots(body[s := f]) == DoneSlots(body) + {s} && s !in DoneSlots(body)
    ensures |DoneSlots(body[s := f])| == |DoneSlots(body)| + 1
  {
    assert body[s := f].Keys == body.Keys;
    assert |body[s := f]| == |body[s := f].Keys| && |body| == |body.Keys|;
    assert DoneSlots(body[s := f]) == DoneSlots(body) + {s};
  }

  /** A message with a fragment still open is neither done nor failed. */
  lemma OpenIsNotDone(m: MsgState, s: nat, maxLength: nat)
    requires MsgInv(m, maxLength) && s in m.body && !m.body[s].done
    ensures !m.done && !m.failed
  {
    AllDone(m.body);
    assert s !in DoneSlots(m.body);
  }

  /** What holds between the bookkeeping and the handler. */
  ghost predicate HandlerInv(m: MsgState, b: Bytes) {
    && Shaped(m.kind, m.keys, m.groups, m.body.Keys)
    && m.doneNumber == |DoneSlots(m.body)| <= |m.body| && !m.done && !m.failed
    && Distinct(m.arrived) && (forall s :: s in m.arrived <==> s in DoneSlots(m.body))
    && (m.kind.Del? ==> Wrap64(m.delNum + DelCount(b)) == Wrap64(SumCounts(m.body, m.arrived)))
  }

  lemma WrapAdd(a: int, b: int)
    ensures Wrap64(Wrap64(a) + b) == Wrap64(a + b)
  {
    var w := 0x1_0000_0000_0000_0000;
    assert (a % w + b) % w == (a + b) % w && (a % w - w + b) % w == (a + b) % w;
  }

  lemma RecordedInv(m: MsgState, s: nat, b: Bytes, t: ReplyType, maxLength: nat)
    requires MsgInv(m, maxLength) && s in m.body && !m.body[s].done
    ensures var r := Recorded(m, s, b, t);
            HandlerInv(r, b) && r.body.Keys == m.body.Keys && DoneSlots(r.body) == DoneSlots(m.body) + {s}
  {
    hide DelCount, Assembled, Wrap64, GroupBy;
    OpenIsNotDone(m, s, maxLength);
    var r := Recorded(m, s, b, t);
    DoneStep(m.body, s, Frag(true, b, t));
    AllDone(r.body);
    assert s !in m.arrived;
    SumUnaffected(m.body, s, Frag(true, b, t), m.arrived);
    assert r.arrived[..|m.arrived|] == m.arrived;
    WrapAdd(SumCounts(m.body, m.arrived), DelCount(b));
  }

  lemma OnMgetInv(m: MsgState, b: Bytes, maxLength: nat)
    requires m.kind.Mget? && HandlerInv(m, b) && OnMget(m, b, maxLength).Some?
    ensures var m' := OnMget(m, b, maxLength).value;
            MsgInv(m', maxLength) && m'.body.Keys == m.body.Keys
            && DoneSlots(m'.body) == (if m'.failed then m.body.Keys else DoneSlots(m.body))
  {
    hide ParseItems, Merge, ItemsOf, SumCounts, DelCount, GroupBy;
    FailInv(m, ERR_UNKNOWN_MGET, maxLength);
  }

  lemma OnMsetInv(m: MsgState, b: Bytes, maxLength: nat)
    requires m.kind.Mset? && HandlerInv(m, b)
    ensures MsgInv(OnMset(m), maxLength)
  {
    hide AllOk, SumCounts, DelCount;
  }

  lemma OnDelInv(m: MsgState, b: Bytes, maxLength: nat)
    requires m.kind.Del? && HandlerInv(m, b) && OnDel(m, b).Some?
    ensures MsgInv(OnDel(m, b).value, maxLength)
  {
    hide SumCounts, DelCount, DelReply, GroupBy, Wrap64;
  }

  lemma OnOtherInv(m: MsgState, s: nat, b: Bytes, t: ReplyType, maxLength: nat)
    requires !Splits(m.kind)
    requires MsgInv(m, maxLength) && s in m.body && !m.body[s].done
    ensures MsgInv(Recorded(m, s, b, t).(done := true, rspBody := b), maxLength)
  {
    hide SumCounts, DelCount;
    RecordedInv(m, s, b, t, maxLength);
    OpenIsNotDone(m, s, maxLength);
    SubsetSize({s}, m.body.Keys);
    assert DoneSlots(m.body) == {};
    DistinctSize(m.arrived, {});
  }

  lemma {:induction false} DistinctSize(xs: seq<nat>, members: set<nat>)
    requires Distinct(xs) && forall x :: x in xs <==> x in members
    ensures |xs| == |members|
  {
    if xs == [] {
      assert members == {};
    } else {
      var init, last := xs[..|xs| - 1], xs[|xs| - 1];
      assert xs == init + [last];
      DistinctSize(init, members - {last});
    }
  }

  /** Answering an open fragment keeps the counters exact and the reply equal to what the answers add up to. */
  lemma OnReplyKeepsInv(m: MsgState, s: nat, b: Bytes, t: ReplyType, maxLength: nat)
    requires MsgInv(m, maxLength) && s in m.body && !m.body[s].done && OnReply(m, s, b, t, maxLength).Some?
    ensures var m' := OnReply(m, s, b, t, maxLength).value;
            && MsgInv(m', maxLength) && m'.body.Keys == m.body.Keys && m'.owner == m.owner
            && DoneSlots(m'.body) == (if m'.failed then m.body.Keys else DoneSlots(m.body) + {s})
  {
    hide MsgInv, DoneSlots, ParseItems, Merge, ItemsOf, AllOk, DelReply, DelCount, HandlerInv;
    if |b| > maxLength {
      TooLargeInv(m, maxLength);
    } else {
      RecordedInv(m, s, b, t, maxLength);
      NotFailed(m, s, b, t, maxLength);
      match m.kind {
        case Mget => OnMgetInv(Recorded(m, s, b, t), b, maxLength);
        case Mset => OnMsetInv(Recorded(m, s, b, t), b, maxLength);
        case Del => OnDelInv(Recorded(m, s, b, t), b, maxLength);
        case _ => OnOtherInv(m, s, b, t, maxLength);
      }
    }
  }

  lemma TooLargeInv(m: MsgState, maxLength: nat)
    requires MsgInv(m, maxLength)
    ensures var m' := Fail(m, RSP_TOO_LARGE);
            MsgInv(m', maxLength) && m'.body.Keys == m.body.Keys && DoneSlots(m'.body) == m.body.Keys
  {
    FailInv(m, RSP_TOO_LARGE, maxLength);
  }

  lemma NotFailed(m: MsgState, s: nat, b: Bytes, t: ReplyType, maxLength: nat)
    requires MsgInv(m, maxLength) && s in m.body && !m.body[s].done
    ensures !Recorded(m, s, b, t).failed
  {
    OpenIsNotDone(m, s, maxLength);
  }
}
