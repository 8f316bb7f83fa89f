/** Splitting a request by slot does not change what it means: core/codec_c.go:116-168, 221-278. */
module Sharding {
  import opened Bytes
  import opened Slot
  import opened Command
  import CommandStream

  // ----- what the groups hold

  /** The elements of one slot, in request order and with their multiplicity. */
  function InSlot<T>(xs: seq<T>, slot: T -> nat, s: nat): seq<T> {
    if xs == [] then [] else
      InSlot(xs[..|xs| - 1], slot, s) + (if slot(xs[|xs| - 1]) == s then [xs[|xs| - 1]] else [])
  }

  /** There is a group for every slot that occurs, and it holds exactly the elements of that slot, in order. */
  lemma {:induction false} GroupsPartition<T>(xs: seq<T>, slot: T -> nat, s: nat)
    ensures s in GroupBy(xs, slot) <==> InSlot(xs, slot, s) != []
    ensures s in GroupBy(xs, slot) ==> GroupBy(xs, slot)[s] == InSlot(xs, slot, s)
  {
    if xs != [] { GroupsPartition(xs[..|xs| - 1], slot, s); }
  }

  lemma {:induction false} InSlotElements<T>(xs: seq<T>, slot: T -> nat, s: nat, x: T)
    ensures multiset(InSlot(xs, slot, s))[x] == if slot(x) == s then multiset(xs)[x] else 0
  {
    if xs != [] {
      InSlotElements(xs[..|xs| - 1], slot, s, x);
      assert xs == xs[..|xs| - 1] + [xs[|xs| - 1]];
    }
  }

  lemma GroupMembers<T>(xs: seq<T>, slot: T -> nat, s: nat)
    ensures s in GroupBy(xs, slot) ==> GroupBy(xs, slot)[s] != []
    ensures forall x :: s in GroupBy(xs, slot) && x in GroupBy(xs, slot)[s] <==> x in xs && slot(x) == s
  {
    GroupsPartition(xs, slot, s);
    var g := InSlot(xs, slot, s);
    forall x ensures x in g <==> x in xs && slot(x) == s {
      InSlotElements(xs, slot, s, x);
      assert x in g <==> x in multiset(g);
      assert x in xs <==> x in multiset(xs);
    }
  }

  /** The fragments together carry every key as often as the request does. */
  lemma GroupsKeepMultiplicity(keys: seq<Bytes>, k: Bytes)
    ensures multiset(keys)[k] == if Hash(k) in Group(keys) then multiset(Group(keys)[Hash(k)])[k] else 0
    ensures forall s :: s in Group(keys) && s != Hash(k) ==> k !in Group(keys)[s]
  {
    hide Hash;
    GroupsPartition(keys, Hash, Hash(k));
    InSlotElements(keys, Hash, Hash(k), k);
    forall s | s in Group(keys) && s != Hash(k) ensures k !in Group(keys)[s] {
      GroupMembers(keys, Hash, s);
    }
  }

  // ----- a fragment is itself a request that needs no further splitting

  lemma JoinOne<T>(xs: seq<T>, s: nat, x: T)
    ensures Join(if xs == [] then map[] else map[s := xs], s, x) == map[s := xs + [x]]
  {
    if xs == [] { assert xs + [x] == [x]; }
  }

  lemma {:induction false} OneGroup<T>(xs: seq<T>, slot: T -> nat, s: nat)
    requires xs != [] && forall x :: x in xs ==> slot(x) == s
    ensures GroupBy(xs, slot) == map[s := xs]
  {
    hide Join;
    var init, last := xs[..|xs| - 1], xs[|xs| - 1];
    assert last in xs && xs == init + [last];
    if init != [] { OneGroup(init, slot, s); }
    JoinOne(init, s, last);
  }

  lemma {:induction false} PairsOfFlatten(kvs: seq<(Bytes, Bytes)>)
    ensures Pairs(Flatten(kvs)) == kvs
  {
    if kvs != [] {
      PairsOfFlatten(kvs[1..]);
      assert Flatten(kvs)[2..] == Flatten(kvs[1..]);
    }
  }

  /** Decoding a fragment gives back exactly one slot and the identical bytes, within the size limit or not. */
  lemma FragmentIsStable(keys: seq<Bytes>, s: nat, kind: Kind, maxLength: nat)
    requires kind.Mget? || kind.Del?
    requires s in Group(keys) && CommandStream.Sendable([Name(kind)] + Group(keys)[s])
    ensures var req := EncodeCommand([Name(kind)] + Group(keys)[s]);
            var d := Decode(req, maxLength);
            d.Message? && d.size == |req| && d.msg.body == map[s := req]
  {
    hide Hash, EncodeCommand, Decode, GroupBy;
    var group := Group(keys)[s];
    var c := [Name(kind)] + group;
    GroupMembers(keys, Hash, s);
    OneGroup(group, Hash, s);
    assert c[1..] == group;
    DecodeWhole(c, maxLength);
    LowerNames();
  }

  lemma PairFragmentIsStable(kvs: seq<(Bytes, Bytes)>, s: nat, maxLength: nat)
    requires s in GroupPairs(kvs) && CommandStream.Sendable(["mset"] + Flatten(GroupPairs(kvs)[s]))
    ensures var req := EncodeCommand(["mset"] + Flatten(GroupPairs(kvs)[s]));
            var d := Decode(req, maxLength);
            d.Message? && d.size == |req| && d.msg.body == map[s := req]
  {
    hide Hash, EncodeCommand, Decode, GroupBy;
    var group := GroupPairs(kvs)[s];
    var c := ["mset"] + Flatten(group);
    GroupMembers(kvs, PairSlot, s);
    OneGroup(group, PairSlot, s);
    PairsOfFlatten(group);
    assert c[1..] == Flatten(group) && Flatten(group)[0] == group[0].0 && PairSlot(group[0]) == s;
    DecodeWhole(c, maxLength);
    LowerNames();
  }

  function Name(kind: Kind): Bytes
    requires kind.Mget? || kind.Del?
  {
    if kind.Mget? then "mget" else "del"
  }

  lemma LowerNames()
    ensures ToLower("mget") == "mget" && ToLower("del") == "del" && ToLower("mset") == "mset"
  {}

  /** Decoding exactly one request, whether or not it is over the size limit. */
  lemma DecodeWhole(c: seq<Bytes>, maxLength: nat)
    requires CommandStream.Sendable(c)
    ensures var e := EncodeCommand(c);
            var kind := if |e| > maxLength then TooLarge else KindOf(ToLower(c[0]), |c| - 1);
            Decode(e, maxLength) == Message(MakeMsg(kind, c[1..], EncodeCommand([ToLower(c[0])] + c[1..])), |e|)
  {
    assert EncodeCommand(c) + [] == EncodeCommand(c);
    CommandStream.DecodeLies(EncodeCommand(c), [], c, [], maxLength);
  }

  // ----- DEL

  type Store = map<Bytes, Bytes>

  /** DEL: each key in turn is removed, and counted if it was there. */
  function ExecDel(st: Store, keys: seq<Bytes>): (Store, nat) {
    if keys == [] then (st, 0) else
      var (st', n), k := ExecDel(st, keys[..|keys| - 1]), keys[|keys| - 1];
      if k in st' then (st' - {k}, n + 1) else (st', n)
  }

  /** The fragments run one after the other, in some order of the slots. */
  function RunDel(st: Store, groups: map<nat, seq<Bytes>>, order: seq<nat>): (Store, nat) {
    if order == [] then (st, 0) else
      var (st', n), s := RunDel(st, groups, order[..|order| - 1]), order[|order| - 1];
      var (st2, m) := ExecDel(st', if s in groups then groups[s] else []);
      (st2, n + m)
  }

  function Elements<T>(xs: seq<T>): set<T> { set x | x in xs }

  /** r is the store without the keys in a, and the number of keys that went. */
  ghost predicate Removed(st: Store, a: set<Bytes>, r: (Store, nat)) {
    r == (st - a, |st.Keys * a|)
  }

  lemma RemovedNone(st: Store)
    ensures Removed(st, {}, (st, 0))
  {
    assert st - {} == st && st.Keys * {} == {};
  }

  lemma RemoveTwice(st: Store, a: set<Bytes>, b: set<Bytes>)
    requires a !! b
    ensures (st - a) - b == st - (a + b)
    ensures |st.Keys * (a + b)| == |st.Keys * a| + |(st - a).Keys * b|
  {
    assert (st - a).Keys * b == st.Keys * b;
    assert st.Keys * (a + b) == st.Keys * a + st.Keys * b;
  }

  ghost predicate Apart(a: set<Bytes>, b: set<Bytes>) { a !! b }

  /** Removing one set of keys and then a disjoint one. */
  lemma RemovedTwice(st: Store, a: set<Bytes>, r: (Store, nat), b: set<Bytes>, q: (Store, nat))
    requires Apart(a, b) && Removed(st, a, r) && Removed(r.0, b, q)
    ensures Removed(st, a + b, (q.0, r.1 + q.1))
  {
    RemoveTwice(st, a, b);
  }

  lemma RemovedPresent(r: Store, k: Bytes)
    requires k in r
    ensures Removed(r, {k}, (r - {k}, 1))
  {
    assert r.Keys * {k} == {k};
  }

  lemma RemovedAbsent(st: Store, a: set<Bytes>, r: (Store, nat), k: Bytes)
    requires Removed(st, a, r) && k !in r.0
    ensures Removed(st, a + {k}, r)
  {
    assert st.Keys * (a + {k}) == st.Keys * a;
    assert st - (a + {k}) == st - a;
  }

  lemma RemovedOne(st: Store, a: set<Bytes>, r: (Store, nat), k: Bytes)
    requires Removed(st, a, r)
    ensures Removed(st, a + {k}, if k in r.0 then (r.0 - {k}, r.1 + 1) else r)
  {
    if k in r.0 {
      RemovedPresent(r.0, k);
      RemovedTwice(st, a, r, {k}, (r.0 - {k}, 1));
    } else {
      RemovedAbsent(st, a, r, k);
    }
  }

  lemma {:induction false} DelRemovesAll(st: Store, keys: seq<Bytes>)
    ensures Removed(st, Elements(keys), ExecDel(st, keys))
  {
    hide Elements, Removed;
    if keys == [] {
      ElementsNone<Bytes>();
      RemovedNone(st);
    } else {
      var init, k := keys[..|keys| - 1], keys[|keys| - 1];
      DelRemovesAll(st, init);
      ElementsSnoc(init, k);
      assert keys == init + [k];
      RemovedOne(st, Elements(init), ExecDel(st, init), k);
    }
  }

  lemma ElementsNone<T>()
    ensures Elements<T>([]) == {}
  {}

  lemma ElementsSnoc<T>(xs: seq<T>, x: T)
    ensures Elements(xs + [x]) == Elements(xs) + {x}
  {}

  ghost predicate Distinct(order: seq<nat>) {
    order == [] || (order[|order| - 1] !in order[..|order| - 1] && Distinct(order[..|order| - 1]))
  }

  /** order lists every slot of the request once. */
  ghost predicate Permutes<T>(order: seq<nat>, groups: map<nat, T>) {
    Distinct(order) && Elements(order) == groups.Keys
  }

  /** The keys of the request that live in one of the given slots. */
  function Covered(keys: seq<Bytes>, slots: seq<nat>): set<Bytes> { set k | k in keys && Hash(k) in slots }

  lemma {:induction false} RunDelRemoves(st: Store, keys: seq<Bytes>, order: seq<nat>)
    requires Distinct(order) && (forall s :: s in order ==> s in Group(keys))
    ensures Removed(st, Covered(keys, order), RunDel(st, Group(keys), order))
  {
    hide Hash, GroupBy, ExecDel, Removed, Covered;
    if order == [] {
      CoveredNone(keys);
      RemovedNone(st);
    } else {
      var init, s := order[..|order| - 1], order[|order| - 1];
      assert order == init + [s];
      RunDelRemoves(st, keys, init);
      RunDelStep(st, keys, init, s, RunDel(st, Group(keys), init));
    }
  }

  lemma RunDelStep(st: Store, keys: seq<Bytes>, init: seq<nat>, s: nat, r: (Store, nat))
    requires s !in init && s in Group(keys) && Removed(st, Covered(keys, init), r)
    ensures var q := ExecDel(r.0, Group(keys)[s]); Removed(st, Covered(keys, init + [s]), (q.0, r.1 + q.1))
  {
    hide Hash, GroupBy, ExecDel, Removed, Covered, Elements, Apart;
    DelRemovesAll(r.0, Group(keys)[s]);
    CoveredStep(keys, init, s);
    RemovedTwice(st, Covered(keys, init), r, Elements(Group(keys)[s]), ExecDel(r.0, Group(keys)[s]));
  }

  lemma CoveredNone(keys: seq<Bytes>)
    ensures Covered(keys, []) == {}
  {
    hide Hash;
  }

  lemma CoveredStep(keys: seq<Bytes>, init: seq<nat>, s: nat)
    requires s !in init && s in Group(keys)
    ensures Covered(keys, init + [s]) == Covered(keys, init) + Elements(Group(keys)[s])
    ensures Apart(Covered(keys, init), Elements(Group(keys)[s]))
  {
    hide Hash, GroupBy;
    GroupMembers(keys, Hash, s);
  }

  /** A sharded DEL leaves the store, and adds up to the count, of the unsplit DEL, in every order of the shards. */
  lemma ShardedDel(st: Store, keys: seq<Bytes>, order: seq<nat>)
    requires Permutes(order, Group(keys))
    ensures RunDel(st, Group(keys), order) == ExecDel(st, keys)
  {
    hide Hash, GroupBy, ExecDel, RunDel;
    assert forall s :: s in order ==> s in Elements(order);
    RunDelRemoves(st, keys, order);
    DelRemovesAll(st, keys);
    assert Covered(keys, order) == Elements(keys) by {
      forall k | k in keys ensures Hash(k) in order {
        GroupMembers(keys, Hash, Hash(k));
        assert Hash(k) in Elements(order);
      }
    }
  }

  // ----- MSET

  function Get(st: Store, k: Bytes): Option<Bytes> { if k in st then Some(st[k]) else None }

  function ExecMset(st: Store, kvs: seq<(Bytes, Bytes)>): Store {
    if kvs == [] then st else ExecMset(st, kvs[..|kvs| - 1])[kvs[|kvs| - 1].0 := kvs[|kvs| - 1].1]
  }

  function RunMset(st: Store, groups: map<nat, seq<(Bytes, Bytes)>>, order: seq<nat>): Store {
    if order == [] then st else
      var s := order[|order| - 1];
      ExecMset(RunMset(st, groups, order[..|order| - 1]), if s in groups then groups[s] else [])
  }

  /** The last value that the pairs give to k. */
  function Last(kvs: seq<(Bytes, Bytes)>, k: Bytes): Option<Bytes> {
    if kvs == [] then None
    else if kvs[|kvs| - 1].0 == k then Some(kvs[|kvs| - 1].1)
    else Last(kvs[..|kvs| - 1], k)
  }

  lemma {:induction false} MsetLastWins(st: Store, kvs: seq<(Bytes, Bytes)>, k: Bytes)
    ensures Get(ExecMset(st, kvs), k) == if Last(kvs, k).Some? then Last(kvs, k) else Get(st, k)
  {
    if kvs != [] { MsetLastWins(st, kvs[..|kvs| - 1], k); }
  }

  lemma {:induction false} LastInSlot(kvs: seq<(Bytes, Bytes)>, s: nat, k: Bytes)
    ensures Last(InSlot(kvs, PairSlot, s), k) == if Hash(k) == s then Last(kvs, k) else None
  {
    hide Hash;
    if kvs != [] {
      var init, last := kvs[..|kvs| - 1], kvs[|kvs| - 1];
      LastInSlot(init, s, k);
      if PairSlot(last) == s {
        assert InSlot(kvs, PairSlot, s)[..|InSlot(init, PairSlot, s)|] == InSlot(init, PairSlot, s);
      } else {
        assert InSlot(kvs, PairSlot, s) == InSlot(init, PairSlot, s);
      }
    }
  }

  lemma {:induction false} RunMsetSets(st: Store, kvs: seq<(Bytes, Bytes)>, order: seq<nat>, k: Bytes)
    requires forall s :: s in order ==> s in GroupPairs(kvs)
    ensures Get(RunMset(st, GroupPairs(kvs), order), k)
         == if Hash(k) in order && Last(kvs, k).Some? then Last(kvs, k) else Get(st, k)
  {
    hide Hash, GroupBy, ExecMset;
    if order != [] {
      var init, s := order[..|order| - 1], order[|order| - 1];
      assert order == init + [s];
      RunMsetSets(st, kvs, init, k);
      GroupsPartition(kvs, PairSlot, s);
      LastInSlot(kvs, s, k);
      MsetLastWins(RunMset(st, GroupPairs(kvs), init), GroupPairs(kvs)[s], k);
    }
  }

  lemma {:induction false} LastHasGroup(kvs: seq<(Bytes, Bytes)>, k: Bytes)
    requires Last(kvs, k).Some?
    ensures Hash(k) in GroupPairs(kvs)
  {
    hide Hash;
    LastInSlot(kvs, Hash(k), k);
    GroupsPartition(kvs, PairSlot, Hash(k));
  }

  /** A sharded MSET leaves the store of the unsplit MSET, in every order of the shards: the last write wins. */
  lemma ShardedMset(st: Store, kvs: seq<(Bytes, Bytes)>, order: seq<nat>)
    requires Permutes(order, GroupPairs(kvs))
    ensures RunMset(st, GroupPairs(kvs), order) == ExecMset(st, kvs)
  {
    hide Hash, GroupBy, ExecMset, RunMset, Last;
    var a, b := RunMset(st, GroupPairs(kvs), order), ExecMset(st, kvs);
    assert forall s :: s in order ==> s in Elements(order);
    forall k ensures Get(a, k) == Get(b, k) {
      RunMsetSets(st, kvs, order, k);
      MsetLastWins(st, kvs, k);
      if Last(kvs, k).Some? {
        LastHasGroup(kvs, k);
        assert Hash(k) in Elements(order);
      }
    }
    SameLookups(a, b);
  }

  lemma SameLookups(a: Store, b: Store)
    requires forall k :: Get(a, k) == Get(b, k)
    ensures a == b
  {
    forall k ensures k in a <==> k in b { assert Get(a, k) == Get(b, k); }
    forall k | k in a ensures a[k] == b[k] { assert Get(a, k) == Get(b, k); }
  }
}
