/** Which fragments a request is split into, said of its bytes: core/codec/commands.go:487-525 and
    core/codec_c.go:59-114. */
module Splitting {
  import opened Bytes
  import opened Slot
  import opened Command
  import opened CommandStream
  import opened Sharding

  const MGET: Bytes := "mget"
  const DEL: Bytes := "del"
  const MSET: Bytes := "mset"
  const EVAL: Bytes := "eval"
  const EVALSHA: Bytes := "evalsha"
  const QUIT: Bytes := "quit"

  /** The name is the word, in any letter case. */
  predicate Spells(name: Bytes, word: Bytes) {
    && |name| == |word|
    && forall i :: 0 <= i < |name| ==>
         name[i] == word[i] || ('A' <= name[i] <= 'Z' && name[i] as int + 32 == word[i] as int)
  }

  predicate NoCapitals(word: Bytes) { forall i :: 0 <= i < |word| ==> !('A' <= word[i] <= 'Z') }

  lemma SpellsIsLower(name: Bytes, word: Bytes)
    requires NoCapitals(word)
    ensures Spells(name, word) <==> ToLower(name) == word
  {
    if ToLower(name) == word {
      assert forall i :: 0 <= i < |name| ==> Lower(name[i]) == word[i];
    }
  }

  lemma LowerHasNoCapitals(name: Bytes)
    ensures NoCapitals(ToLower(name)) && Spells(name, ToLower(name))
  {}

  lemma NamesHaveNoCapitals()
    ensures NoCapitals(MGET) && NoCapitals(DEL) && NoCapitals(MSET)
    ensures NoCapitals(EVAL) && NoCapitals(EVALSHA) && NoCapitals(QUIT)
  {}

  lemma NamesAreSpelled(name: Bytes)
    ensures Spells(name, MGET) <==> ToLower(name) == MGET
    ensures Spells(name, DEL) <==> ToLower(name) == DEL
    ensures Spells(name, MSET) <==> ToLower(name) == MSET
    ensures Spells(name, EVAL) <==> ToLower(name) == EVAL
    ensures Spells(name, EVALSHA) <==> ToLower(name) == EVALSHA
    ensures Spells(name, QUIT) <==> ToLower(name) == QUIT
  {
    hide Spells, NoCapitals, ToLower;
    NamesHaveNoCapitals();
    SpellsIsLower(name, MGET);
    SpellsIsLower(name, DEL);
    SpellsIsLower(name, MSET);
    SpellsIsLower(name, EVAL);
    SpellsIsLower(name, EVALSHA);
    SpellsIsLower(name, QUIT);
  }

  /** A request that a client can send and that fits the limit. */
  ghost predicate Fits(c: seq<Bytes>, maxLength: nat) { Sendable(c) && |EncodeCommand(c)| <= maxLength }

  lemma Decoded(c: seq<Bytes>, maxLength: nat)
    requires Fits(c, maxLength)
    ensures Decode(EncodeCommand(c), maxLength) == Message(MsgOf(c), |EncodeCommand(c)|)
  {
    hide Decode, EncodeCommand, MsgOf;
    assert EncodeCommand(c) + [] == EncodeCommand(c);
    DecodeWithin(EncodeCommand(c), [], c, [], maxLength);
  }

  lemma MadeKind(kind: Kind, args: seq<Bytes>, raw: Bytes)
    ensures MakeMsg(kind, args, raw).kind == kind
  {
    hide Group, GroupPairs, Requests, PairRequests, Pairs, Firsts, Hash;
  }

  /** The kind of a request is decided by its name, in any letter case, and the number of its arguments. */
  lemma KindExactly(c: seq<Bytes>, maxLength: nat)
    requires Fits(c, maxLength)
    ensures var d := Decode(EncodeCommand(c), maxLength);
            && d.Message? && d.size == |EncodeCommand(c)|
            && (d.msg.kind.Mget? <==> Spells(c[0], MGET) && |c| >= 2)
            && (d.msg.kind.Del? <==> Spells(c[0], DEL) && |c| >= 2)
            && (d.msg.kind.Mset? <==> Spells(c[0], MSET) && |c| >= 3 && |c| % 2 == 1)
            && (d.msg.kind.Eval? <==> (Spells(c[0], EVAL) || Spells(c[0], EVALSHA)) && |c| >= 2)
            && (d.msg.kind.Quit? <==> Spells(c[0], QUIT) && |c| == 1)
            && !d.msg.kind.TooLarge?
  {
    hide Decode, EncodeCommand, ToLower, Spells, MakeMsg;
    Decoded(c, maxLength);
    NamesAreSpelled(c[0]);
    MadeKind(KindOf(ToLower(c[0]), |c| - 1), c[1..], EncodeCommand(LowerName(c)));
  }

  // ----- the elements of a slot

  /** The positions at which xs has an element of slot s, in increasing order, and the elements there. */
  ghost predicate Picked<T(!new)>(xs: seq<T>, slot: T -> nat, s: nat, at: seq<nat>, picked: seq<T>) {
    && |picked| == |at|
    && (forall j :: 0 <= j < |at| ==> at[j] < |xs| && slot(xs[at[j]]) == s && picked[j] == xs[at[j]])
    && (forall j, k :: 0 <= j < k < |at| ==> at[j] < at[k])
    && (forall i :: 0 <= i < |xs| && slot(xs[i]) == s ==> i in at)
  }

  lemma PicksLast<T(!new)>(xs: seq<T>, slot: T -> nat, s: nat, at: seq<nat>, picked: seq<T>)
    requires xs != [] && Picked(xs[..|xs| - 1], slot, s, at, picked) && slot(xs[|xs| - 1]) == s
    ensures Picked(xs, slot, s, at + [|xs| - 1], picked + [xs[|xs| - 1]])
  {
    var n := |xs| - 1;
    forall i | 0 <= i < |xs| && slot(xs[i]) == s ensures i in at + [n] {
      if i < n { assert xs[..n][i] == xs[i]; }
    }
    forall j | 0 <= j < |at + [n]|
      ensures var i := (at + [n])[j]; i < |xs| && slot(xs[i]) == s && (picked + [xs[n]])[j] == xs[i]
    {
      if j < |at| { assert xs[..n][at[j]] == xs[at[j]]; }
    }
  }

  lemma PassesLast<T(!new)>(xs: seq<T>, slot: T -> nat, s: nat, at: seq<nat>, picked: seq<T>)
    requires xs != [] && Picked(xs[..|xs| - 1], slot, s, at, picked) && slot(xs[|xs| - 1]) != s
    ensures Picked(xs, slot, s, at, picked)
  {
    var n := |xs| - 1;
    forall i | 0 <= i < |xs| && slot(xs[i]) == s ensures i in at {
      assert xs[..n][i] == xs[i];
    }
    forall j | 0 <= j < |at| ensures at[j] < |xs| && slot(xs[at[j]]) == s && picked[j] == xs[at[j]] {
      assert xs[..n][at[j]] == xs[at[j]];
    }
  }

  /** So the list of a slot is picked from the request, in order and with nothing left out. */
  lemma {:induction false} InSlotPicks<T(!new)>(xs: seq<T>, slot: T -> nat, s: nat) returns (at: seq<nat>)
    ensures Picked(xs, slot, s, at, InSlot(xs, slot, s))
  {
    if xs == [] {
      at := [];
    } else {
      hide Picked;
      var n := |xs| - 1;
      at := InSlotPicks(xs[..n], slot, s);
      if slot(xs[n]) == s {
        PicksLast(xs, slot, s, at, InSlot(xs[..n], slot, s));
        at := at + [n];
      } else {
        PassesLast(xs, slot, s, at, InSlot(xs[..n], slot, s));
        assert InSlot(xs[..n], slot, s) + [] == InSlot(xs[..n], slot, s);
      }
    }
  }

  // ----- MGET and DEL

  /** The fragments are the slots of the keys, and each carries the keys of its slot, in request order. */
  ghost predicate SplitByKey(msg: Msg, word: Bytes, keys: seq<Bytes>) {
    && msg.keys == keys && msg.frags.Keys == msg.body.Keys
    && (forall s :: s in msg.frags ==> msg.frags[s] == InSlot(keys, Hash, s))
    && (forall s :: s in msg.body <==> exists i :: 0 <= i < |keys| && Hash(keys[i]) == s)
    && (forall s :: s in msg.body ==> msg.body[s] == EncodeCommand([word] + InSlot(keys, Hash, s)))
  }

  lemma GroupSlots<T>(xs: seq<T>, slot: T -> nat, s: nat)
    ensures s in GroupBy(xs, slot) <==> exists i :: 0 <= i < |xs| && slot(xs[i]) == s
    ensures s in GroupBy(xs, slot) ==> GroupBy(xs, slot)[s] == InSlot(xs, slot, s)
  {
    GroupsPartition(xs, slot, s);
    GroupMembers(xs, slot, s);
    if s in GroupBy(xs, slot) {
      var x := GroupBy(xs, slot)[s][0];
      assert x in GroupBy(xs, slot)[s];
    }
    forall i | 0 <= i < |xs| && slot(xs[i]) == s ensures s in GroupBy(xs, slot) {
      assert xs[i] in xs;
    }
  }

  lemma MadeByKey(kind: Kind, keys: seq<Bytes>, raw: Bytes)
    requires kind.Mget? || kind.Del?
    ensures SplitByKey(MakeMsg(kind, keys, raw), if kind.Mget? then MGET else DEL, keys)
  {
    hide Hash, GroupBy, InSlot, EncodeCommand;
    var msg := MakeMsg(kind, keys, raw);
    forall s ensures s in msg.body <==> s in Group(keys) {}
    forall s ensures s in Group(keys) <==> exists i :: 0 <= i < |keys| && Hash(keys[i]) == s {
      GroupSlots(keys, Hash, s);
    }
    forall s | s in msg.body
      ensures msg.body[s] == EncodeCommand([if kind.Mget? then MGET else DEL] + InSlot(keys, Hash, s))
      ensures msg.frags[s] == InSlot(keys, Hash, s)
    {
      GroupSlots(keys, Hash, s);
    }
  }

  /** Every MGET and every DEL with a key is split by key. */
  lemma KeysAreSplit(c: seq<Bytes>, word: Bytes, maxLength: nat)
    requires Fits(c, maxLength) && (word == MGET || word == DEL) && Spells(c[0], word) && |c| >= 2
    ensures var d := Decode(EncodeCommand(c), maxLength); d.Message? && SplitByKey(d.msg, word, c[1..])
  {
    hide Decode, EncodeCommand, ToLower, Spells, MakeMsg, SplitByKey;
    Decoded(c, maxLength);
    NamesAreSpelled(c[0]);
    MadeByKey(KindOf(ToLower(c[0]), |c| - 1), c[1..], EncodeCommand(LowerName(c)));
    KindOfKeys(word, |c| - 1);
  }

  lemma KindOfKeys(word: Bytes, n: nat)
    requires (word == MGET || word == DEL) && n >= 1
    ensures KindOf(word, n) == if word == MGET then Mget else Del
    ensures word == if KindOf(word, n).Mget? then MGET else DEL
  {
    var a: Bytes, b: Bytes := MGET, DEL;
    assert |a| != |b|;
  }

  // ----- MSET

  /** The arguments two by two. */
  function Paired(args: seq<Bytes>): (kvs: seq<(Bytes, Bytes)>)
    ensures |kvs| == |args| / 2 && forall i :: 0 <= i < |kvs| ==> kvs[i] == (args[2 * i], args[2 * i + 1])
  {
    seq(|args| / 2, i requires 0 <= i < |args| / 2 => (args[2 * i], args[2 * i + 1]))
  }

  lemma {:induction false} PairsArePaired(args: seq<Bytes>)
    ensures Pairs(args) == Paired(args)
  {
    if |args| >= 2 {
      PairsArePaired(args[2..]);
      forall i | 0 <= i < |Paired(args)| ensures Pairs(args)[i] == Paired(args)[i] {
        if i > 0 {
          assert Pairs(args)[i] == Paired(args[2..])[i - 1];
          assert args[2..][2 * (i - 1)] == args[2 * i] && args[2..][2 * (i - 1) + 1] == args[2 * i + 1];
        }
      }
    }
  }

  lemma {:induction false} FlattenAt(kvs: seq<(Bytes, Bytes)>, i: nat)
    requires i < |kvs|
    ensures Flatten(kvs)[2 * i] == kvs[i].0 && Flatten(kvs)[2 * i + 1] == kvs[i].1
  {
    if i > 0 {
      FlattenAt(kvs[1..], i - 1);
      assert Flatten(kvs)[2 * i] == Flatten(kvs[1..])[2 * (i - 1)];
      assert Flatten(kvs)[2 * i + 1] == Flatten(kvs[1..])[2 * (i - 1) + 1];
    }
  }

  lemma {:induction false} FirstsAre(kvs: seq<(Bytes, Bytes)>)
    ensures |Firsts(kvs)| == |kvs| && forall i :: 0 <= i < |kvs| ==> Firsts(kvs)[i] == kvs[i].0
  {
    if kvs != [] { FirstsAre(kvs[1..]); }
  }

  /** The fragments are the slots of the keys, and each carries the pairs of its slot, in request order. */
  ghost predicate SplitByPair(msg: Msg, kvs: seq<(Bytes, Bytes)>) {
    && |msg.keys| == |kvs| && (forall i :: 0 <= i < |kvs| ==> msg.keys[i] == kvs[i].0)
    && msg.pairs.Keys == msg.body.Keys && (forall s :: s in msg.pairs ==> msg.pairs[s] == InSlot(kvs, PairSlot, s))
    && (forall s :: s in msg.body <==> exists i :: 0 <= i < |kvs| && Hash(kvs[i].0) == s)
    && (forall s :: s in msg.body ==> msg.body[s] == EncodeCommand([MSET] + Flatten(InSlot(kvs, PairSlot, s))))
  }

  lemma MadeByPair(args: seq<Bytes>, raw: Bytes)
    ensures SplitByPair(MakeMsg(Mset, args, raw), Pairs(args))
  {
    hide Hash, GroupBy, InSlot, EncodeCommand, Pairs, Firsts, Flatten;
    var msg, kvs := MakeMsg(Mset, args, raw), Pairs(args);
    forall s ensures s in msg.body <==> s in GroupPairs(kvs) {}
    forall s ensures s in GroupPairs(kvs) <==> exists i :: 0 <= i < |kvs| && Hash(kvs[i].0) == s {
      GroupSlots(kvs, PairSlot, s);
      assert forall i :: 0 <= i < |kvs| ==> PairSlot(kvs[i]) == Hash(kvs[i].0);
    }
    forall s | s in msg.body
      ensures msg.body[s] == EncodeCommand([MSET] + Flatten(InSlot(kvs, PairSlot, s)))
      ensures msg.pairs[s] == InSlot(kvs, PairSlot, s)
    {
      GroupSlots(kvs, PairSlot, s);
    }
    FirstsAre(kvs);
  }

  /** Every MSET with pairs is split by pair. */
  lemma PairsAreSplit(c: seq<Bytes>, maxLength: nat)
    requires Fits(c, maxLength) && Spells(c[0], MSET) && |c| >= 3 && |c| % 2 == 1
    ensures var d := Decode(EncodeCommand(c), maxLength); d.Message? && SplitByPair(d.msg, Paired(c[1..]))
  {
    hide Decode, EncodeCommand, ToLower, Spells, MakeMsg, SplitByPair, Paired;
    Decoded(c, maxLength);
    NamesAreSpelled(c[0]);
    KindOfPairs(|c| - 1);
    MadeByPair(c[1..], EncodeCommand(LowerName(c)));
    PairsArePaired(c[1..]);
  }

  lemma KindOfPairs(n: nat)
    requires n >= 2 && n % 2 == 0
    ensures KindOf(MSET, n) == Mset
  {}

  // ----- all other requests

  /** The request is one of those that are split. */
  predicate IsSplit(word: Bytes, n: nat) {
    ((word == MGET || word == DEL) && n >= 1) || (word == MSET && n >= 2 && n % 2 == 0)
  }

  /** Any other request goes out whole, its name in lower case, to the slot of its first argument, or for EVAL and
      EVALSHA of its third. Without that argument the slot is 0. */
  lemma OthersAreWhole(c: seq<Bytes>, word: Bytes, maxLength: nat)
    requires Fits(c, maxLength) && NoCapitals(word) && Spells(c[0], word) && !IsSplit(word, |c| - 1)
    ensures var d := Decode(EncodeCommand(c), maxLength);
            var k := if word == EVAL || word == EVALSHA then 3 else 1;
            && d.Message?
            && d.msg.body == map[(if k < |c| then Hash(c[k]) else 0) := EncodeCommand([word] + c[1..])]
  {
    hide Decode, EncodeCommand, ToLower, Spells, NoCapitals, Hash;
    Decoded(c, maxLength);
    SpellsIsLower(c[0], word);
    assert |c| > 1 ==> c[1..][0] == c[1];
    assert |c| > 3 ==> c[1..][2] == c[3];
  }
}
