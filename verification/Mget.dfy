/** Reassembly of a sharded MGET: core/codec_s.go:182-218, 279-304. */
module Mget {
  import opened Bytes
  import opened Slot
  import opened Command
  import opened Reply
  import Sharding

  type Store = Sharding.Store

  /** ReadN whose error is dropped: on an error nothing is read and the cursor stays. */
  function TryReadN(b: Bytes, r: nat, n: nat): (o: (Bytes, nat))
    requires r <= |b|
    ensures r <= o.1 <= |b|
  {
    var data := ReadN(b, r, n);
    if data.Ok? then (data.value, data.pos) else ([], r)
  }

  /** One item of a shard's reply, printed again the way parseMGet prints it. */
  function Item(b: Bytes, line: Bytes, r: nat): (o: (Bytes, nat))
    requires r <= |b| && line != []
    ensures r <= o.1 <= |b|
  {
    var len := ParseLen(line[1..]);
    if len.BadLength? || len.n < 0 then (line + CRLF, r)
    else
      var data := TryReadN(b, r, len.n);
      (line + CRLF + data.0 + CRLF, TryReadN(b, data.1, 2).1)
  }

  /** The items behind the header line; None stands for the nil that parseMGet returns on an error. */
  function Items(b: Bytes, r: nat): Option<seq<Bytes>>
    requires r <= |b|
    decreases |b| - r
  {
    var line := ReadLine(b, r);
    if line.Err? then (if line.error.EmptyLine? then Some([]) else None)
    else
      var item := Item(b, line.value, line.pos);
      var rest := Items(b, item.1);
      if rest.None? then None else Some([item.0] + rest.value)
  }

  /** The most strings that make gives to a slice: 16 bytes each, in an address space of 2^48 bytes. */
  const MAX_STRINGS: int := 0x1000_0000_0000

  /** The header line of a reply is missing, or what follows its first byte is no number that make accepts. */
  predicate NoCount(b: Bytes) {
    var line := ReadLine(b, 0);
    if line.Err? then true else
      var len := ParseLen(line.value[1..]);
      len.BadLength? || len.n < 0 || len.n > MAX_STRINGS
  }

  /** parseMGet. None stands for its panic; an error behind the header gives the nil slice, that is, no items. */
  function ParseItems(b: Bytes): (items: Option<seq<Bytes>>)
    ensures items.None? <==> NoCount(b)
  {
    if NoCount(b) then None
    else match Items(b, ReadLine(b, 0).pos) case Some(items) => Some(items) case None => Some([])
  }

  /** items, followed by what is still to come. */
  function Followed(items: seq<Bytes>, rest: Option<seq<Bytes>>): Option<seq<Bytes>> {
    if rest.None? then None else Some(items + rest.value)
  }

  method ParseItemsLoop(b: Bytes) returns (r: Option<seq<Bytes>>)
    ensures r == ParseItems(b)
  {
    hide ReadLine, Item, ParseLen;
    var buf := new Buffer(b);
    var header := buf.Line();
    if header.Err? { return None; }
    var count := ParseLenLoop(header.value[1..]);
    if count.BadLength? || count.n < 0 || count.n > MAX_STRINGS { return None; }
    var items: seq<Bytes> := [];
    ghost var all := Items(b, buf.r);
    assert all == Followed([], all) by { assert all.Some? ==> [] + all.value == all.value; }
    while true
      invariant buf.Valid() && all == Items(b, header.pos) && all == Followed(items, Items(b, buf.r))
      decreases |b| - buf.r
    {
      var line := buf.Line();
      if line.Err? {
        assert items + [] == items;
        if line.error.EmptyLine? { return Some(items); }
        return Some([]);
      }
      var item := Item(b, line.value, buf.r);
      ghost var rest := Items(b, item.1);
      assert rest.Some? ==> items + ([item.0] + rest.value) == (items + [item.0]) + rest.value;
      buf.r := item.1;
      items := items + [item.0];
    }
  }

  /** The index of the first occurrence of k, or |keys|. */
  function FirstIndex(keys: seq<Bytes>, k: Bytes): (i: nat)
    ensures i <= |keys| && (i < |keys| ==> keys[i] == k) && (k in keys <==> i < |keys|)
  {
    if keys == [] || keys[0] == k then 0 else 1 + FirstIndex(keys[1..], k)
  }

  /** The text appended for key k. None stands for an index that is out of range. */
  function Piece(frags: map<nat, seq<Bytes>>, rsp: map<nat, seq<Bytes>>, k: Bytes): Option<Bytes> {
    var s := Hash(k);
    if s !in frags || FirstIndex(frags[s], k) == |frags[s]| then Some([])
    else if s in rsp && FirstIndex(frags[s], k) < |rsp[s]| then Some(rsp[s][FirstIndex(frags[s], k)])
    else None
  }

  function Pieces(keys: seq<Bytes>, frags: map<nat, seq<Bytes>>, rsp: map<nat, seq<Bytes>>): Option<Bytes> {
    if keys == [] then Some([])
    else
      var init, last := Pieces(keys[..|keys| - 1], frags, rsp), Piece(frags, rsp, keys[|keys| - 1]);
      if init.None? || last.None? then None else Some(init.value + last.value)
  }

  const RSP_TOO_LARGE: Bytes := "-ERR rsp msg length too large\r\n"

  /** The merged reply of a message whose fragments have all been answered. */
  function Merge(keys: seq<Bytes>, frags: map<nat, seq<Bytes>>, rsp: map<nat, seq<Bytes>>, maxLength: nat)
    : Option<Bytes>
  {
    match Pieces(keys, frags, rsp)
    case None => None
    case Some(pieces) =>
      var body := "*" + Itoa(|keys|) + CRLF + pieces;
      Some(if |body| > maxLength then RSP_TOO_LARGE else body)
  }

  // ----- correctness

  /** The answer of Redis to one key. */
  function ValueOf(stores: map<nat, Store>, k: Bytes): Value {
    var s := Hash(k);
    if s in stores && k in stores[s] then Bulk(stores[s][k]) else NullBulk
  }

  function ValuesOf(stores: map<nat, Store>, keys: seq<Bytes>): (vs: seq<Value>)
    ensures |vs| == |keys| && forall i :: 0 <= i < |keys| ==> vs[i] == ValueOf(stores, keys[i])
  {
    seq(|keys|, i requires 0 <= i < |keys| => ValueOf(stores, keys[i]))
  }

  /** What one Redis would answer to MGET, and what the shard of slot s answers to its fragment. */
  function MgetReply(stores: map<nat, Store>, keys: seq<Bytes>): Bytes { Encode(Array(ValuesOf(stores, keys))) }

  ghost predicate Plain(v: Value) { v.NullBulk? || (v.Bulk? && |v.data| <= MAX_INT) }

  lemma ItemLies(b: Bytes, r: nat, v: Value)
    requires Plain(v) && Lies(b, r, Encode(v))
    ensures r + |Encode(v)| <= |b|
    ensures ReadLine(b, r) == Ok(Header(v), r + |Header(v)| + 2)
    ensures Item(b, Header(v), r + |Header(v)| + 2) == (Encode(v), r + |Encode(v)|)
  {
    hide Lies, ReadLine, ParseLen, Itoa;
    assert WellFormed(v);
    EncodingSplits(b, r, v);
    HeaderIsLine(v);
    LineLies(b, r, Header(v));
    var pos := r + |Header(v)| + 2;
    BoundOf(b, r, Encode(v));
    if v.Bulk? {
      LiesSplit(b, pos, v.data, CRLF);
      ReadNLies(b, pos, v.data);
      ReadNLies(b, pos + |v.data|, CRLF);
      assert Encode(v) == Header(v) + CRLF + v.data + CRLF;
    } else {
      assert Encode(v) == Header(v) + CRLF;
    }
  }

  lemma BoundOf(b: Bytes, r: nat, s: Bytes)
    requires Lies(b, r, s)
    ensures r + |s| <= |b|
  {}

  function Encodings(vs: seq<Value>): (es: seq<Bytes>)
    ensures |es| == |vs| && forall i :: 0 <= i < |vs| ==> es[i] == Encode(vs[i])
  {
    seq(|vs|, i requires 0 <= i < |vs| => Encode(vs[i]))
  }

  lemma {:induction false} ItemsOfEncoding(b: Bytes, r: nat, vs: seq<Value>)
    requires (forall i :: 0 <= i < |vs| ==> Plain(vs[i])) && Lies(b, r, EncodeAll(vs)) && |b| == r + |EncodeAll(vs)|
    ensures Items(b, r) == Some(Encodings(vs))
    decreases vs
  {
    hide Lies, ReadLine, Item, Encode;
    if vs == [] {
      NothingLeft(b, r);
      assert Encodings(vs) == [];
    } else {
      LiesSplit(b, r, Encode(vs[0]), EncodeAll(vs[1..]));
      ItemLies(b, r, vs[0]);
      ItemsOfEncoding(b, r + |Encode(vs[0])|, vs[1..]);
      assert Encodings(vs) == [Encode(vs[0])] + Encodings(vs[1..]);
    }
  }

  lemma NothingLeft(b: Bytes, r: nat)
    requires r == |b|
    ensures ReadLine(b, r) == Err(EmptyLine)
  {}

  /** parseMGet recovers exactly the encodings of the values, whatever bytes they hold. */
  lemma ItemsRoundTrip(vs: seq<Value>)
    requires |vs| <= MAX_STRINGS && forall i :: 0 <= i < |vs| ==> Plain(vs[i])
    ensures ParseItems(Encode(Array(vs))) == Some(Encodings(vs))
  {
    hide Lies, ReadLine, Items, EncodeAll, Itoa, ParseLen;
    var v := Array(vs);
    var b := Encode(v);
    assert WellFormed(v) by { assert forall i :: 0 <= i < |vs| && Plain(vs[i]) ==> WellFormed(vs[i]); }
    LiesIsSlice(b, 0, b);
    EncodingSplits(b, 0, v);
    HeaderIsLine(v);
    LineLies(b, 0, Header(v));
    ItemsOfEncoding(b, |Header(v)| + 2, vs);
  }

  lemma {:induction false} EncodeAllSnoc(vs: seq<Value>, v: Value)
    ensures EncodeAll(vs + [v]) == EncodeAll(vs) + Encode(v)
    decreases vs
  {
    hide Encode;
    if vs == [] {
      assert vs + [v] == [v] && EncodeAll([v][1..]) == [];
    } else {
      assert (vs + [v])[1..] == vs[1..] + [v];
      EncodeAllSnoc(vs[1..], v);
    }
  }

  /** Every shard has answered its fragment with the values of its keys, at whatever moment it ran. */
  ghost predicate Answered(stores: map<nat, Store>, frags: map<nat, seq<Bytes>>, rsp: map<nat, seq<Bytes>>) {
    forall s :: s in frags ==> s in rsp && Some(rsp[s]) == ParseItems(MgetReply(stores, frags[s]))
  }

  ghost predicate Encodable(stores: map<nat, Store>, keys: seq<Bytes>) {
    |keys| <= MAX_STRINGS && forall k :: k in keys ==> Plain(ValueOf(stores, k))
  }

  lemma PieceIsValue(stores: map<nat, Store>, keys: seq<Bytes>, rsp: map<nat, seq<Bytes>>, k: Bytes)
    requires Encodable(stores, keys) && Answered(stores, Group(keys), rsp) && k in keys
    ensures Piece(Group(keys), rsp, k) == Some(Encode(ValueOf(stores, k)))
  {
    hide Hash, GroupBy, ParseItems, Encode, ValueOf;
    var s := Hash(k);
    Sharding.GroupMembers(keys, Hash, s);
    var group := Group(keys)[s];
    GroupNotLonger(keys, s);
    ItemsRoundTrip(ValuesOf(stores, group));
  }

  lemma GroupNotLonger(keys: seq<Bytes>, s: nat)
    requires s in Group(keys)
    ensures |Group(keys)[s]| <= |keys|
  {
    hide Hash;
    Sharding.GroupsPartition(keys, Hash, s);
    InSlotNotLonger(keys, s);
  }

  lemma {:induction false} InSlotNotLonger(keys: seq<Bytes>, s: nat)
    ensures |Sharding.InSlot(keys, Hash, s)| <= |keys|
  {
    hide Hash;
    if keys != [] { InSlotNotLonger(keys[..|keys| - 1], s); }
  }

  lemma {:induction false} PiecesAreValues(stores: map<nat, Store>, keys: seq<Bytes>, rsp: map<nat, seq<Bytes>>, n: nat)
    requires Encodable(stores, keys) && Answered(stores, Group(keys), rsp) && n <= |keys|
    ensures Pieces(keys[..n], Group(keys), rsp) == Some(EncodeAll(ValuesOf(stores, keys[..n])))
  {
    hide Group, Answered, Piece, Encode, ValueOf;
    if n > 0 {
      var init, last := keys[..n - 1], keys[n - 1];
      assert keys[..n][..n - 1] == init;
      PiecesAreValues(stores, keys, rsp, n - 1);
      PieceIsValue(stores, keys, rsp, last);
      assert ValuesOf(stores, keys[..n]) == ValuesOf(stores, init) + [ValueOf(stores, last)];
      EncodeAllSnoc(ValuesOf(stores, init), ValueOf(stores, last));
    } else {
      assert ValuesOf(stores, keys[..n]) == [];
    }
  }

  lemma ArrayParts(vs: seq<Value>)
    ensures Encode(Array(vs)) == "*" + Itoa(|vs|) + CRLF + EncodeAll(vs)
  {}

  /** The merged reply is byte for byte the reply of the unsplit MGET in request order, for duplicate keys,
      missing keys and values of any bytes; only a reply over the limit is replaced by the error. */
  lemma MgetReassembles(stores: map<nat, Store>, keys: seq<Bytes>, rsp: map<nat, seq<Bytes>>, maxLength: nat)
    requires Encodable(stores, keys) && Answered(stores, Group(keys), rsp)
    ensures var reply := MgetReply(stores, keys);
            Merge(keys, Group(keys), rsp, maxLength) == Some(if |reply| > maxLength then RSP_TOO_LARGE else reply)
  {
    hide Group, Answered, Pieces, EncodeAll, Itoa;
    assert keys[..|keys|] == keys;
    PiecesAreValues(stores, keys, rsp, |keys|);
    ArrayParts(ValuesOf(stores, keys));
  }

  /** The nested loop that assembles the reply. */
  method MergeLoop(keys: seq<Bytes>, frags: map<nat, seq<Bytes>>, rsp: map<nat, seq<Bytes>>, maxLength: nat)
    returns (body: Option<Bytes>)
    ensures body == Merge(keys, frags, rsp, maxLength)
  {
    hide Hash, FirstIndex, Itoa;
    var header := "*" + Itoa(|keys|) + CRLF;
    var out := header;
    ghost var pieces: Bytes := [];
    for n := 0 to |keys|
      invariant Pieces(keys[..n], frags, rsp) == Some(pieces) && out == header + pieces
    {
      assert keys[..n + 1][..n] == keys[..n];
      var piece := FindPiece(frags, rsp, keys[n]);
      if piece.None? {
        PiecesStop(keys, frags, rsp, n + 1);
        return None;
      }
      pieces := pieces + piece.value;
      out := out + piece.value;
    }
    assert keys[..|keys|] == keys;
    if |out| > maxLength { return Some(RSP_TOO_LARGE); }
    return Some(out);
  }

  lemma {:induction false} PiecesStop(keys: seq<Bytes>, frags: map<nat, seq<Bytes>>, rsp: map<nat, seq<Bytes>>, n: nat)
    requires n <= |keys| && Pieces(keys[..n], frags, rsp).None?
    ensures Pieces(keys, frags, rsp).None?
    decreases |keys| - n
  {
    hide Piece;
    if n == |keys| {
      assert keys[..n] == keys;
    } else {
      assert keys[..n + 1][..n] == keys[..n];
      PiecesStop(keys, frags, rsp, n + 1);
    }
  }

  lemma FirstIndexStep(keys: seq<Bytes>, k: Bytes)
    requires keys != []
    ensures FirstIndex(keys, k) == if keys[0] == k then 0 else 1 + FirstIndex(keys[1..], k)
  {}

  method FindPiece(frags: map<nat, seq<Bytes>>, rsp: map<nat, seq<Bytes>>, k: Bytes) returns (piece: Option<Bytes>)
    ensures piece == Piece(frags, rsp, k)
  {
    hide Hash, FirstIndex;
    var s := Hash(k);
    var list := if s in frags then frags[s] else [];
    for i := 0 to |list|
      invariant FirstIndex(list, k) == i + FirstIndex(list[i..], k)
    {
      FirstIndexStep(list[i..], k);
      if list[i] == k {
        if s in rsp && i < |rsp[s]| { return Some(rsp[s][i]); }
        return None;
      }
      assert list[i..][1..] == list[i + 1..];
    }
    return Some([]);
  }
}
