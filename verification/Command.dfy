/** The client decoder of core/codec_c.go and the splitting of MGET, DEL and MSET into one fragment per slot. */
module Command {
  import opened Bytes
  import opened Slot

  datatype Kind = Mget | Del | Mset | Eval | Quit | Other | TooLarge

  /** What Decode hands to the dispatcher: the fragment requests by slot, and what reassembly needs. */
  datatype Msg = Msg(
    kind: Kind,
    keys: seq<Bytes>,
    frags: map<nat, seq<Bytes>>,
    pairs: map<nat, seq<(Bytes, Bytes)>>,
    body: map<nat, Bytes>)

  /** The four ways Decode ends. NoMessage is its nil message with a nil error, for a count below one. */
  datatype Decoded =
    | Message(msg: Msg, size: nat)
    | NoMessage
    | Incomplete
    | Stopped(error: Error)

  /** The connection keeps its bytes and waits for more: so it does after every error but one. */
  predicate WaitsForMore(d: Decoded) {
    d.Incomplete? || (d.Stopped? && !d.error.InvalidResp?)
  }

  function Lower(c: Byte): Byte {
    if 'A' <= c <= 'Z' then (c as int + 32) as char else c
  }

  /** toLower works on the receive buffer itself; on values it maps every byte. */
  function ToLower(s: Bytes): (r: Bytes)
    ensures |r| == |s| && forall i :: 0 <= i < |s| ==> r[i] == Lower(s[i])
  {
    if s == [] then [] else [Lower(s[0])] + ToLower(s[1..])
  }

  /** Transform2Type, as far as it decides how a request is split and whether the connection goes on: the name and
      its argument count. */
  function KindOf(name: Bytes, n: nat): Kind {
    if name == "mget" && n >= 1 then Mget
    else if name == "del" && n >= 1 then Del
    else if name == "mset" && n >= 2 && n % 2 == 0 then Mset
    else if (name == "eval" || name == "evalsha") && n >= 1 then Eval
    else if name == "quit" && n == 0 then Quit
    else Other
  }

  /** parseLine: one bulk string. A negative length yields an empty value and no error. */
  function ParseArg(b: Bytes, r: nat): (o: Outcome<Bytes>)
    requires r <= |b|
    ensures o.Ok? ==> r < o.pos <= |b|
  {
    var line := ReadLine(b, r);
    if line.Err? then Err(line.error)
    else if line.value[0] != '$' then Err(InvalidResp)
    else
      var len := ParseLen(line.value[1..]);
      if len.BadLength? then Err(len.error)
      else if len.n < 0 then Ok([], line.pos)
      else
        var data := ReadN(b, line.pos, len.n);
        if data.Err? then Err(data.error)
        else
          var crlf := ReadN(b, data.pos, 2);
          if crlf.Err? then Err(ShortLine)
          else if crlf.value != CRLF then Err(InvalidResp)
          else Ok(data.value, crlf.pos)
  }

  function ParseArgs(b: Bytes, r: nat, n: nat): (o: Outcome<seq<Bytes>>)
    requires r <= |b|
    ensures o.Ok? ==> r <= o.pos <= |b| && |o.value| == n
    decreases n
  {
    if n == 0 then Ok([], r)
    else
      var init := ParseArgs(b, r, n - 1);
      if init.Err? then init
      else
        var last := ParseArg(b, init.pos);
        if last.Err? then Err(last.error) else Ok(init.value + [last.value], last.pos)
  }

  // ----- splitting

  /** The list of slot in g, extended by x. */
  function Join<T>(g: map<nat, seq<T>>, slot: nat, x: T): map<nat, seq<T>> {
    g[slot := if slot in g then g[slot] + [x] else [x]]
  }

  /** Every element joins the list of its slot, in order. */
  function GroupBy<T>(xs: seq<T>, slot: T -> nat): map<nat, seq<T>> {
    if xs == [] then map[] else
      var x := xs[|xs| - 1];
      Join(GroupBy(xs[..|xs| - 1], slot), slot(x), x)
  }

  function Group(keys: seq<Bytes>): map<nat, seq<Bytes>> { GroupBy(keys, Hash) }

  function PairSlot(kv: (Bytes, Bytes)): nat { Hash(kv.0) }

  function GroupPairs(kvs: seq<(Bytes, Bytes)>): map<nat, seq<(Bytes, Bytes)>> { GroupBy(kvs, PairSlot) }

  function Pairs(args: seq<Bytes>): (kvs: seq<(Bytes, Bytes)>)
    ensures |kvs| == |args| / 2
  {
    if |args| < 2 then [] else [(args[0], args[1])] + Pairs(args[2..])
  }

  function Flatten(kvs: seq<(Bytes, Bytes)>): (args: seq<Bytes>)
    ensures |args| == 2 * |kvs|
  {
    if kvs == [] then [] else [kvs[0].0, kvs[0].1] + Flatten(kvs[1..])
  }

  function Firsts(kvs: seq<(Bytes, Bytes)>): seq<Bytes> {
    if kvs == [] then [] else [kvs[0].0] + Firsts(kvs[1..])
  }

  /** A RESP array of bulk strings. */
  function EncodeArg(a: Bytes): Bytes { "$" + Itoa(|a|) + CRLF + a + CRLF }

  function EncodeArgs(args: seq<Bytes>): Bytes {
    if args == [] then [] else EncodeArgs(args[..|args| - 1]) + EncodeArg(args[|args| - 1])
  }

  function EncodeCommand(args: seq<Bytes>): Bytes {
    "*" + Itoa(|args|) + CRLF + EncodeArgs(args)
  }

  function Requests(name: Bytes, groups: map<nat, seq<Bytes>>): map<nat, Bytes> {
    map slot | slot in groups :: EncodeCommand([name] + groups[slot])
  }

  function PairRequests(groups: map<nat, seq<(Bytes, Bytes)>>): map<nat, Bytes> {
    map slot | slot in groups :: EncodeCommand(["mset"] + Flatten(groups[slot]))
  }

  /** The message for a parsed request: name is lower case, raw is the request with that name in place. */
  function MakeMsg(kind: Kind, args: seq<Bytes>, raw: Bytes): Msg {
    match kind
    case Mget => Msg(kind, args, Group(args), map[], Requests("mget", Group(args)))
    case Del => Msg(kind, args, Group(args), map[], Requests("del", Group(args)))
    case Mset =>
      var kvs := Pairs(args);
      Msg(kind, Firsts(kvs), map[], GroupPairs(kvs), PairRequests(GroupPairs(kvs)))
    case Eval => Msg(kind, [], map[], map[], map[(if |args| > 2 then Hash(args[2]) else 0) := raw])
    case _ => Msg(kind, [], map[], map[], map[(if args != [] then Hash(args[0]) else 0) := raw])
  }

  /** Decode, on all the bytes that are buffered for the connection. */
  function Decode(b: Bytes, maxLength: nat): (d: Decoded)
    ensures d.Message? ==> 0 < d.size <= |b|
  {
    if b == [] then Incomplete
    else
      var line := ReadLine(b, 0);
      if line.Err? then Incomplete
      else if line.value[0] != '*' then Stopped(InvalidResp)
      else
        var len := ParseLen(line.value[1..]);
        if len.BadLength? then Stopped(len.error)
        else if len.n < 1 then NoMessage
        else
          var command := ParseArg(b, line.pos);
          if command.Err? then Stopped(command.error)
          else
            var name := ToLower(command.value);
            var kind := if |b| > maxLength then TooLarge else KindOf(name, len.n - 1);
            var args := ParseArgs(b, command.pos, len.n - 1);
            if args.Err? then Stopped(args.error)
            else Message(MakeMsg(kind, args.value, Lowered(b, command)[..args.pos]), args.pos)
  }

  /** The buffer after toLower has changed the command name in place. */
  function Lowered(b: Bytes, command: Outcome<Bytes>): (r: Bytes)
    requires command.Ok? && command.pos <= |b|
    ensures |r| == |b|
  {
    var end := command.pos - 2;
    if 0 <= end - |command.value| && command.value != [] then
      b[..end - |command.value|] + ToLower(command.value) + b[end..]
    else b
  }

  // ----- the decoder as the source writes it, over a cursor

  method ParseArgAt(buf: Buffer) returns (o: Outcome<Bytes>)
    requires buf.Valid()
    modifies buf`r
    ensures buf.Valid() && o == ParseArg(buf.buf, old(buf.r)) && (o.Ok? ==> buf.r == o.pos)
  {
    var line := buf.Line();
    if line.Err? { return Err(line.error); }
    if line.value[0] != '$' { return Err(InvalidResp); }
    var len := ParseLenLoop(line.value[1..]);
    if len.BadLength? { return Err(len.error); }
    if len.n < 0 { return Ok([], buf.r); }
    var data := buf.Next(len.n);
    if data.Err? { return Err(data.error); }
    var crlf := buf.Next(2);
    if crlf.Err? { return Err(ShortLine); }
    if crlf.value[0] != '\r' || crlf.value[1] != '\n' { return Err(InvalidResp); }
    assert crlf.value == CRLF;
    return Ok(data.value, buf.r);
  }

  /** An argument that cannot be read stops the whole list. */
  lemma {:induction false} ParseArgsStop(b: Bytes, r: nat, n: nat, m: nat)
    requires r <= |b| && n <= m && ParseArgs(b, r, n).Err?
    ensures ParseArgs(b, r, m) == ParseArgs(b, r, n)
    decreases m
  {
    hide ParseArg;
    if n < m { ParseArgsStop(b, r, n, m - 1); }
  }

  /** Frag1: reads n keys and sorts them into their slots on the way. */
  method Frag1(buf: Buffer, n: nat) returns (o: Outcome<seq<Bytes>>, frags: map<nat, seq<Bytes>>)
    requires buf.Valid()
    modifies buf`r
    ensures buf.Valid() && o == ParseArgs(buf.buf, old(buf.r), n)
    ensures o.Ok? ==> buf.r == o.pos && frags == Group(o.value)
  {
    hide Hash, ParseArg;
    ghost var start := buf.r;
    var keys: seq<Bytes> := [];
    frags := map[];
    for i := 0 to n
      invariant buf.Valid() && ParseArgs(buf.buf, start, i) == Ok(keys, buf.r) && frags == Group(keys)
    {
      var arg := ParseArgAt(buf);
      if arg.Err? {
        ParseArgsStop(buf.buf, start, i + 1, n);
        return Err(arg.error), frags;
      }
      var seg := arg.value;
      assert (keys + [seg])[..|keys|] == keys;
      keys := keys + [seg];
      var slot := Hash(seg);
      if slot in frags { frags := frags[slot := frags[slot] + [seg]]; } else { frags := frags[slot := [seg]]; }
    }
    return Ok(keys, buf.r), frags;
  }

  lemma {:induction false} PairsExtend(args: seq<Bytes>, k: Bytes, v: Bytes)
    requires |args| % 2 == 0
    ensures Pairs(args + [k, v]) == Pairs(args) + [(k, v)]
  {
    if args == [] {
      assert args + [k, v] == [k, v];
    } else {
      assert (args + [k, v])[2..] == args[2..] + [k, v];
      PairsExtend(args[2..], k, v);
    }
  }

  lemma GroupPairsExtend(args: seq<Bytes>, k: Bytes, v: Bytes)
    requires |args| % 2 == 0
    ensures GroupPairs(Pairs(args + [k, v])) == Join(GroupPairs(Pairs(args)), Hash(k), (k, v))
  {
    hide Hash;
    PairsExtend(args, k, v);
    assert (Pairs(args) + [(k, v)])[..|Pairs(args)|] == Pairs(args);
  }

  lemma ParseArgsStep(b: Bytes, r: nat, n: nat, m: nat)
    requires r <= |b| && ParseArgs(b, r, n).Ok? && n < m
    ensures var init := ParseArgs(b, r, n);
            var next := ParseArg(b, init.pos);
            && (next.Err? ==> ParseArgs(b, r, m) == Err(next.error))
            && (next.Ok? ==> ParseArgs(b, r, n + 1) == Ok(init.value + [next.value], next.pos))
  {
    hide ParseArg;
    if ParseArgs(b, r, n + 1).Err? { ParseArgsStop(b, r, n + 1, m); }
  }

  lemma NothingParsed(b: Bytes, r: nat)
    requires r <= |b|
    ensures ParseArgs(b, r, 0) == Ok([], r) && GroupPairs(Pairs([])) == map[]
  {}

  /** Frag2: reads n / 2 pairs and sorts them into the slots of their keys on the way. */
  method Frag2(buf: Buffer, n: nat) returns (o: Outcome<seq<Bytes>>, frags: map<nat, seq<(Bytes, Bytes)>>)
    requires buf.Valid() && n % 2 == 0
    modifies buf`r
    ensures buf.Valid() && o == ParseArgs(buf.buf, old(buf.r), n)
    ensures o.Ok? ==> buf.r == o.pos && frags == GroupPairs(Pairs(o.value))
  {
    hide ParseArg, ParseArgs, Pairs, GroupPairs, Hash;
    ghost var start := buf.r;
    var args: seq<Bytes> := [];
    frags := map[];
    NothingParsed(buf.buf, start);
    var i := 0;
    while i < n
      invariant 0 <= i <= n && i % 2 == 0 && |args| == i
      invariant buf.Valid() && ParseArgs(buf.buf, start, i) == Ok(args, buf.r) && frags == GroupPairs(Pairs(args))
    {
      ParseArgsStep(buf.buf, start, i, n);
      var key := ParseArgAt(buf);
      if key.Err? { return Err(key.error), frags; }
      ParseArgsStep(buf.buf, start, i + 1, n);
      var val := ParseArgAt(buf);
      if val.Err? { return Err(val.error), frags; }
      var pair := (key.value, val.value);
      GroupPairsExtend(args, pair.0, pair.1);
      assert args + [pair.0] + [pair.1] == args + [pair.0, pair.1];
      args := args + [pair.0, pair.1];
      var slot := Hash(pair.0);
      if slot in frags { frags := frags[slot := frags[slot] + [pair]]; } else { frags := frags[slot := [pair]]; }
      i := i + 2;
    }
    return Ok(args, buf.r), frags;
  }

  /** MGet and Del: one request per slot, in whatever order the map is walked. */
  method BuildRequests(name: Bytes, groups: map<nat, seq<Bytes>>) returns (body: map<nat, Bytes>)
    ensures body == Requests(name, groups)
  {
    body := map[];
    var left := groups.Keys;
    while left != {}
      invariant left <= groups.Keys && body.Keys == groups.Keys - left
      invariant forall slot :: slot in body ==> body[slot] == EncodeCommand([name] + groups[slot])
    {
      var slot :| slot in left;
      var req := BuildCommand([name] + groups[slot]);
      body := body[slot := req];
      left := left - {slot};
    }
  }

  /** The appends that write one request. */
  method BuildCommand(args: seq<Bytes>) returns (req: Bytes)
    ensures req == EncodeCommand(args)
  {
    req := "*" + Itoa(|args|) + CRLF;
    ghost var header := req;
    for i := 0 to |args|
      invariant req == header + EncodeArgs(args[..i])
    {
      assert args[..i + 1][..i] == args[..i];
      req := req + EncodeArg(args[i]);
    }
    assert args[..|args|] == args;
  }

  /** The loop of Default and Eval, which keeps the argument at index k as the routing key. */
  method SkipArgs(buf: Buffer, n: nat, k: nat) returns (o: Outcome<seq<Bytes>>, slot: nat)
    requires buf.Valid()
    modifies buf`r
    ensures buf.Valid() && o == ParseArgs(buf.buf, old(buf.r), n)
    ensures o.Ok? ==> buf.r == o.pos && slot == if k < n then Hash(o.value[k]) else 0
  {
    hide Hash, ParseArg;
    ghost var start := buf.r;
    var args: seq<Bytes> := [];
    slot := 0;
    for i := 0 to n
      invariant buf.Valid() && ParseArgs(buf.buf, start, i) == Ok(args, buf.r)
      invariant slot == if k < i then Hash(args[k]) else 0
    {
      var arg := ParseArgAt(buf);
      if arg.Err? {
        ParseArgsStop(buf.buf, start, i + 1, n);
        return Err(arg.error), slot;
      }
      args := args + [arg.value];
      if i == k { slot := Hash(arg.value); }
    }
    return Ok(args, buf.r), slot;
  }

  /** Decode as the source writes it. */
  method DecodeLoop(b: Bytes, maxLength: nat) returns (d: Decoded)
    ensures d == Decode(b, maxLength)
  {
    hide Hash, ParseArg, ParseArgs, Group, GroupPairs;
    if |b| < 1 { return Incomplete; }
    var buf := new Buffer(b);
    var line := buf.Line();
    if line.Err? { return Incomplete; }
    if line.value[0] != '*' { return Stopped(InvalidResp); }
    var len := ParseLenLoop(line.value[1..]);
    if len.BadLength? { return Stopped(len.error); }
    if len.n < 1 { return NoMessage; }
    var command := ParseArgAt(buf);
    if command.Err? { return Stopped(command.error); }
    var n := len.n - 1;
    var kind := if |b| > maxLength then TooLarge else KindOf(ToLower(command.value), n);
    match kind {
      case Mset =>
        var args, frags := Frag2(buf, n);
        if args.Err? { return Stopped(args.error); }
        var body := BuildPairRequests(frags);
        return Message(Msg(kind, Firsts(Pairs(args.value)), map[], frags, body), buf.r);
      case Mget =>
        var args, frags := Frag1(buf, n);
        if args.Err? { return Stopped(args.error); }
        var body := BuildRequests("mget", frags);
        return Message(Msg(kind, args.value, frags, map[], body), buf.r);
      case Del =>
        var args, frags := Frag1(buf, n);
        if args.Err? { return Stopped(args.error); }
        var body := BuildRequests("del", frags);
        return Message(Msg(kind, args.value, frags, map[], body), buf.r);
      case _ =>
        var args, slot := SkipArgs(buf, n, if kind.Eval? then 2 else 0);
        if args.Err? { return Stopped(args.error); }
        return Message(Msg(kind, [], map[], map[], map[slot := Lowered(b, command)[..buf.r]]), buf.r);
    }
  }

  /** MSet: one request per slot, its pairs laid out in order. */
  method BuildPairRequests(groups: map<nat, seq<(Bytes, Bytes)>>) returns (body: map<nat, Bytes>)
    ensures body == PairRequests(groups)
  {
    body := map[];
    var left := groups.Keys;
    while left != {}
      invariant left <= groups.Keys && body.Keys == groups.Keys - left
      invariant forall slot :: slot in body ==> body[slot] == EncodeCommand(["mset"] + Flatten(groups[slot]))
    {
      var slot :| slot in left;
      var req := BuildCommand(["mset"] + Flatten(groups[slot]));
      body := body[slot := req];
      left := left - {slot};
    }
  }
}
