/** A client connection receives its requests: the loop of core/eventloop.go:147-185 around the decoder of
    core/codec_c.go:36-114, for any bytes and any way of cutting them into reads. */
module ClientSession {
  import opened Bytes
  import opened Command
  import opened CommandStream

  /** The connection is open, it was closed after QUIT or an invalid request, or the proxy crashed. */
  datatype Ending = Open | Closed | Crashed

  datatype Session = Session(pending: Bytes, delivered: seq<Msg>, ending: Ending)

  /** Decode gets as far as the name of the command, which toLower then changes where it stands. */
  predicate NameRead(b: Bytes) {
    && b != [] && ReadLine(b, 0).Ok?
    && var line := ReadLine(b, 0);
       && line.value[0] == '*' && ParseLen(line.value[1..]).Length? && ParseLen(line.value[1..]).n >= 1
       && ParseArg(b, line.pos).Ok?
  }

  /** The buffer with the name in lower case, if it was read. */
  function Normal(b: Bytes): (r: Bytes)
    ensures |r| == |b|
  {
    if NameRead(b) then Lowered(b, ParseArg(b, ReadLine(b, 0).pos)) else b
  }

  /** The bytes left by a Decode that did not finish; it worked on the buffer itself or on a copy. */
  function Residue(b: Bytes, inPlace: bool): Bytes { if inPlace then Normal(b) else b }

  /** A message is delivered, and QUIT closes the connection. */
  function Took(s: Session, msg: Msg, size: nat): (t: Session)
    requires size <= |s.pending|
    ensures |t.pending| == |s.pending| - size
  {
    Session(s.pending[size..], s.delivered + [msg], if msg.kind.Quit? then Closed else s.ending)
  }

  /** The loop of cread. A nil message without an error goes to the dispatcher, which dereferences it. */
  function Drain(s: Session, inPlace: bool, maxLength: nat): Session
    decreases |s.pending|
  {
    match Decode(s.pending, maxLength)
    case Message(msg, size) =>
      var next := Took(s, msg, size);
      if msg.kind.Quit? then next else Drain(next, inPlace, maxLength)
    case NoMessage => s.(ending := Crashed)
    case d => if WaitsForMore(d) then s.(pending := Residue(s.pending, inPlace)) else s.(ending := Closed)
  }

  method DrainLoop(s: Session, inPlace: bool, maxLength: nat) returns (r: Session)
    ensures r == Drain(s, inPlace, maxLength)
  {
    hide Decode;
    r := s;
    while true
      invariant Drain(r, inPlace, maxLength) == Drain(s, inPlace, maxLength)
      decreases |r.pending|
    {
      var d := DecodeLoop(r.pending, maxLength);
      match d {
        case Message(msg, size) =>
          r := r.(pending := r.pending[size..], delivered := r.delivered + [msg]);
          if msg.kind.Quit? { return r.(ending := Closed); }
        case NoMessage => return r.(ending := Crashed);
        case _ =>
          if WaitsForMore(d) { return r.(pending := Residue(r.pending, inPlace)); }
          return r.(ending := Closed);
      }
    }
  }

  /** One read event: a chunk arrives, and the decoder either works on the buffer itself or on a copy. */
  datatype Read = Read(chunk: Bytes, inPlace: bool)

  function Add(s: Session, chunk: Bytes): Session { s.(pending := s.pending + chunk) }

  function Receive(s: Session, read: Read, maxLength: nat): Session {
    if s.ending.Open? then Drain(Add(s, read.chunk), read.inPlace, maxLength) else s
  }

  function ReceiveAll(s: Session, events: seq<Read>, maxLength: nat): Session
    decreases |events|
  {
    if events == [] then s else ReceiveAll(Receive(s, events[0], maxLength), events[1..], maxLength)
  }

  /** While the connection is open no event leaves more than maxLength bytes buffered. */
  ghost predicate WithinLimit(s: Session, events: seq<Read>, maxLength: nat)
    decreases |events|
  {
    s.ending.Open? && events != [] ==>
      && |s.pending| + |events[0].chunk| <= maxLength
      && WithinLimit(Receive(s, events[0], maxLength), events[1..], maxLength)
  }

  function Received(events: seq<Read>): Bytes {
    if events == [] then [] else events[0].chunk + Received(events[1..])
  }

  const START := Session([], [], Open)

  // ----- more bytes do not change a decision

  lemma ArgStable(b: Bytes, x: Bytes, r: nat)
    requires r <= |b|
    ensures var o := ParseArg(b, r); o.Ok? || o.error.InvalidResp? ==> ParseArg(b + x, r) == o
  {
    hide ReadLine, ParseLen;
    LineStable(b, x, r);
    var line := ReadLine(b, r);
    if line.Ok? {
      var len := ParseLen(line.value[1..]);
      if len.Length? && len.n >= 0 {
        ReadNStable(b, x, line.pos, len.n);
        var data := ReadN(b, line.pos, len.n);
        if data.Ok? { ReadNStable(b, x, data.pos, 2); }
      }
    }
  }

  lemma {:induction false} ArgsStable(b: Bytes, x: Bytes, r: nat, n: nat)
    requires r <= |b|
    ensures var o := ParseArgs(b, r, n); o.Ok? || o.error.InvalidResp? ==> ParseArgs(b + x, r, n) == o
    decreases n
  {
    hide ParseArg;
    if n > 0 {
      ArgsStable(b, x, r, n - 1);
      var init := ParseArgs(b, r, n - 1);
      if init.Ok? { ArgStable(b, x, init.pos); }
    }
  }

  lemma LoweredAppend(b: Bytes, x: Bytes, command: Outcome<Bytes>)
    requires command.Ok? && command.pos <= |b|
    ensures Lowered(b + x, command) == Lowered(b, command) + x
  {
    hide ToLower;
    var end := command.pos - 2;
    if 0 <= end - |command.value| && command.value != [] {
      assert (b + x)[..end - |command.value|] == b[..end - |command.value|] && (b + x)[end..] == b[end..] + x;
    }
  }

  /** Whether the name is read, and what lower case does to the buffer, is settled once the name is there. */
  lemma NameStable(b: Bytes, x: Bytes)
    requires NameRead(b)
    ensures NameRead(b + x) && ReadLine(b + x, 0) == ReadLine(b, 0)
    ensures ParseArg(b + x, ReadLine(b, 0).pos) == ParseArg(b, ReadLine(b, 0).pos)
    ensures Normal(b + x) == Normal(b) + x
  {
    hide ReadLine, ParseLen, ParseArg, Lowered;
    LineStable(b, x, 0);
    ArgStable(b, x, ReadLine(b, 0).pos);
    LoweredAppend(b, x, ParseArg(b, ReadLine(b, 0).pos));
  }

  /** The message Decode makes once the name is there, if the arguments are. */
  function Made(b: Bytes, maxLength: nat): Decoded
    requires NameRead(b)
  {
    var line := ReadLine(b, 0);
    var n := ParseLen(line.value[1..]).n - 1;
    var command := ParseArg(b, line.pos);
    var kind := if |b| > maxLength then TooLarge else KindOf(ToLower(command.value), n);
    var args := ParseArgs(b, command.pos, n);
    if args.Err? then Stopped(args.error)
    else Message(MakeMsg(kind, args.value, Normal(b)[..args.pos]), args.pos)
  }

  lemma DecodeIsMade(b: Bytes, maxLength: nat)
    requires NameRead(b)
    ensures Decode(b, maxLength) == Made(b, maxLength)
  {
    hide ReadLine, ParseLen, ParseArg, ParseArgs, Lowered, KindOf, MakeMsg, ToLower;
  }

  /** Either no buffer of up to n bytes is over the limit, or every buffer is. */
  predicate Uniform(n: nat, maxLength: nat) { n <= maxLength || maxLength == 0 }

  lemma MadeStable(b: Bytes, x: Bytes, maxLength: nat)
    requires NameRead(b) && Uniform(|b + x|, maxLength)
    ensures NameRead(b + x)
    ensures var d := Made(b, maxLength); !WaitsForMore(d) ==> Made(b + x, maxLength) == d
  {
    hide ReadLine, ParseLen, ParseArg, ParseArgs, Lowered, KindOf, MakeMsg, ToLower, Normal, NameRead;
    NameStable(b, x);
    NameFacts(b);
    var line := ReadLine(b, 0);
    var n := ParseLen(line.value[1..]).n - 1;
    var command := ParseArg(b, line.pos);
    ArgsStable(b, x, command.pos, n);
    var args := ParseArgs(b, command.pos, n);
    if args.Ok? { assert (Normal(b) + x)[..args.pos] == Normal(b)[..args.pos]; }
  }

  lemma NameFacts(b: Bytes)
    requires NameRead(b)
    ensures ReadLine(b, 0).Ok?
    ensures ParseLen(ReadLine(b, 0).value[1..]).Length? && ParseLen(ReadLine(b, 0).value[1..]).n >= 1
    ensures ParseArg(b, ReadLine(b, 0).pos).Ok?
  {
    hide ReadLine, ParseLen, ParseArg;
  }

  /** What Decode does before the name is there. */
  lemma DecodeBefore(b: Bytes, maxLength: nat)
    requires !NameRead(b)
    ensures Decode(b, maxLength) ==
            if b == [] || ReadLine(b, 0).Err? then Incomplete
            else if ReadLine(b, 0).value[0] != '*' then Stopped(InvalidResp)
            else var len := ParseLen(ReadLine(b, 0).value[1..]);
                 if len.BadLength? then Stopped(len.error)
                 else if len.n < 1 then NoMessage
                 else Stopped(ParseArg(b, ReadLine(b, 0).pos).error)
  {
    hide ReadLine, ParseLen, ParseArg, ParseArgs, Lowered, KindOf, MakeMsg, ToLower;
  }

  lemma BeforeStable(b: Bytes, x: Bytes, maxLength: nat)
    requires !NameRead(b) && !WaitsForMore(Decode(b, maxLength))
    ensures Decode(b + x, maxLength) == Decode(b, maxLength)
  {
    hide ReadLine, ParseLen, ParseArg, ParseArgs, Decode, Lowered;
    DecodeBefore(b, maxLength);
    LineStable(b, x, 0);
    ArgStable(b, x, ReadLine(b, 0).pos);
    DecodeBefore(b + x, maxLength);
  }

  /** Once Decode delivers, crashes or closes, it does the same with more bytes behind, within the limit. */
  lemma DecodeStable(b: Bytes, x: Bytes, maxLength: nat)
    requires Uniform(|b + x|, maxLength) && !WaitsForMore(Decode(b, maxLength))
    ensures Decode(b + x, maxLength) == Decode(b, maxLength)
  {
    hide Decode, Made, NameRead, WaitsForMore;
    if NameRead(b) {
      DecodeIsMade(b, maxLength);
      MadeStable(b, x, maxLength);
      DecodeIsMade(b + x, maxLength);
    } else {
      BeforeStable(b, x, maxLength);
    }
  }

  lemma LimitIrrelevant(b: Bytes, m: nat, n: nat)
    requires |b| <= m && |b| <= n
    ensures Decode(b, m) == Decode(b, n)
  {
    hide Decode, NameRead, ReadLine, ParseLen, ParseArg, ParseArgs, KindOf, MakeMsg, ToLower, Normal;
    if NameRead(b) {
      DecodeIsMade(b, m);
      DecodeIsMade(b, n);
    } else {
      DecodeBefore(b, m);
      DecodeBefore(b, n);
    }
  }

  // ----- lower case in place does not change what is decoded

  lemma ArgFrom(b: Bytes, c: Bytes, r: nat)
    requires r <= |b| && SameFrom(b, c, r)
    ensures ParseArg(b, r) == ParseArg(c, r)
  {
    hide ReadLine, ParseLen;
    LineFrom(b, c, r);
    var line := ReadLine(b, r);
    if line.Ok? {
      var len := ParseLen(line.value[1..]);
      if len.Length? && len.n >= 0 {
        ReadNFrom(b, c, line.pos, len.n);
        if ReadN(b, line.pos, len.n).Ok? { ReadNFrom(b, c, line.pos + len.n, 2); }
      }
    }
  }

  lemma {:induction false} ArgsFrom(b: Bytes, c: Bytes, r: nat, n: nat)
    requires r <= |b| && SameFrom(b, c, r)
    ensures ParseArgs(b, r, n) == ParseArgs(c, r, n)
    decreases n
  {
    hide ParseArg;
    if n > 0 {
      ArgsFrom(b, c, r, n - 1);
      var init := ParseArgs(b, r, n - 1);
      if init.Ok? { ArgFrom(b, c, init.pos); }
    }
  }

  lemma ToLowerTwice(name: Bytes)
    ensures ToLower(ToLower(name)) == ToLower(name)
  {
    assert forall i :: 0 <= i < |name| ==> ToLower(ToLower(name))[i] == ToLower(name)[i];
  }

  /** Where a parsed argument that is not empty stands. */
  lemma ArgStands(b: Bytes, r: nat)
    requires r <= |b| && ParseArg(b, r).Ok? && ParseArg(b, r).value != []
    ensures var o, line := ParseArg(b, r), ReadLine(b, r);
            && line.Ok? && line.value[0] == '$' && ParseLen(line.value[1..]) == Length(|o.value|)
            && o.pos == line.pos + |o.value| + 2 && o.pos <= |b| && b[line.pos..o.pos - 2] == o.value
            && b[o.pos - 2..o.pos] == CRLF
  {
    hide ReadLine, ParseLen;
  }

  /** Such an argument may be overwritten by one of the same length. */
  lemma ArgOverwritten(b: Bytes, r: nat, other: Bytes)
    requires r <= |b| && ParseArg(b, r).Ok? && ParseArg(b, r).value != [] && |other| == |ParseArg(b, r).value|
    ensures var o := ParseArg(b, r);
            var at := o.pos - 2 - |other|;
            && r <= at && o.pos <= |b|
            && ParseArg(b[..at] + other + b[o.pos - 2..], r) == Ok(other, o.pos)
  {
    hide ReadLine, ParseLen;
    ArgStands(b, r);
    var o, line := ParseArg(b, r), ReadLine(b, r);
    var c := b[..line.pos] + other + b[o.pos - 2..];
    LineWithin(b, r, line.pos);
    LineStable(b[..line.pos], other + b[o.pos - 2..], r);
    assert c == b[..line.pos] + (other + b[o.pos - 2..]);
    assert c[line.pos..line.pos + |other|] == other;
    assert c[o.pos - 2..o.pos] == b[o.pos - 2..o.pos];
  }

  /** The buffer with the name in lower case reads the same, but for the name. */
  lemma NormalReads(b: Bytes)
    requires NameRead(b) && ParseArg(b, ReadLine(b, 0).pos).value != []
    ensures var line := ReadLine(b, 0);
            var command := ParseArg(b, line.pos);
            && ReadLine(Normal(b), 0) == line
            && ParseArg(Normal(b), line.pos) == Ok(ToLower(command.value), command.pos)
            && SameFrom(Normal(b), b, command.pos)
  {
    hide ReadLine, ParseLen, ParseArg, ToLower, Normal, NameRead;
    NameFacts(b);
    var line := ReadLine(b, 0);
    var command := ParseArg(b, line.pos);
    var low := ToLower(command.value);
    ArgOverwritten(b, line.pos, low);
    NormalIs(b);
    var at := command.pos - 2 - |low|;
    LineWithin(b, 0, at);
    LineStable(b[..at], low + b[command.pos - 2..], 0);
    OverwrittenParts(b, at, low);
  }

  lemma NormalIs(b: Bytes)
    requires NameRead(b) && ParseArg(b, ReadLine(b, 0).pos).value != []
    ensures var command := ParseArg(b, ReadLine(b, 0).pos);
            var low := ToLower(command.value);
            var at := command.pos - 2 - |low|;
            0 <= at && command.pos <= |b| && Normal(b) == b[..at] + low + b[command.pos - 2..]
  {
    hide ReadLine, ParseLen, ParseArg, ToLower;
    ArgStands(b, ReadLine(b, 0).pos);
  }

  lemma OverwrittenParts(b: Bytes, at: nat, w: Bytes)
    requires at + |w| + 2 <= |b|
    ensures var c := b[..at] + w + b[at + |w|..];
            c == b[..at] + (w + b[at + |w|..]) && SameFrom(c, b, at + |w| + 2)
  {}

  lemma NormalOfEmptyName(b: Bytes)
    requires NameRead(b) && ParseArg(b, ReadLine(b, 0).pos).value == []
    ensures Normal(b) == b
  {
    hide ReadLine, ParseLen, ParseArg;
  }

  lemma LoweredAgain(b: Bytes, name: Bytes, pos: nat)
    requires |name| + 2 <= pos <= |b| && b[pos - 2 - |name|..pos - 2] == ToLower(name)
    ensures Lowered(b, Ok(ToLower(name), pos)) == b
  {
    hide ToLower;
    ToLowerTwice(name);
    ThreeParts(b, pos - 2 - |name|, pos - 2);
    assert |ToLower(name)| == |name|;
  }

  lemma ThreeParts(b: Bytes, i: nat, j: nat)
    requires i <= j <= |b|
    ensures b[..i] + b[i..j] + b[j..] == b
  {}

  lemma NormalTwice(b: Bytes)
    ensures Normal(Normal(b)) == Normal(b) && (NameRead(b) ==> NameRead(Normal(b)))
  {
    hide ReadLine, ParseLen, ParseArg, ToLower, Lowered;
    if NameRead(b) {
      var command := ParseArg(b, ReadLine(b, 0).pos);
      if command.value == [] {
        NormalOfEmptyName(b);
      } else {
        NormalReads(b);
        ArgStands(Normal(b), ReadLine(b, 0).pos);
        LoweredAgain(Normal(b), command.value, command.pos);
      }
    }
  }

  lemma DecodeNormal(b: Bytes, maxLength: nat)
    ensures Decode(Normal(b), maxLength) == Decode(b, maxLength)
  {
    hide Decode, ReadLine, ParseLen, ParseArg, ParseArgs, ToLower, Lowered, KindOf, MakeMsg;
    if NameRead(b) {
      var command := ParseArg(b, ReadLine(b, 0).pos);
      if command.value == [] {
        NormalOfEmptyName(b);
      } else {
        NormalReads(b);
        NormalTwice(b);
        ToLowerTwice(command.value);
        ArgsFrom(Normal(b), b, command.pos, ParseLen(ReadLine(b, 0).value[1..]).n - 1);
        DecodeIsMade(b, maxLength);
        DecodeIsMade(Normal(b), maxLength);
      }
    }
  }

  // ----- sessions

  /** The same messages and the same ending, and bytes that differ at most in the case of a name. */
  ghost predicate Same(s: Session, t: Session) {
    && s.delivered == t.delivered && s.ending == t.ending
    && (s.ending.Open? ==> Normal(s.pending) == Normal(t.pending))
  }

  lemma SameTrans(s: Session, t: Session, u: Session)
    requires Same(s, t) && Same(t, u)
    ensures Same(s, u)
  {
    hide Normal;
  }

  lemma DrainStep(s: Session, inPlace: bool, maxLength: nat)
    ensures var d := Decode(s.pending, maxLength);
            && (d.Message? ==>
                  var next := Took(s, d.msg, d.size);
                  Drain(s, inPlace, maxLength) == if d.msg.kind.Quit? then next else Drain(next, inPlace, maxLength))
            && (d.NoMessage? ==> Drain(s, inPlace, maxLength) == s.(ending := Crashed))
            && (WaitsForMore(d) ==> Drain(s, inPlace, maxLength) == s.(pending := Residue(s.pending, inPlace)))
            && (d == Stopped(InvalidResp) ==> Drain(s, inPlace, maxLength) == s.(ending := Closed))
  {
    hide Decode, Normal;
  }

  lemma {:induction false} DrainLimit(s: Session, inPlace: bool, m: nat, n: nat)
    requires |s.pending| <= m && |s.pending| <= n
    ensures Drain(s, inPlace, m) == Drain(s, inPlace, n)
    decreases |s.pending|
  {
    hide Decode, Normal;
    LimitIrrelevant(s.pending, m, n);
    var d := Decode(s.pending, m);
    if d.Message? { DrainLimit(Took(s, d.msg, d.size), inPlace, m, n); }
  }

  lemma ResidueNormal(b: Bytes, inPlace: bool)
    ensures Normal(Residue(b, inPlace)) == Normal(b)
  {
    hide NameRead, Lowered;
    NormalTwice(b);
  }

  /** It does not matter whether the decoder works in place. */
  lemma {:induction false} DrainPlace(s: Session, inPlace: bool, other: bool, maxLength: nat)
    ensures Same(Drain(s, inPlace, maxLength), Drain(s, other, maxLength))
    decreases |s.pending|
  {
    hide Decode, Normal, Residue;
    var d := Decode(s.pending, maxLength);
    if d.Message? {
      DrainPlace(Took(s, d.msg, d.size), inPlace, other, maxLength);
    } else {
      ResidueNormal(s.pending, inPlace);
      ResidueNormal(s.pending, other);
    }
  }

  lemma NormalTail(b: Bytes, maxLength: nat)
    requires Decode(b, maxLength).Message?
    ensures Normal(b)[Decode(b, maxLength).size..] == b[Decode(b, maxLength).size..]
  {
    hide Decode, ReadLine, ParseLen, ParseArg, ToLower, Lowered, KindOf, MakeMsg;
    if NameRead(b) {
      DecodeIsMade(b, maxLength);
      var command := ParseArg(b, ReadLine(b, 0).pos);
      if command.value == [] {
        NormalOfEmptyName(b);
      } else {
        NormalReads(b);
        TailsAgree(Normal(b), b, command.pos, Decode(b, maxLength).size);
      }
    }
  }

  lemma TailsAgree(b: Bytes, c: Bytes, r: nat, i: nat)
    requires SameFrom(b, c, r) && r <= i <= |b|
    ensures b[i..] == c[i..]
  {}

  lemma DrainNormal(s: Session, inPlace: bool, maxLength: nat)
    ensures Same(Drain(s.(pending := Normal(s.pending)), inPlace, maxLength), Drain(s, inPlace, maxLength))
  {
    hide Decode, Normal, Drain, Residue;
    var t := s.(pending := Normal(s.pending));
    DecodeNormal(s.pending, maxLength);
    DrainStep(s, inPlace, maxLength);
    DrainStep(t, inPlace, maxLength);
    var d := Decode(s.pending, maxLength);
    if d.Message? {
      NormalTail(s.pending, maxLength);
    } else {
      NormalTwice(s.pending);
      ResidueNormal(s.pending, inPlace);
      ResidueNormal(t.pending, inPlace);
    }
  }

  /** Bytes in lower case continue like the bytes themselves. */
  lemma NormalContinues(s: Session, x: Bytes, inPlace: bool, maxLength: nat)
    ensures Same(Drain(Add(s.(pending := Normal(s.pending)), x), inPlace, maxLength),
                 Drain(Add(s, x), inPlace, maxLength))
  {
    hide Decode, Drain, Lowered, NameRead;
    if NameRead(s.pending) {
      NameStable(s.pending, x);
      DrainNormal(Add(s, x), inPlace, maxLength);
    }
  }

  lemma SameContinue(s: Session, t: Session, x: Bytes, inPlace: bool, maxLength: nat)
    requires Same(s, t) && s.ending.Open?
    ensures Same(Drain(Add(s, x), inPlace, maxLength), Drain(Add(t, x), inPlace, maxLength))
  {
    hide Drain, Normal;
    NormalContinues(s, x, inPlace, maxLength);
    NormalContinues(t, x, inPlace, maxLength);
    var n := s.(pending := Normal(s.pending));
    assert n == t.(pending := Normal(t.pending));
    SameSym(Drain(Add(n, x), inPlace, maxLength), Drain(Add(s, x), inPlace, maxLength));
    SameTrans(Drain(Add(s, x), inPlace, maxLength), Drain(Add(n, x), inPlace, maxLength),
              Drain(Add(t, x), inPlace, maxLength));
  }

  lemma SameSym(s: Session, t: Session)
    requires Same(s, t)
    ensures Same(t, s)
  {
    hide Normal;
  }

  /** Draining before more bytes arrive and draining after all have arrived come to the same. */
  lemma {:induction false} DrainMore(s: Session, x: Bytes, inPlace: bool, other: bool, maxLength: nat)
    requires s.ending.Open? && Uniform(|s.pending + x|, maxLength)
    ensures var s' := Drain(s, inPlace, maxLength);
            Same(if s'.ending.Open? then Drain(Add(s', x), other, maxLength) else s',
                 Drain(Add(s, x), other, maxLength))
    decreases |s.pending|
  {
    hide Decode, Drain, Normal, Residue;
    var d := Decode(s.pending, maxLength);
    DrainStep(s, inPlace, maxLength);
    if WaitsForMore(d) {
      ResidueNormal(s.pending, inPlace);
      SameContinue(s.(pending := Residue(s.pending, inPlace)), s, x, other, maxLength);
    } else {
      DecodeStable(s.pending, x, maxLength);
      DrainStep(Add(s, x), other, maxLength);
      if d.Message? {
        var rest := Took(s, d.msg, d.size);
        assert (s.pending + x)[d.size..] == rest.pending + x;
        if !d.msg.kind.Quit? { DrainMore(rest, x, inPlace, other, maxLength); }
      }
    }
  }

  lemma {:induction false} DrainShrinks(s: Session, inPlace: bool, maxLength: nat)
    ensures |Drain(s, inPlace, maxLength).pending| <= |s.pending|
    decreases |s.pending|
  {
    hide Decode, Normal;
    var d := Decode(s.pending, maxLength);
    if d.Message? { DrainShrinks(Took(s, d.msg, d.size), inPlace, maxLength); }
  }

  /** Nothing can be taken from the session before more arrives. */
  ghost predicate Dry(s: Session, maxLength: nat) { s.ending.Open? ==> Same(Drain(s, false, maxLength), s) }

  lemma DrainedIsDry(s: Session, inPlace: bool, maxLength: nat)
    requires s.ending.Open? && Uniform(|s.pending|, maxLength)
    ensures Dry(Drain(s, inPlace, maxLength), maxLength)
  {
    hide Drain, Normal;
    var s' := Drain(s, inPlace, maxLength);
    AddNothing(s);
    AddNothing(s');
    DrainMore(s, [], inPlace, false, maxLength);
    DrainPlace(s, false, inPlace, maxLength);
    if s'.ending.Open? {
      SameTrans(Drain(s', false, maxLength), Drain(s, false, maxLength), s');
    }
  }

  lemma AddNothing(s: Session)
    ensures Add(s, []) == s
  {
    assert s.pending + [] == s.pending;
  }

  /** The same session as if all bytes had come at once: with no limit on the size of the buffer if none is over the
      limit, and with the limit if every one is. */
  lemma {:induction false} ReceiveAtOnce(s: Session, events: seq<Read>, maxLength: nat, all: nat)
    requires s.ending.Open? && Dry(s, all)
    requires (WithinLimit(s, events, maxLength) && |s.pending + Received(events)| <= all) || maxLength == all == 0
    ensures Same(ReceiveAll(s, events, maxLength), Drain(Add(s, Received(events)), false, all))
    decreases |events|
  {
    hide Drain, Normal, Same;
    if events == [] {
      AddNothing(s);
      DrySym(s, all);
    } else {
      var e, rest := events[0], events[1..];
      var s0 := Add(s, e.chunk);
      var s1 := Drain(s0, e.inPlace, maxLength);
      if maxLength != all { DrainLimit(s0, e.inPlace, maxLength, all); }
      assert s0.pending + Received(rest) == s.pending + Received(events);
      DrainMore(s0, Received(rest), e.inPlace, false, all);
      DrainShrinks(s0, e.inPlace, all);
      if s1.ending.Open? {
        DrainedIsDry(s0, e.inPlace, all);
        ReceiveAtOnce(s1, rest, maxLength, all);
        SameTrans(ReceiveAll(s1, rest, maxLength), Drain(Add(s1, Received(rest)), false, all),
                  Drain(Add(s0, Received(rest)), false, all));
      } else {
        EndedStays(s1, rest, maxLength);
      }
    }
  }

  lemma DrySym(s: Session, maxLength: nat)
    requires Dry(s, maxLength) && s.ending.Open?
    ensures Same(s, Drain(s, false, maxLength))
  {
    hide Drain, Normal;
  }

  lemma {:induction false} EndedStays(s: Session, events: seq<Read>, maxLength: nat)
    requires !s.ending.Open?
    ensures ReceiveAll(s, events, maxLength) == s
    decreases |events|
  {
    hide Drain;
    if events != [] { EndedStays(s, events[1..], maxLength); }
  }

  /** What the stream b comes to when it is decoded at once, with no limit on its size. */
  function Whole(b: Bytes): Session { Drain(Session(b, [], Open), false, |b|) }

  /** For any bytes at all: however they are cut into reads, within the limit, and whether or not the decoder works in
      place, the same messages are delivered in the same order and the connection ends in the same way. */
  lemma ChunksDoNotMatter(events: seq<Read>, maxLength: nat)
    requires WithinLimit(START, events, maxLength)
    ensures Same(ReceiveAll(START, events, maxLength), Whole(Received(events)))
  {
    hide Drain, Same, ReceiveAll;
    var b := Received(events);
    assert [] + b == b;
    StartIsDry(|b|);
    ReceiveAtOnce(START, events, maxLength, |b|);
  }

  lemma StartIsDry(maxLength: nat)
    ensures Dry(START, maxLength)
  {
    hide Normal;
  }

  // ----- streams of encoded requests

  function EncodeStream(cs: seq<seq<Bytes>>): Bytes {
    if cs == [] then [] else EncodeCommand(cs[0]) + EncodeStream(cs[1..])
  }

  function MsgsOf(cs: seq<seq<Bytes>>): seq<Msg>
    requires forall i :: 0 <= i < |cs| ==> cs[i] != []
  {
    if cs == [] then [] else [MsgOf(cs[0])] + MsgsOf(cs[1..])
  }

  ghost predicate AllSendable(cs: seq<seq<Bytes>>) {
    forall i :: 0 <= i < |cs| ==> Sendable(cs[i])
  }

  predicate IsQuit(c: seq<Bytes>) { c != [] && KindOf(ToLower(c[0]), |c| - 1).Quit? }

  /** The requests up to and including the first QUIT. */
  function UpToQuit(cs: seq<seq<Bytes>>): (r: seq<seq<Bytes>>)
    ensures r <= cs && (r == cs || (r != [] && IsQuit(r[|r| - 1])))
    ensures forall i :: 0 <= i < |r| - 1 ==> !IsQuit(r[i])
  {
    if cs == [] then [] else if IsQuit(cs[0]) then [cs[0]] else [cs[0]] + UpToQuit(cs[1..])
  }

  predicate Quits(cs: seq<seq<Bytes>>) { exists i :: 0 <= i < |cs| && IsQuit(cs[i]) }

  lemma QuitsStep(cs: seq<seq<Bytes>>)
    requires cs != []
    ensures Quits(cs) <==> IsQuit(cs[0]) || Quits(cs[1..])
    ensures UpToQuit(cs)[0] == cs[0]
    ensures UpToQuit(cs)[1..] == if IsQuit(cs[0]) then [] else UpToQuit(cs[1..])
  {
    hide IsQuit;
    if Quits(cs) && !IsQuit(cs[0]) {
      var i :| 0 <= i < |cs| && IsQuit(cs[i]);
      assert cs[1..][i - 1] == cs[i];
    }
    if Quits(cs[1..]) {
      var i :| 0 <= i < |cs[1..]| && IsQuit(cs[1..][i]);
      assert cs[i + 1] == cs[1..][i];
    }
  }

  /** What a stream of requests leaves of an open session. */
  predicate After(cs: seq<seq<Bytes>>, before: seq<Msg>, s: Session)
    requires forall i :: 0 <= i < |cs| ==> cs[i] != []
  {
    && s.delivered == before + MsgsOf(UpToQuit(cs))
    && (if Quits(cs) then s.ending == Closed else s.ending == Open && s.pending == [])
  }

  lemma QuitKind(c: seq<Bytes>)
    requires c != []
    ensures MsgOf(c).kind.Quit? <==> IsQuit(c)
  {
    hide KindOf, ToLower, EncodeCommand, GroupBy, Firsts, Pairs;
  }

  lemma {:induction false} DrainStream(cs: seq<seq<Bytes>>, before: seq<Msg>, maxLength: nat)
    requires AllSendable(cs) && |EncodeStream(cs)| <= maxLength
    ensures After(cs, before, Drain(Session(EncodeStream(cs), before, Open), false, maxLength))
    decreases |cs|
  {
    hide Drain, Decode, EncodeCommand, MsgOf, IsQuit, UpToQuit, Quits;
    var s := Session(EncodeStream(cs), before, Open);
    DrainStep(s, false, maxLength);
    if cs == [] {
      NothingYet(maxLength);
      NoQuits();
      assert before + [] == before;
    } else {
      var e, rest := EncodeCommand(cs[0]), EncodeStream(cs[1..]);
      assert s.pending + [] == e + rest && (e + rest)[|e|..] == rest;
      DecodeWithin(s.pending, [], cs[0], rest, maxLength);
      QuitKind(cs[0]);
      QuitsStep(cs);
      DrainStream(cs[1..], before + [MsgOf(cs[0])], maxLength);
      var more := MsgsOf(UpToQuit(cs)[1..]);
      assert before + [MsgOf(cs[0])] + more == before + ([MsgOf(cs[0])] + more);
      assert IsQuit(cs[0]) ==> more == [] && [MsgOf(cs[0])] + [] == [MsgOf(cs[0])];
    }
  }

  lemma NoQuits()
    ensures UpToQuit([]) == [] && !Quits([])
  {}

  lemma NothingYet(maxLength: nat)
    ensures Decode([], maxLength) == Incomplete
  {}

  /** However a stream of requests is cut into reads, the messages up to and including the first QUIT are delivered,
      each once and in order. QUIT closes the connection; without one nothing is left over. */
  lemma ChunkingIndependent(cs: seq<seq<Bytes>>, events: seq<Read>, maxLength: nat)
    requires AllSendable(cs) && Received(events) == EncodeStream(cs) && WithinLimit(START, events, maxLength)
    ensures var s := ReceiveAll(START, events, maxLength);
            && s.delivered == MsgsOf(UpToQuit(cs))
            && s.ending == (if Quits(cs) then Closed else Open)
            && (s.ending.Open? ==> s.pending == [])
  {
    hide ReceiveAll, Drain, EncodeStream, Normal, Quits, UpToQuit, MsgsOf;
    ChunksDoNotMatter(events, maxLength);
    DrainStream(cs, [], |EncodeStream(cs)|);
    assert [] + MsgsOf(UpToQuit(cs)) == MsgsOf(UpToQuit(cs));
    var s := ReceiveAll(START, events, maxLength);
    assert s.ending.Open? ==> |Normal(s.pending)| == |Normal([])|;
  }

  /** Above the limit it does depend on the cut: two requests that fit one by one are treated as such when they come one
      by one, and the first is refused as too large when they come together. */
  lemma LimitDependsOnCut(c: seq<Bytes>, d: seq<Bytes>, maxLength: nat)
    requires Sendable(c) && Sendable(d)
    requires |EncodeCommand(c)| <= maxLength && |EncodeCommand(d)| <= maxLength
    requires |EncodeCommand(c)| + |EncodeCommand(d)| > maxLength
    ensures var apart := [Read(EncodeCommand(c), false), Read(EncodeCommand(d), false)];
            var together := [Read(EncodeCommand(c) + EncodeCommand(d), false)];
            && Received(apart) == Received(together)
            && ReceiveAll(START, apart, maxLength).delivered == MsgsOf(UpToQuit([c, d]))
            && ReceiveAll(START, together, maxLength).delivered != MsgsOf(UpToQuit([c, d]))
  {
    hide Drain, Decode, EncodeCommand, MsgOf, NameRead, WithinLimit, UpToQuit, Quits, ReceiveAll;
    var e, f := EncodeCommand(c), EncodeCommand(d);
    var apart, together := [Read(e, false), Read(f, false)], [Read(e + f, false)];
    assert apart[1..] == [Read(f, false)] && apart[1..][1..] == [] && together[1..] == [];
    assert f + [] == f && (e + f) + [] == e + f && [] + (e + f) == e + f;
    assert [c, d][1..] == [d] && [d][1..] == [];
    assert EncodeStream([c, d]) == e + f by { assert EncodeStream([d]) == f; }
    assert Received(apart) == e + f by { assert Received(apart[1..]) == f; }
    ApartWithin(c, f, maxLength);
    ChunkingIndependent([c, d], apart, maxLength);
    FirstTooLarge(c, f, maxLength);
    OneRead(together[0], maxLength);
    QuitsStep([c, d]);
  }

  lemma OneRead(read: Read, maxLength: nat)
    ensures ReceiveAll(START, [read], maxLength) == Drain(Session(read.chunk, [], Open), read.inPlace, maxLength)
  {
    hide Drain;
    assert [read][1..] == [] && [] + read.chunk == read.chunk;
  }

  /** A request that fits leaves nothing behind for the next one to be added to. */
  lemma ApartWithin(c: seq<Bytes>, f: Bytes, maxLength: nat)
    requires Sendable(c) && |EncodeCommand(c)| <= maxLength && |f| <= maxLength
    ensures WithinLimit(START, [Read(EncodeCommand(c), false), Read(f, false)], maxLength)
  {
    hide Drain, Decode, EncodeCommand, MsgOf, UpToQuit, Quits;
    var e := EncodeCommand(c);
    var apart := [Read(e, false), Read(f, false)];
    assert apart[1..] == [Read(f, false)] && apart[1..][1..] == [];
    assert [c][1..] == [] && e + [] == e && [] + e == e;
    DrainStream([c], [], maxLength);
    assert EncodeStream([c]) == e;
    assert Add(START, e) == Session(e, [], Open);
    var s := Receive(START, apart[0], maxLength);
    assert WithinLimit(s, apart[1..], maxLength) by {
      if s.ending.Open? { assert WithinLimit(Receive(s, apart[1], maxLength), apart[1..][1..], maxLength); }
    }
  }

  lemma FirstTooLarge(c: seq<Bytes>, rest: Bytes, maxLength: nat)
    requires Sendable(c) && |EncodeCommand(c)| + |rest| > maxLength
    ensures var s := Drain(Session(EncodeCommand(c) + rest, [], Open), false, maxLength);
            s.delivered != [] && s.delivered[0].kind == TooLarge && MsgOf(c).kind != TooLarge
  {
    hide Drain, Decode, EncodeCommand, Firsts, GroupBy, Pairs;
    var b := EncodeCommand(c) + rest;
    assert b + [] == EncodeCommand(c) + rest;
    DecodeLies(b, [], c, rest, maxLength);
    var s := Session(b, [], Open);
    DrainStep(s, false, maxLength);
    var d := Decode(b, maxLength);
    DeliveredGrows(Took(s, d.msg, d.size), false, maxLength);
  }

  lemma {:induction false} DeliveredGrows(s: Session, inPlace: bool, maxLength: nat)
    ensures s.delivered <= Drain(s, inPlace, maxLength).delivered
    decreases |s.pending|
  {
    hide Decode, Normal;
    var d := Decode(s.pending, maxLength);
    if d.Message? { DeliveredGrows(Took(s, d.msg, d.size), inPlace, maxLength); }
  }

  // ----- the request that crashes the proxy

  /** The first line is complete and is an array header whose count, read with 64-bit wrap-around, is below one. */
  predicate NilRequest(b: Bytes) {
    && ReadLine(b, 0).Ok? && ReadLine(b, 0).value[0] == '*'
    && var len := ParseLen(ReadLine(b, 0).value[1..]); len.Length? && len.n < 1
  }

  /** Decode returns neither a message nor an error exactly on such a request. */
  lemma NilExactly(b: Bytes, maxLength: nat)
    ensures Decode(b, maxLength).NoMessage? <==> NilRequest(b)
  {
    hide ReadLine, ParseLen, ParseArg, ParseArgs, Lowered, KindOf, MakeMsg, ToLower;
    if b == [] { NothingLine(); }
  }

  lemma NothingLine()
    ensures ReadLine([], 0).Err?
  {}

  /** Decoding b from its start, with the given limit, comes to position i behind messages none of which is a QUIT. */
  predicate Boundary(b: Bytes, i: nat, maxLength: nat)
    decreases |b|
  {
    i == 0 ||
    match Decode(b, maxLength)
    case Message(msg, size) => !msg.kind.Quit? && size <= i && Boundary(b[size..], i - size, maxLength)
    case _ => false
  }

  ghost predicate NilBehind(b: Bytes, i: nat, maxLength: nat) {
    i <= |b| && Boundary(b, i, maxLength) && NilRequest(b[i..])
  }

  /** A nil request stands at position i, behind complete requests of which none is a QUIT. */
  ghost predicate NilAt(b: Bytes, i: nat) { NilBehind(b, i, |b|) }

  /** A nil request stands at position i behind complete requests; under a limit of zero none is taken for a QUIT. */
  ghost predicate NilAnywhere(b: Bytes, i: nat) { NilBehind(b, i, 0) }

  lemma NilHere(b: Bytes, maxLength: nat)
    ensures NilBehind(b, 0, maxLength) <==> NilRequest(b)
  {
    hide NilRequest, Decode;
    assert b[0..] == b;
  }

  lemma NilLater(b: Bytes, i: nat, size: nat, msg: Msg, maxLength: nat)
    requires Decode(b, maxLength) == Message(msg, size) && size <= |b| && !msg.kind.Quit?
    ensures NilBehind(b[size..], i, maxLength) <==> NilBehind(b, size + i, maxLength)
  {
    hide NilRequest, Decode;
    if size + i <= |b| { assert b[size..][i..] == b[size + i..]; }
  }

  lemma NilNotFirst(b: Bytes, i: nat, maxLength: nat)
    requires NilBehind(b, i, maxLength)
    ensures var d := Decode(b, maxLength);
            if i > 0 then d.Message? && d.size <= i && !d.msg.kind.Quit? else d.NoMessage?
  {
    hide NilRequest, Decode;
    NilExactly(b, maxLength);
    assert b[0..] == b;
  }

  /** Decoding a whole stream crashes exactly if such a request stands in it. */
  lemma {:induction false} DrainCrashes(s: Session, maxLength: nat)
    requires s.ending.Open?
    ensures Drain(s, false, maxLength).ending.Crashed? <==> exists i :: NilBehind(s.pending, i, maxLength)
    decreases |s.pending|
  {
    hide Decode, Drain, NilBehind, NilRequest, Residue;
    var b := s.pending;
    var d := Decode(b, maxLength);
    DrainStep(s, false, maxLength);
    NilExactly(b, maxLength);
    NilHere(b, maxLength);
    forall i: nat | NilBehind(b, i, maxLength)
      ensures if i > 0 then d.Message? && d.size <= i && !d.msg.kind.Quit? else d.NoMessage?
    {
      NilNotFirst(b, i, maxLength);
    }
    if d.Message? && !d.msg.kind.Quit? {
      DrainCrashes(Took(s, d.msg, d.size), maxLength);
      var rest := b[d.size..];
      forall i: nat ensures NilBehind(rest, i, maxLength) <==> NilBehind(b, d.size + i, maxLength) {
        NilLater(b, i, d.size, d.msg, maxLength);
      }
      assert forall i: nat :: NilBehind(b, i, maxLength) ==> NilBehind(rest, i - d.size, maxLength);
    }
  }

  /** However a client's bytes are cut into reads, within the limit, they crash the proxy if and only if a request with
      a count below one stands at their start or behind complete requests of which none is a QUIT. */
  lemma CrashesExactly(events: seq<Read>, maxLength: nat)
    requires WithinLimit(START, events, maxLength)
    ensures ReceiveAll(START, events, maxLength).ending.Crashed? <==> exists i :: NilAt(Received(events), i)
  {
    hide ReceiveAll, Drain, NilBehind, Normal;
    var b := Received(events);
    ChunksDoNotMatter(events, maxLength);
    DrainCrashes(Session(b, [], Open), |b|);
    assert forall i: nat :: NilAt(b, i) <==> NilBehind(b, i, |b|);
  }

  // ----- beyond the limit

  /** Over the limit a message changes its kind to TooLarge, but it ends where it did. */
  lemma DecodeShape(b: Bytes, m: nat, n: nat)
    ensures var d, e := Decode(b, m), Decode(b, n);
            if d.Message? then e.Message? && e.size == d.size else e == d
    ensures |b| > m && Decode(b, m).Message? ==> Decode(b, m).msg.kind == TooLarge
  {
    hide Decode, NameRead, ReadLine, ParseLen, ParseArg, ParseArgs, KindOf, ToLower, Normal, Group, GroupPairs;
    if NameRead(b) {
      DecodeIsMade(b, m);
      DecodeIsMade(b, n);
    } else {
      DecodeBefore(b, m);
      DecodeBefore(b, n);
    }
  }

  /** A QUIT under one limit is a QUIT under another that the buffer does not exceed. */
  lemma QuitStays(b: Bytes, m: nat, n: nat)
    requires m == 0 || |b| <= n
    ensures var d := Decode(b, m); d.Message? && d.msg.kind.Quit? ==> Decode(b, n) == d
  {
    hide Decode;
    DecodeShape(b, m, n);
    NothingYet(m);
    if |b| <= m && |b| <= n { LimitIrrelevant(b, m, n); }
  }

  ghost predicate Alike(s: Session, t: Session) {
    s.pending == t.pending && s.ending == t.ending && |s.delivered| == |t.delivered|
  }

  /** Under the limit m fewer requests are taken for QUIT than under n; apart from that the limit does not matter. */
  lemma {:induction false} DrainUnlessQuit(s: Session, t: Session, inPlace: bool, m: nat, n: nat)
    requires Alike(s, t) && (m == 0 || |s.pending| <= n)
    ensures Drain(t, inPlace, n).ending.Closed? || Alike(Drain(s, inPlace, m), Drain(t, inPlace, n))
    decreases |s.pending|
  {
    hide Decode, Normal;
    DecodeShape(s.pending, m, n);
    QuitStays(s.pending, m, n);
    var d, e := Decode(s.pending, m), Decode(s.pending, n);
    if d.Message? && !e.msg.kind.Quit? {
      DrainUnlessQuit(Took(s, d.msg, d.size), Took(t, e.msg, e.size), inPlace, m, n);
    }
  }

  lemma {:induction false} ReceiveUnlessQuit(s: Session, t: Session, events: seq<Read>, m: nat, n: nat)
    requires Alike(s, t) && (m == 0 || |s.pending| + |Received(events)| <= n)
    ensures ReceiveAll(t, events, n).ending.Closed? || Alike(ReceiveAll(s, events, m), ReceiveAll(t, events, n))
    decreases |events|
  {
    hide Drain;
    if events != [] {
      var e, rest := events[0], events[1..];
      if s.ending.Open? {
        DrainUnlessQuit(Add(s, e.chunk), Add(t, e.chunk), e.inPlace, m, n);
        DrainShrinks(Add(s, e.chunk), e.inPlace, m);
      }
      var s1, t1 := Receive(s, e, m), Receive(t, e, n);
      if Alike(s1, t1) { ReceiveUnlessQuit(s1, t1, rest, m, n); } else { EndedStays(t1, rest, n); }
    }
  }

  lemma {:induction false} AlwaysWithin(s: Session, events: seq<Read>, maxLength: nat)
    requires |s.pending| + |Received(events)| <= maxLength
    ensures WithinLimit(s, events, maxLength)
    decreases |events|
  {
    hide Drain;
    if s.ending.Open? && events != [] {
      DrainShrinks(Add(s, events[0].chunk), events[0].inPlace, maxLength);
      AlwaysWithin(Receive(s, events[0], maxLength), events[1..], maxLength);
    }
  }

  /** Whatever the limit and the cuts, a nil request behind complete requests of which none is a QUIT crashes the proxy,
      and nothing but a nil request behind complete requests does. Between the two NilBehindQuit shows that the limit
      decides. */
  lemma CrashesAtAnyLimit(events: seq<Read>, maxLength: nat)
    ensures (exists i :: NilAt(Received(events), i)) ==> ReceiveAll(START, events, maxLength).ending.Crashed?
    ensures ReceiveAll(START, events, maxLength).ending.Crashed? ==> exists i :: NilAnywhere(Received(events), i)
  {
    hide ReceiveAll, Drain, NilBehind, NilAt, Normal;
    var b := Received(events);
    AlwaysWithin(START, events, |b|);
    CrashesExactly(events, |b|);
    ReceiveUnlessQuit(START, START, events, maxLength, |b|);
    ReceiveUnlessQuit(START, START, events, 0, maxLength);
    CrashesUnderZero(events);
  }

  /** Under a limit of zero no request is a QUIT. */
  lemma CrashesUnderZero(events: seq<Read>)
    ensures ReceiveAll(START, events, 0).ending.Crashed? <==> exists i :: NilAnywhere(Received(events), i)
  {
    hide ReceiveAll, Drain, NilBehind, Normal;
    var b := Received(events);
    StartIsDry(0);
    ReceiveAtOnce(START, events, 0, 0);
    assert [] + b == b;
    DrainCrashes(Session(b, [], Open), 0);
    assert forall i: nat :: NilAnywhere(b, i) <==> NilBehind(b, i, 0);
  }

  // ----- examples

  lemma NilExamples(maxLength: nat)
    ensures Decode("*0\r\n", maxLength).NoMessage? && Decode("*-1\r\n", maxLength).NoMessage?
    ensures ReceiveAll(START, [Read("*0\r\n", false)], maxLength).ending.Crashed?
  {
    hide Decode, Drain;
    var a: Bytes, b: Bytes := "*0\r\n", "*-1\r\n";
    assert FindLF(a, 0) == 3 && a[0..2] == "*0" && a[0..2][1..] == "0";
    assert FindLF(b, 0) == 4 && b[0..3] == "*-1" && b[0..3][1..] == "-1";
    ParseLenItoa(0);
    assert Itoa(0) == "0";
    NilExactly(a, maxLength);
    NilExactly(b, maxLength);
    OneRead(Read(a, false), maxLength);
    DrainStep(Session(a, [], Open), false, maxLength);
  }

  const QUIT: seq<Bytes> := ["quit"]
  const NIL: Bytes := "*0\r\n"

  lemma QuitBytes()
    ensures EncodeCommand(QUIT) + NIL == "*1\r\n$4\r\nquit\r\n*0\r\n"
  {
    assert Itoa(1) == "1" && Itoa(4) == "4";
    assert QUIT[1..] == [];
  }

  lemma QuitFacts()
    ensures Sendable(QUIT) && IsQuit(QUIT) && MsgOf(QUIT).kind.Quit?
  {
    var q: Bytes := "quit";
    assert ToLower(q) == q;
    QuitKind(QUIT);
  }

  /** Behind a QUIT a nil request does no harm when both come in a buffer within the limit, and crashes the proxy when
      they come in one that is over it, in which the QUIT is only a request that is too large. */
  lemma NilBehindQuit(maxLength: nat)
    ensures var s := ReceiveAll(START, [Read(EncodeCommand(QUIT) + NIL, false)], maxLength);
            if |EncodeCommand(QUIT) + NIL| <= maxLength then s.ending == Closed && s.delivered == [MsgOf(QUIT)]
            else s.ending == Crashed
  {
    hide Drain, Decode, EncodeCommand, MsgOf, ReceiveAll, MakeMsg, NilRequest;
    var e := EncodeCommand(QUIT);
    var b := e + NIL;
    QuitFacts();
    OneRead(Read(b, false), maxLength);
    assert b + [] == e + NIL && b[|e|..] == NIL;
    DecodeLies(b, [], QUIT, NIL, maxLength);
    MadeKinds(QUIT[1..], EncodeCommand(LowerName(QUIT)));
    var s := Session(b, [], Open);
    DrainStep(s, false, maxLength);
    if |b| <= maxLength {
      DecodeWithin(b, [], QUIT, NIL, maxLength);
    } else {
      var d := Decode(b, maxLength);
      NilExamples(maxLength);
      DrainStep(Took(s, d.msg, d.size), false, maxLength);
    }
  }

  /** When QUIT comes in a read of its own that is within the limit, nothing behind it matters. */
  lemma QuitAlone(rest: seq<Read>, maxLength: nat)
    requires |EncodeCommand(QUIT)| <= maxLength
    ensures var s := ReceiveAll(START, [Read(EncodeCommand(QUIT), false)] + rest, maxLength);
            s.ending == Closed && s.delivered == [MsgOf(QUIT)]
  {
    hide Drain, Decode, EncodeCommand, MsgOf;
    var e := EncodeCommand(QUIT);
    var events := [Read(e, false)] + rest;
    QuitFacts();
    assert events[1..] == rest && e + [] == e && [] + e == e;
    DecodeWithin(e, [], QUIT, [], maxLength);
    DrainStep(Session(e, [], Open), false, maxLength);
    assert Add(START, e) == Session(e, [], Open);
    EndedStays(Receive(START, events[0], maxLength), rest, maxLength);
  }

  lemma MadeKinds(args: seq<Bytes>, raw: Bytes)
    ensures MakeMsg(TooLarge, args, raw).kind == TooLarge
  {}
}
