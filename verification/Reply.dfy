/** The reply decoder of core/codec_s.go: readReply, over every RESP2 value of any nesting depth. */
module Reply {
  import opened Bytes

  datatype ReplyType =
    | RspStatus | RspOk | RspPong | RspInteger | RspBulk | RspMultibulk | RspUnknown
    | RspError | RspNeedAuth | RspNeedNtAuth | RspAuthFailed | RspMoved | RspAsk

  function StatusType(line: Bytes): ReplyType {
    if "+OK" <= line then RspOk else if "+PONG" <= line then RspPong else RspStatus
  }

  // What Redis says about authentication.

  predicate AuthMissing(line: Bytes) { "-NOAUTH Authentication required" <= line }

  predicate AuthRejected(line: Bytes) { "-ERR invalid password" <= line }

  predicate AuthUnset(line: Bytes) { "-ERR Client sent AUTH, " + "but no password is set" <= line }

  predicate AuthUnconfigured(line: Bytes) {
    "-ERR AUTH <password> called " + "without any password configured " + "for the default user." <= line
  }

  function ErrorType(line: Bytes): ReplyType {
    if AuthMissing(line) then RspNeedAuth
    else if AuthRejected(line) then RspAuthFailed
    else if AuthUnset(line) || AuthUnconfigured(line) then RspNeedNtAuth
    else if "-MOVED" <= line then RspMoved
    else if "-ASK" <= line then RspAsk
    else RspError
  }

  /** What follows the header line of a bulk string of length n. */
  function ReadBulk(b: Bytes, r: nat, n: nat): (o: Outcome<ReplyType>)
    requires r <= |b|
    ensures o.Ok? ==> r <= o.pos <= |b|
  {
    var data := ReadN(b, r, n);
    if data.Err? then Err(data.error)
    else
      var crlf := ReadN(b, data.pos, 2);
      if crlf.Err? then Err(crlf.error)
      else if crlf.value != CRLF then Err(InvalidResp)
      else Ok(RspBulk, crlf.pos)
  }

  /** One reply at r. Every successful read consumes at least three bytes, which bounds the recursion. */
  function ReadReply(b: Bytes, r: nat): (o: Outcome<ReplyType>)
    requires r <= |b|
    ensures o.Ok? ==> r + 3 <= o.pos <= |b|
    decreases |b| - r, 0
  {
    var line := ReadLine(b, r);
    if line.Err? then Err(line.error)
    else
      var head, rest := line.value[0], line.value[1..];
      if head == '+' then Ok(StatusType(line.value), line.pos)
      else if head == ':' then Ok(RspInteger, line.pos)
      else if head == '-' then Ok(ErrorType(line.value), line.pos)
      else if head == '$' then
        var len := ParseLen(rest);
        if len.BadLength? then Err(len.error)
        else if len.n < 0 then Ok(RspBulk, line.pos)
        else ReadBulk(b, line.pos, len.n)
      else if head == '*' then
        var len := ParseLen(rest);
        if len.BadLength? then Err(len.error)
        else if len.n < 0 then Ok(RspUnknown, line.pos)
        else ReadReplies(b, line.pos, len.n)
      else Err(InvalidResp)
  }

  function ReadReplies(b: Bytes, r: nat, n: nat): (o: Outcome<ReplyType>)
    requires r <= |b|
    ensures o.Ok? ==> r <= o.pos <= |b|
    decreases |b| - r, n + 1
  {
    if n == 0 then Ok(RspMultibulk, r)
    else
      var first := ReadReply(b, r);
      if first.Err? then first else ReadReplies(b, first.pos, n - 1)
  }

  /** readReply as the source writes it: recursion over a cursor that every call moves. */
  method ReadReplyAt(buf: Buffer) returns (o: Outcome<ReplyType>)
    requires buf.Valid()
    modifies buf`r
    ensures buf.Valid() && buf.r >= old(buf.r)
    ensures o == ReadReply(buf.buf, old(buf.r)) && (o.Ok? ==> buf.r == o.pos)
    decreases |buf.buf| - buf.r, 0
  {
    var line := buf.Line();
    if line.Err? { return Err(line.error); }
    var rest := line.value[1..];
    match line.value[0] {
      case '+' => return Ok(StatusType(line.value), buf.r);
      case ':' => return Ok(RspInteger, buf.r);
      case '-' => return Ok(ErrorType(line.value), buf.r);
      case '$' =>
        var len := ParseLenLoop(rest);
        if len.BadLength? { return Err(len.error); }
        if len.n < 0 { return Ok(RspBulk, buf.r); }
        o := ReadBulkAt(buf, len.n);
      case '*' =>
        var len := ParseLenLoop(rest);
        if len.BadLength? { return Err(len.error); }
        if len.n < 0 { return Ok(RspUnknown, buf.r); }
        o := ReadRepliesAt(buf, len.n);
      case _ => return Err(InvalidResp);
    }
  }

  method ReadBulkAt(buf: Buffer, n: nat) returns (o: Outcome<ReplyType>)
    requires buf.Valid()
    modifies buf`r
    ensures buf.Valid() && buf.r >= old(buf.r)
    ensures o == ReadBulk(buf.buf, old(buf.r), n) && (o.Ok? ==> buf.r == o.pos)
  {
    var data := buf.Next(n);
    if data.Err? { return Err(data.error); }
    var crlf := buf.Next(2);
    if crlf.Err? { return Err(crlf.error); }
    if crlf.value[0] != '\r' || crlf.value[1] != '\n' { return Err(InvalidResp); }
    assert crlf.value == CRLF;
    return Ok(RspBulk, buf.r);
  }

  method ReadRepliesAt(buf: Buffer, n: nat) returns (o: Outcome<ReplyType>)
    requires buf.Valid()
    modifies buf`r
    ensures buf.Valid() && buf.r >= old(buf.r)
    ensures o == ReadReplies(buf.buf, old(buf.r), n) && (o.Ok? ==> buf.r == o.pos)
    decreases |buf.buf| - buf.r, 1
  {
    var start := buf.r;
    var i := 0;
    while i < n
      invariant 0 <= i <= n && start <= buf.r <= |buf.buf|
      invariant ReadReplies(buf.buf, start, n) == ReadReplies(buf.buf, buf.r, n - i)
    {
      var item := ReadReplyAt(buf);
      if item.Err? { return Err(item.error); }
      i := i + 1;
    }
    return Ok(RspMultibulk, buf.r);
  }

  // ----- RESP2 values and their encoding

  datatype Value =
    | Status(line: Bytes)
    | Failure(line: Bytes)
    | Integer(line: Bytes)
    | Bulk(data: Bytes)
    | NullBulk
    | Array(items: seq<Value>)
    | NullArray

  /** Lines hold no line feed, and every length fits an int. */
  predicate WellFormed(v: Value) {
    match v
    case Status(line) => '\n' !in line
    case Failure(line) => '\n' !in line
    case Integer(line) => '\n' !in line
    case Bulk(data) => |data| <= MAX_INT
    case Array(items) => |items| <= MAX_INT && forall i :: 0 <= i < |items| ==> WellFormed(items[i])
    case _ => true
  }

  function Header(v: Value): Bytes {
    match v
    case Status(line) => "+" + line
    case Failure(line) => "-" + line
    case Integer(line) => ":" + line
    case Bulk(data) => "$" + Itoa(|data|)
    case NullBulk => "$-1"
    case Array(items) => "*" + Itoa(|items|)
    case NullArray => "*-1"
  }

  function Body(v: Value): Bytes
    decreases v, 0
  {
    match v
    case Bulk(data) => data + CRLF
    case Array(items) => EncodeAll(items)
    case _ => []
  }

  function Encode(v: Value): Bytes
    decreases v, 1
  {
    Header(v) + CRLF + Body(v)
  }

  function EncodeAll(vs: seq<Value>): Bytes
    decreases vs
  {
    if vs == [] then [] else Encode(vs[0]) + EncodeAll(vs[1..])
  }

  function TypeOf(v: Value): ReplyType {
    match v
    case Status(line) => StatusType(Header(v))
    case Failure(line) => ErrorType(Header(v))
    case Integer(line) => RspInteger
    case Bulk(data) => RspBulk
    case NullBulk => RspBulk
    case Array(items) => RspMultibulk
    case NullArray => RspUnknown
  }

  lemma HeaderIsLine(v: Value)
    requires WellFormed(v)
    ensures |Header(v)| > 0 && '\n' !in Header(v)
    ensures v.Bulk? ==> ParseLen(Header(v)[1..]) == Length(|v.data|)
    ensures v.Array? ==> ParseLen(Header(v)[1..]) == Length(|v.items|)
    ensures v.NullBulk? || v.NullArray? ==> ParseLen(Header(v)[1..]) == Length(-1)
  {
    match v {
      case Bulk(data) => ParseLenItoa(|data|); assert Header(v)[1..] == Itoa(|data|);
      case Array(items) => ParseLenItoa(|items|); assert Header(v)[1..] == Itoa(|items|);
      case NullBulk => assert Header(v)[1..] == "-1";
      case NullArray => assert Header(v)[1..] == "-1";
      case _ =>
    }
  }

  // ----- replies are self-delimiting

  lemma BulkLies(b: Bytes, r: nat, data: Bytes)
    requires Lies(b, r, data + CRLF)
    ensures ReadBulk(b, r, |data|) == Ok(RspBulk, r + |data| + 2)
  {
    LiesSplit(b, r, data, CRLF);
    ReadNLies(b, r, data);
    ReadNLies(b, r + |data|, CRLF);
  }

  /** What readReply does once it has the header line of v. */
  lemma HeaderLies(b: Bytes, r: nat, v: Value)
    requires WellFormed(v) && Lies(b, r, Header(v) + CRLF)
    ensures var pos := r + |Header(v)| + 2;
            ReadReply(b, r) == match v
                               case Bulk(data) => ReadBulk(b, pos, |data|)
                               case Array(items) => ReadReplies(b, pos, |items|)
                               case _ => Ok(TypeOf(v), pos)
  {
    HeaderIsLine(v);
    LineLies(b, r, Header(v));
  }

  lemma EncodingSplits(b: Bytes, r: nat, v: Value)
    ensures var h := Header(v) + CRLF;
            && |Encode(v)| == |h| + |Body(v)|
            && (Lies(b, r, Encode(v)) ==> Lies(b, r, h) && Lies(b, r + |h|, Body(v)))
            && (Cut(b, r, Encode(v)) ==> Cut(b, r, h) || (Lies(b, r, h) && Cut(b, r + |h|, Body(v))))
  {
    var h := Header(v) + CRLF;
    LiesSplit(b, r, h, Body(v));
    if Cut(b, r, Encode(v)) { CutSplit(b, r, h, Body(v)); }
  }

  /** Wherever an encoded value lies in a stream, readReply stops exactly at its end. */
  lemma {:induction false} ReplyLies(b: Bytes, r: nat, v: Value)
    requires WellFormed(v) && Lies(b, r, Encode(v))
    ensures ReadReply(b, r) == Ok(TypeOf(v), r + |Encode(v)|)
    decreases v, 1
  {
    hide ReadReply, Lies;
    var pos := r + |Header(v) + CRLF|;
    EncodingSplits(b, r, v);
    HeaderLies(b, r, v);
    match v {
      case Bulk(data) => BulkLies(b, pos, data);
      case Array(items) => RepliesLie(b, pos, items);
      case _ =>
    }
  }

  lemma {:induction false} RepliesLie(b: Bytes, r: nat, vs: seq<Value>)
    requires (forall i :: 0 <= i < |vs| ==> WellFormed(vs[i])) && Lies(b, r, EncodeAll(vs))
    ensures ReadReplies(b, r, |vs|) == Ok(RspMultibulk, r + |EncodeAll(vs)|)
    decreases vs, 0
  {
    hide ReadReply, Lies;
    if vs != [] {
      var first, rest := Encode(vs[0]), EncodeAll(vs[1..]);
      assert EncodeAll(vs) == first + rest;
      LiesSplit(b, r, first, rest);
      ReplyLies(b, r, vs[0]);
      RepliesLie(b, r + |first|, vs[1..]);
    }
  }

  lemma BulkCut(b: Bytes, r: nat, data: Bytes)
    requires Cut(b, r, data + CRLF)
    ensures ReadBulk(b, r, |data|).Err? && Waits(ReadBulk(b, r, |data|).error)
  {}

  lemma HeaderCut(b: Bytes, r: nat, v: Value)
    requires WellFormed(v) && Cut(b, r, Header(v) + CRLF)
    ensures ReadReply(b, r).Err? && Waits(ReadReply(b, r).error)
  {
    HeaderIsLine(v);
    LineCut(b, r, Header(v));
  }

  /** A stream that ends inside an encoded value makes the reader wait, never fail. */
  lemma {:induction false} ReplyCut(b: Bytes, r: nat, v: Value)
    requires WellFormed(v) && Cut(b, r, Encode(v))
    ensures ReadReply(b, r).Err? && Waits(ReadReply(b, r).error)
    decreases v, 1
  {
    hide ReadReply, Lies;
    var pos := r + |Header(v) + CRLF|;
    EncodingSplits(b, r, v);
    if Cut(b, r, Header(v) + CRLF) {
      HeaderCut(b, r, v);
    } else {
      HeaderLies(b, r, v);
      match v {
        case Bulk(data) => BulkCut(b, pos, data);
        case Array(items) => RepliesCut(b, pos, items);
        case _ =>
      }
    }
  }

  lemma NotEmpty(b: Bytes, r: nat, s: Bytes)
    requires Cut(b, r, s)
    ensures s != []
  {}

  lemma {:induction false} RepliesCut(b: Bytes, r: nat, vs: seq<Value>)
    requires (forall i :: 0 <= i < |vs| ==> WellFormed(vs[i])) && Cut(b, r, EncodeAll(vs))
    ensures ReadReplies(b, r, |vs|).Err? && Waits(ReadReplies(b, r, |vs|).error)
    decreases vs, 0
  {
    hide ReadReply, Lies, Cut, Encode, WellFormed;
    NotEmpty(b, r, EncodeAll(vs));
    var first, rest := Encode(vs[0]), EncodeAll(vs[1..]);
    assert EncodeAll(vs) == first + rest;
    CutSplit(b, r, first, rest);
    if Cut(b, r, first) {
      ReplyCut(b, r, vs[0]);
    } else {
      ReplyLies(b, r, vs[0]);
      RepliesCut(b, r + |first|, vs[1..]);
    }
  }

  // ----- the texts that decide the type of a line

  /** b starts with the line, which ends at a CR. */
  ghost predicate OnLine(b: Bytes, line: Bytes) { line <= b && |line| < |b| && b[|line|] == '\r' }

  lemma StartsInLine(text: string, b: Bytes, line: Bytes)
    requires '\r' !in text && OnLine(b, line)
    ensures text <= b <==> text <= line
  {
    if text <= b {
      assert |line| < |text| ==> '\r' in text;
    }
  }

  lemma AuthOnLine(b: Bytes, h: Bytes)
    requires OnLine(b, h)
    ensures AuthMissing(b) <==> AuthMissing(h)
    ensures AuthRejected(b) <==> AuthRejected(h)
  {
    StartsInLine("-NOAUTH Authentication required", b, h);
    StartsInLine("-ERR invalid password", b, h);
  }

  lemma AuthUnsetOnLine(b: Bytes, h: Bytes)
    requires OnLine(b, h)
    ensures AuthUnset(b) <==> AuthUnset(h)
  {
    var x, y := "-ERR Client sent AUTH, ", "but no password is set";
    assert '\r' !in x && '\r' !in y;
    StartsInLine(x + y, b, h);
  }

  lemma AuthUnconfiguredOnLine(b: Bytes, h: Bytes)
    requires OnLine(b, h)
    ensures AuthUnconfigured(b) <==> AuthUnconfigured(h)
  {
    var x, y, z := "-ERR AUTH <password> called ", "without any password configured ", "for the default user.";
    assert '\r' !in x && '\r' !in y && '\r' !in z;
    StartsInLine(x + y + z, b, h);
  }

  lemma SecondByte(h: Bytes)
    ensures AuthMissing(h) ==> |h| > 5 && h[0] == '-' && h[1] == 'N'
    ensures AuthRejected(h) ==> |h| > 5 && h[0] == '-' && h[1] == 'E' && h[5] == 'i'
  {}

  lemma FifthByte(h: Bytes)
    ensures AuthUnset(h) ==> |h| > 5 && h[0] == '-' && h[1] == 'E' && h[5] == 'C'
    ensures AuthUnconfigured(h) ==> |h| > 5 && h[0] == '-' && h[1] == 'E' && h[5] == 'A'
  {
    var x, y := "-ERR Client sent AUTH, ", "but no password is set";
    assert (x + y)[0] == x[0] && (x + y)[1] == x[1] && (x + y)[5] == x[5];
    UnconfiguredByte(h);
  }

  lemma UnconfiguredByte(h: Bytes)
    ensures AuthUnconfigured(h) ==> |h| > 5 && h[0] == '-' && h[1] == 'E' && h[5] == 'A'
  {
    var x, y, z := "-ERR AUTH <password> called ", "without any password configured ", "for the default user.";
    assert (x + y + z)[0] == x[0] && (x + y + z)[1] == x[1] && (x + y + z)[5] == x[5];
  }

  /** The texts exclude each other. */
  lemma ErrorTypes(h: Bytes)
    ensures ErrorType(h).RspMoved? <==> "-MOVED" <= h
    ensures ErrorType(h).RspAsk? <==> "-ASK" <= h
    ensures ErrorType(h).RspNeedAuth? <==> AuthMissing(h)
    ensures ErrorType(h).RspAuthFailed? <==> AuthRejected(h)
    ensures ErrorType(h).RspNeedNtAuth? <==> AuthUnset(h) || AuthUnconfigured(h)
    ensures ErrorType(h) in {RspNeedAuth, RspAuthFailed, RspNeedNtAuth, RspMoved, RspAsk, RspError}
  {
    hide AuthMissing, AuthRejected, AuthUnset, AuthUnconfigured;
    SecondByte(h);
    FifthByte(h);
    assert "-MOVED" <= h ==> h[1] == 'M';
    assert "-ASK" <= h ==> h[1] == 'A';
  }

  lemma StatusTypes(h: Bytes)
    ensures StatusType(h).RspOk? <==> "+OK" <= h
    ensures StatusType(h).RspPong? <==> "+PONG" <= h
    ensures StatusType(h) in {RspOk, RspPong, RspStatus}
  {
    assert "+OK" <= h ==> h[1] == 'O';
    assert "+PONG" <= h ==> h[1] == 'P';
  }

  lemma {:induction false} ArrayType(b: Bytes, r: nat, n: nat)
    requires r <= |b| && ReadReplies(b, r, n).Ok?
    ensures ReadReplies(b, r, n).value == RspMultibulk
    decreases n
  {
    hide ReadReply;
    if n > 0 { ArrayType(b, ReadReply(b, r).pos, n - 1); }
  }

  /** The first line of an accepted reply, and what it makes of the type. */
  lemma FirstLine(b: Bytes) returns (h: Bytes)
    requires ReadReply(b, 0).Ok?
    ensures h != [] && OnLine(b, h) && h[0] == b[0]
    ensures var t := ReadReply(b, 0).value;
            if h[0] == '+' then t == StatusType(h)
            else if h[0] == '-' then t == ErrorType(h)
            else t in {RspInteger, RspBulk, RspMultibulk, RspUnknown}
  {
    hide StatusType, ErrorType, ReadReplies;
    var line := ReadLine(b, 0);
    h := line.value;
    assert h == b[0..|h|] && b[|h|] == '\r';
    var len := ParseLen(h[1..]);
    if h[0] == '*' && len.Length? && len.n >= 0 { ArrayType(b, line.pos, len.n); }
  }

  /** Whatever the bytes of an accepted reply: it is a redirect exactly if it starts with the word for one, and OK or
      PONG exactly if it says so. */
  lemma ReplyWords(b: Bytes)
    requires ReadReply(b, 0).Ok?
    ensures var t := ReadReply(b, 0).value;
            && (t.RspMoved? <==> "-MOVED" <= b) && (t.RspAsk? <==> "-ASK" <= b)
            && (t.RspOk? <==> "+OK" <= b) && (t.RspPong? <==> "+PONG" <= b)
  {
    hide ReadReply, ErrorType, StatusType, AuthMissing, AuthRejected, AuthUnset, AuthUnconfigured;
    var h := FirstLine(b);
    ErrorTypes(h);
    StatusTypes(h);
    StartsInLine("-MOVED", b, h);
    StartsInLine("-ASK", b, h);
    StartsInLine("+OK", b, h);
    StartsInLine("+PONG", b, h);
  }

  lemma AuthStarts(h: Bytes)
    ensures AuthMissing(h) || AuthRejected(h) || AuthUnset(h) || AuthUnconfigured(h) ==> h != [] && h[0] == '-'
  {
    hide AuthMissing, AuthRejected, AuthUnset, AuthUnconfigured;
    SecondByte(h);
    FifthByte(h);
  }

  lemma AuthTypes(b: Bytes)
    requires ReadReply(b, 0).Ok?
    ensures var t := ReadReply(b, 0).value;
            && (t.RspNeedAuth? <==> AuthMissing(b)) && (t.RspAuthFailed? <==> AuthRejected(b))
            && (t.RspNeedNtAuth? <==> AuthUnset(b) || AuthUnconfigured(b))
  {
    hide ReadReply, ErrorType, StatusType, AuthMissing, AuthRejected, AuthUnset, AuthUnconfigured;
    var h := FirstLine(b);
    ErrorTypes(h);
    StatusTypes(h);
    AuthStarts(b);
    AuthOnLine(b, h);
    AuthUnsetOnLine(b, h);
    AuthUnconfiguredOnLine(b, h);
  }

  /** And each of the three errors about authentication has its texts. */
  lemma AuthTexts(b: Bytes)
    requires ReadReply(b, 0).Ok?
    ensures var t := ReadReply(b, 0).value;
            && (t.RspNeedAuth? <==> "-NOAUTH Authentication required" <= b)
            && (t.RspAuthFailed? <==> "-ERR invalid password" <= b)
            && (t.RspNeedNtAuth? <==>
                  || "-ERR Client sent AUTH, " + "but no password is set" <= b
                  || "-ERR AUTH <password> called " + "without any password configured " + "for the default user." <= b)
  {
    hide ReadReply;
    AuthTypes(b);
  }

  /** Any other line that starts with a minus is an error, and with a plus a status. */
  lemma PlainLines(b: Bytes)
    requires ReadReply(b, 0).Ok?
    ensures b != []
    ensures b[0] == '-' ==>
              ReadReply(b, 0).value in {RspNeedAuth, RspAuthFailed, RspNeedNtAuth, RspMoved, RspAsk, RspError}
    ensures b[0] == '+' ==> ReadReply(b, 0).value in {RspOk, RspPong, RspStatus}
  {
    hide ReadReply, ErrorType, StatusType;
    var h := FirstLine(b);
    ErrorTypes(h);
    StatusTypes(h);
  }

  /** Such lines are accepted, whatever they say. */
  lemma LinesAccepted(line: Bytes)
    requires '\n' !in line && line != [] && (line[0] == '-' || line[0] == '+')
    ensures var o := ReadReply(line + CRLF, 0); o.Ok? && o.pos == |line| + 2
  {
    hide ReadReply, Lies;
    var v := if line[0] == '-' then Failure(line[1..]) else Status(line[1..]);
    assert Header(v) == line;
    LiesIsSlice(line + CRLF, 0, line + CRLF);
    assert (line + CRLF)[0..|line + CRLF|] == line + CRLF;
    HeaderLies(line + CRLF, 0, v);
  }

  // ----- more input never changes a decision

  /** On arbitrary bytes: once readReply accepts or rejects, later bytes cannot change the outcome. */
  lemma {:induction false} ReplyStable(b: Bytes, x: Bytes, r: nat)
    requires r <= |b|
    ensures var o := ReadReply(b, r); o.Ok? || !Waits(o.error) ==> ReadReply(b + x, r) == o
    decreases |b| - r, 0
  {
    LineStable(b, x, r);
    var line := ReadLine(b, r);
    if line.Ok? {
      var len := ParseLen(line.value[1..]);
      if line.value[0] == '$' && len.Length? && len.n >= 0 {
        ReadNStable(b, x, line.pos, len.n);
        if ReadN(b, line.pos, len.n).Ok? { ReadNStable(b, x, line.pos + len.n, 2); }
      }
      if line.value[0] == '*' && len.Length? && len.n >= 0 { RepliesStable(b, x, line.pos, len.n); }
    }
  }

  lemma {:induction false} RepliesStable(b: Bytes, x: Bytes, r: nat, n: nat)
    requires r <= |b|
    ensures var o := ReadReplies(b, r, n); o.Ok? || !Waits(o.error) ==> ReadReplies(b + x, r, n) == o
    decreases |b| - r, n + 1
  {
    if n > 0 {
      ReplyStable(b, x, r);
      if ReadReply(b, r).Ok? { RepliesStable(b, x, ReadReply(b, r).pos, n - 1); }
    }
  }
}
