/** What the client decoder of core/codec_c.go:36-114 makes of an encoded request, complete or cut short. */
module CommandStream {
  import opened Bytes
  import opened Command

  /** A request that a client can send: a name and arguments whose lengths fit an int. */
  ghost predicate Sendable(c: seq<Bytes>) {
    1 <= |c| <= MAX_INT && forall i :: 0 <= i < |c| ==> |c[i]| <= MAX_INT
  }

  // ----- one argument

  function ArgHeader(a: Bytes): Bytes { "$" + Itoa(|a|) }

  lemma ArgHeaderIsLine(a: Bytes)
    requires |a| <= MAX_INT
    ensures ArgHeader(a) != [] && '\n' !in ArgHeader(a) && ArgHeader(a)[0] == '$'
    ensures ParseLen(ArgHeader(a)[1..]) == Length(|a|)
  {
    ParseLenItoa(|a|);
    assert ArgHeader(a)[1..] == Itoa(|a|);
  }

  lemma ArgLies(b: Bytes, r: nat, a: Bytes)
    requires |a| <= MAX_INT && Lies(b, r, EncodeArg(a))
    ensures ParseArg(b, r) == Ok(a, r + |EncodeArg(a)|)
  {
    hide Lies, ReadLine, ParseLen, Itoa;
    var h := ArgHeader(a) + CRLF;
    LiesSplit(b, r, h + a, CRLF);
    LiesSplit(b, r, h, a);
    ArgHeaderIsLine(a);
    LineLies(b, r, ArgHeader(a));
    LiesBound(b, r + |h|, a);
    LiesBound(b, r + |h| + |a|, CRLF);
    ReadNLies(b, r + |h|, a);
    ReadNLies(b, r + |h| + |a|, CRLF);
  }

  lemma LiesBound(b: Bytes, r: nat, s: Bytes)
    requires Lies(b, r, s)
    ensures r + |s| <= |b|
  {}

  lemma ArgCut(b: Bytes, r: nat, a: Bytes)
    requires |a| <= MAX_INT && Cut(b, r, EncodeArg(a))
    ensures ParseArg(b, r).Err? && Waits(ParseArg(b, r).error)
  {
    hide Lies, ReadLine, ParseLen, Itoa;
    var h := ArgHeader(a) + CRLF;
    assert EncodeArg(a) == h + (a + CRLF);
    CutSplit(b, r, h, a + CRLF);
    ArgHeaderIsLine(a);
    if Cut(b, r, h) {
      LineCut(b, r, ArgHeader(a));
    } else {
      LineLies(b, r, ArgHeader(a));
    }
  }

  // ----- argument lists

  lemma {:induction false} ArgsLie(b: Bytes, r: nat, args: seq<Bytes>)
    requires (forall i :: 0 <= i < |args| ==> |args[i]| <= MAX_INT) && Lies(b, r, EncodeArgs(args))
    ensures r <= |b| && ParseArgs(b, r, |args|) == Ok(args, r + |EncodeArgs(args)|)
  {
    hide Lies, ParseArg, EncodeArg;
    LiesBound(b, r, EncodeArgs(args));
    if args != [] {
      var init, last := args[..|args| - 1], args[|args| - 1];
      LiesSplit(b, r, EncodeArgs(init), EncodeArg(last));
      ArgsLie(b, r, init);
      ArgLies(b, r + |EncodeArgs(init)|, last);
      assert init + [last] == args;
    }
  }

  lemma {:induction false} ArgsCut(b: Bytes, r: nat, args: seq<Bytes>)
    requires (forall i :: 0 <= i < |args| ==> |args[i]| <= MAX_INT) && Cut(b, r, EncodeArgs(args))
    ensures ParseArgs(b, r, |args|).Err? && Waits(ParseArgs(b, r, |args|).error)
  {
    hide Lies, ParseArg, EncodeArg;
    assert args != [];
    var init, last := args[..|args| - 1], args[|args| - 1];
    CutSplit(b, r, EncodeArgs(init), EncodeArg(last));
    if Cut(b, r, EncodeArgs(init)) {
      ArgsCut(b, r, init);
    } else {
      ArgsLie(b, r, init);
      ArgCut(b, r + |EncodeArgs(init)|, last);
    }
  }

  lemma {:induction false} EncodeArgsFront(args: seq<Bytes>)
    requires args != []
    ensures EncodeArgs(args) == EncodeArg(args[0]) + EncodeArgs(args[1..])
  {
    hide EncodeArg;
    var init, last := args[..|args| - 1], args[|args| - 1];
    if |args| > 1 {
      EncodeArgsFront(init);
      assert init[1..] == args[1..][..|args| - 2];
      assert EncodeArgs(args[1..]) == EncodeArgs(init[1..]) + EncodeArg(last);
    } else {
      assert init == [] && args[1..] == [];
    }
  }

  // ----- one request

  function Header(c: seq<Bytes>): Bytes { "*" + Itoa(|c|) }

  function LowerName(c: seq<Bytes>): seq<Bytes>
    requires c != []
  {
    [ToLower(c[0])] + c[1..]
  }

  /** The message that a request stands for, whatever the case of its name. */
  function MsgOf(c: seq<Bytes>): Msg
    requires c != []
  {
    MakeMsg(KindOf(ToLower(c[0]), |c| - 1), c[1..], EncodeCommand(LowerName(c)))
  }

  /** A request is its name between the bytes before and the bytes after it. */
  function BeforeName(c: seq<Bytes>): Bytes
    requires c != []
  {
    Header(c) + CRLF + (ArgHeader(c[0]) + CRLF)
  }

  function AfterName(c: seq<Bytes>): Bytes
    requires c != []
  {
    CRLF + EncodeArgs(c[1..])
  }

  lemma CommandParts(c: seq<Bytes>)
    requires c != []
    ensures EncodeCommand(c) == Header(c) + CRLF + EncodeArg(c[0]) + EncodeArgs(c[1..])
    ensures EncodeCommand(c) == BeforeName(c) + c[0] + AfterName(c)
    ensures EncodeCommand(LowerName(c)) == BeforeName(c) + ToLower(c[0]) + AfterName(c)
    ensures |EncodeCommand(LowerName(c))| == |EncodeCommand(c)|
  {
    EncodeArgsFront(c);
    EncodeArgsFront(LowerName(c));
    LowerParts(c);
    NameParts(c, EncodeArgs(c[1..]));
  }

  lemma NameParts(c: seq<Bytes>, rest: Bytes)
    requires c != []
    ensures Header(c) + CRLF + (EncodeArg(c[0]) + rest) == BeforeName(c) + c[0] + (CRLF + rest)
    ensures Header(c) + CRLF + (EncodeArg(c[0]) + rest) == Header(c) + CRLF + EncodeArg(c[0]) + rest
  {
    hide Itoa;
  }

  lemma LowerParts(c: seq<Bytes>)
    requires c != []
    ensures var l := LowerName(c); l[1..] == c[1..] && Header(l) == Header(c) && BeforeName(l) == BeforeName(c)
    ensures Header(c) + CRLF + (EncodeArg(ToLower(c[0])) + EncodeArgs(c[1..]))
         == BeforeName(c) + ToLower(c[0]) + AfterName(c)
  {
    hide Itoa, EncodeArgs;
    assert LowerName(c)[1..] == c[1..];
    NameParts(LowerName(c), EncodeArgs(c[1..]));
  }

  /** What Decode does once it has the first line of request c. */
  lemma HeaderLies(b: Bytes, c: seq<Bytes>)
    requires Sendable(c) && Lies(b, 0, Header(c) + CRLF)
    ensures |b| > 0 && ReadLine(b, 0) == Ok(Header(c), |Header(c)| + 2)
    ensures Header(c)[0] == '*' && ParseLen(Header(c)[1..]) == Length(|c|)
  {
    hide Lies, ReadLine, ParseLen, Itoa;
    LiesBound(b, 0, Header(c) + CRLF);
    ParseLenItoa(|c|);
    assert Header(c)[1..] == Itoa(|c|);
    LineLies(b, 0, Header(c));
  }

  /** Changing the name in place. */
  lemma LoweredSplice(x: Bytes, name: Bytes, y: Bytes)
    requires |y| >= 2
    ensures Lowered(x + name + y, Ok(name, |x| + |name| + 2)) == x + ToLower(name) + y
  {
    hide ToLower;
    var b := x + name + y;
    assert |b| == |x| + |name| + |y|;
    if name == [] {
      assert ToLower(name) == name;
    } else {
      assert b[..|x|] == x;
      assert b[|x| + |name|..] == y;
    }
  }

  lemma CutTail(b: Bytes, f: Bytes, s: Bytes, t: Bytes)
    requires b + f == s + t && |b| >= |s|
    ensures b == s + b[|s|..] && b[|s|..] + f == t
  {
    assert b == (b + f)[..|b|];
    assert b[..|s|] == (b + f)[..|s|] == (s + t)[..|s|] == s;
    assert b[|s|..] + f == (b + f)[|s|..] == (s + t)[|s|..] == t;
  }

  /** The buffer after its name has been changed in place continues to the request with that name. */
  lemma LoweredContinues(b: Bytes, f: Bytes, c: seq<Bytes>, t: Bytes)
    requires c != [] && b + f == EncodeCommand(c) + t && |b| >= |BeforeName(c)| + |c[0]| + 2
    ensures Lowered(b, Ok(c[0], |BeforeName(c)| + |c[0]| + 2)) + f == EncodeCommand(LowerName(c)) + t
  {
    hide EncodeCommand, BeforeName, AfterName, Lowered;
    CommandParts(c);
    var x, y := BeforeName(c), AfterName(c);
    assert b + f == x + c[0] + (y + t);
    CutTail(b, f, x + c[0], y + t);
    LoweredSplice(x, c[0], b[|x| + |c[0]|..]);
    var l, b' := x + ToLower(c[0]), b[|x| + |c[0]|..];
    assert (l + b') + f == l + (b' + f) && l + (y + t) == (l + y) + t;
  }

  /** A request that lies at the start of the buffer is decoded, and exactly its bytes are consumed. */
  lemma DecodeLies(b: Bytes, f: Bytes, c: seq<Bytes>, t: Bytes, maxLength: nat)
    requires Sendable(c) && b + f == EncodeCommand(c) + t && |EncodeCommand(c)| <= |b|
    ensures var kind := if |b| > maxLength then TooLarge else KindOf(ToLower(c[0]), |c| - 1);
            Decode(b, maxLength) == Message(MakeMsg(kind, c[1..], EncodeCommand(LowerName(c))), |EncodeCommand(c)|)
  {
    hide Lies, ReadLine, ParseLen, ParseArg, ParseArgs, EncodeCommand, EncodeArg, EncodeArgs, KindOf, MakeMsg,
      Lowered, Header;
    var e := EncodeCommand(c);
    CommandParts(c);
    CutTail(b, f, e, t);
    LiesIsSlice(b, 0, e);
    LiesSplit(b, 0, Header(c) + CRLF + EncodeArg(c[0]), EncodeArgs(c[1..]));
    LiesSplit(b, 0, Header(c) + CRLF, EncodeArg(c[0]));
    HeaderLies(b, c);
    ArgLies(b, |Header(c)| + 2, c[0]);
    ArgsLie(b, |Header(c)| + 2 + |EncodeArg(c[0])|, c[1..]);
    NameEnds(c);
    LoweredContinues(b, f, c, t);
    var low := Lowered(b, Ok(c[0], |Header(c)| + 2 + |EncodeArg(c[0])|));
    assert low[..|e|] == (low + f)[..|e|] == EncodeCommand(LowerName(c));
  }

  lemma DecodeWithin(b: Bytes, f: Bytes, c: seq<Bytes>, t: Bytes, maxLength: nat)
    requires Sendable(c) && b + f == EncodeCommand(c) + t && |EncodeCommand(c)| <= |b| <= maxLength
    ensures Decode(b, maxLength) == Message(MsgOf(c), |EncodeCommand(c)|)
  {
    hide Decode, EncodeCommand, MakeMsg, KindOf;
    DecodeLies(b, f, c, t, maxLength);
  }

  lemma NameEnds(c: seq<Bytes>)
    requires c != []
    ensures |BeforeName(c)| + |c[0]| + 2 == |Header(c)| + 2 + |EncodeArg(c[0])|
  {}

  /** A buffer that ends inside a request makes the connection wait, and nothing is consumed. */
  lemma DecodeCut(b: Bytes, c: seq<Bytes>, maxLength: nat)
    requires Sendable(c) && Cut(b, 0, EncodeCommand(c))
    ensures WaitsForMore(Decode(b, maxLength))
  {
    hide Lies, Cut, ReadLine, ParseLen, ParseArg, ParseArgs, EncodeCommand, EncodeArg, EncodeArgs, KindOf, MakeMsg,
      Lowered, Header;
    var h, a, rest := Header(c) + CRLF, EncodeArg(c[0]), EncodeArgs(c[1..]);
    CommandParts(c);
    CutSplit(b, 0, h + a, rest);
    if Cut(b, 0, h + a) {
      CutSplit(b, 0, h, a);
      if Cut(b, 0, h) {
        HeaderCut(b, c);
      } else {
        HeaderLies(b, c);
        ArgCut(b, |h|, c[0]);
      }
    } else {
      LiesSplit(b, 0, h, a);
      HeaderLies(b, c);
      ArgLies(b, |h|, c[0]);
      ArgsCut(b, |h| + |a|, c[1..]);
    }
  }

  lemma HeaderCut(b: Bytes, c: seq<Bytes>)
    requires Cut(b, 0, Header(c) + CRLF)
    ensures b == [] || (ReadLine(b, 0).Err? && Waits(ReadLine(b, 0).error))
  {
    if b != [] { LineCut(b, 0, Header(c)); }
  }
}
