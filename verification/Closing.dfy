/** When the proxy hangs up on a client, and when it only waits: core/eventloop.go:147-185. */
module Closing {
  import opened Bytes
  import opened Command
  import opened ClientSession

  /** The bytes begin with a QUIT or with something that no request can be. */
  predicate Shuts(b: Bytes, maxLength: nat) {
    match Decode(b, maxLength)
    case Message(msg, _) => msg.kind.Quit?
    case Stopped(error) => error.InvalidResp?
    case _ => false
  }

  ghost predicate ShutsBehind(b: Bytes, i: nat, maxLength: nat) {
    i <= |b| && Boundary(b, i, maxLength) && Shuts(b[i..], maxLength)
  }

  lemma ShutsHere(b: Bytes, maxLength: nat)
    ensures ShutsBehind(b, 0, maxLength) <==> Shuts(b, maxLength)
  {
    hide Decode, Shuts;
    assert b[0..] == b;
  }

  lemma ShutsLater(b: Bytes, i: nat, size: nat, msg: Msg, maxLength: nat)
    requires Decode(b, maxLength) == Message(msg, size) && size <= |b| && !msg.kind.Quit?
    ensures ShutsBehind(b[size..], i, maxLength) <==> ShutsBehind(b, size + i, maxLength)
  {
    hide Shuts, Decode;
    if size + i <= |b| { assert b[size..][i..] == b[size + i..]; }
  }

  lemma ShutsNotFirst(b: Bytes, i: nat, maxLength: nat)
    requires ShutsBehind(b, i, maxLength) && i > 0
    ensures var d := Decode(b, maxLength); d.Message? && d.size <= i && !d.msg.kind.Quit?
  {
    hide Shuts, Decode;
  }

  /** Decoding a whole buffer closes the connection exactly if there is such a place in it. */
  lemma {:induction false} DrainCloses(s: Session, maxLength: nat)
    requires s.ending.Open?
    ensures Drain(s, false, maxLength).ending.Closed? <==> exists i :: ShutsBehind(s.pending, i, maxLength)
    decreases |s.pending|
  {
    hide Decode, Drain, ShutsBehind, Residue;
    var b := s.pending;
    var d := Decode(b, maxLength);
    DrainStep(s, false, maxLength);
    ShutsHere(b, maxLength);
    forall i: nat | ShutsBehind(b, i, maxLength) && i > 0
      ensures d.Message? && d.size <= i && !d.msg.kind.Quit?
    {
      ShutsNotFirst(b, i, maxLength);
    }
    if d.Message? && !d.msg.kind.Quit? {
      DrainCloses(Took(s, d.msg, d.size), maxLength);
      var rest := b[d.size..];
      forall i: nat ensures ShutsBehind(rest, i, maxLength) <==> ShutsBehind(b, d.size + i, maxLength) {
        ShutsLater(b, i, d.size, d.msg, maxLength);
      }
      assert forall i: nat :: ShutsBehind(b, i, maxLength) && i > 0 ==> ShutsBehind(rest, i - d.size, maxLength);
    }
  }

  /** However a client's bytes are cut into reads, within the limit, the proxy hangs up if and only if a QUIT or
      something that is no request stands at their start or behind complete requests of which none is a QUIT. */
  lemma ClosesExactly(events: seq<Read>, maxLength: nat)
    requires WithinLimit(START, events, maxLength)
    ensures ReceiveAll(START, events, maxLength).ending.Closed? <==>
            exists i :: ShutsBehind(Received(events), i, |Received(events)|)
  {
    hide ReceiveAll, Drain, ShutsBehind, Normal;
    ChunksDoNotMatter(events, maxLength);
    DrainCloses(Session(Received(events), [], Open), |Received(events)|);
  }

  // ----- two inputs

  lemma FirstLine(line: Bytes, rest: Bytes)
    requires line != [] && '\n' !in line
    ensures ReadLine(line + CRLF + rest, 0) == Ok(line, |line| + 2)
  {
    hide ReadLine;
    var b := line + CRLF + rest;
    assert b[0..|line + CRLF|] == line + CRLF;
    LiesIsSlice(b, 0, line + CRLF);
    LineLies(b, 0, line);
  }

  /** A line that does not start an array closes the connection at once, whatever comes behind it. */
  lemma InlineCloses(line: Bytes, rest: Bytes, maxLength: nat)
    requires line != [] && '\n' !in line && line[0] != '*'
    ensures var s := ReceiveAll(START, [Read(line + CRLF + rest, false)], maxLength);
            s.ending == Closed && s.delivered == []
  {
    hide Drain, ReceiveAll, ReadLine;
    var b := line + CRLF + rest;
    FirstLine(line, rest);
    OneRead(Read(b, false), maxLength);
    DrainStep(Session(b, [], Open), false, maxLength);
  }

  /** An array header without a count makes the connection wait for ever: nothing behind it is delivered, and the proxy
      does not hang up either. */
  lemma EmptyCountStalls(events: seq<Read>, rest: Bytes, maxLength: nat)
    requires WithinLimit(START, events, maxLength) && Received(events) == "*\r\n" + rest
    ensures var s := ReceiveAll(START, events, maxLength); s.ending == Open && s.delivered == []
  {
    hide Drain, ReceiveAll, ReadLine, Normal;
    var b := Received(events);
    var star: Bytes := "*";
    assert star + CRLF + rest == b;
    FirstLine(star, rest);
    assert star[1..] == [];
    ChunksDoNotMatter(events, maxLength);
    DrainStep(Session(b, [], Open), false, |b|);
  }
}
