/** Byte strings, decimal numbers and the read cursor of core/codec/buff.go and core/codec.go. */
module Bytes {

  type Byte = c: char | c as int < 256 witness ' '
  type Bytes = seq<Byte>

  const CRLF: Bytes := "\r\n"
  const MAX_INT: int := 0x7fff_ffff_ffff_ffff

  datatype Error = EmptyLine | ShortLine | LFNotFound | InvalidResp | BadLine | MalformedLength

  datatype Option<+T> = None | Some(value: T)

  /** A value together with the cursor after it, or the error that stopped the parse. */
  datatype Outcome<+T> = Ok(value: T, pos: nat) | Err(error: Error)

  /** The errors after which a reader waits for more bytes. */
  predicate Waits(e: Error) {
    e.EmptyLine? || e.ShortLine? || e.LFNotFound?
  }

  // ----- decimal numbers

  /** Two's complement wrap-around of a 64-bit int. */
  function Wrap64(x: int): (w: int)
    ensures -MAX_INT - 1 <= w <= MAX_INT
    ensures -MAX_INT - 1 <= x <= MAX_INT ==> w == x
  {
    var m := x % 0x1_0000_0000_0000_0000;
    if m > MAX_INT then m - 0x1_0000_0000_0000_0000 else m
  }

  predicate IsDigit(c: Byte) { '0' <= c <= '9' }

  function Digit(d: nat): (c: Byte)
    requires d < 10
    ensures IsDigit(c) && c as int - '0' as int == d
  {
    ('0' as int + d) as char
  }

  /** strconv.Itoa for the lengths and counts that the proxy writes. */
  function Itoa(n: nat): (r: Bytes)
    ensures |r| > 0 && forall c :: c in r ==> IsDigit(c)
  {
    if n < 10 then [Digit(n)] else Itoa(n / 10) + [Digit(n % 10)]
  }

  /** The value the accumulation loop of parseLen reaches on a string of digits. */
  function Accumulate(p: Bytes): int {
    if p == [] then 0
    else Wrap64(Wrap64(Accumulate(p[..|p| - 1]) * 10) + (p[|p| - 1] as int - '0' as int))
  }

  predicate AllDigits(p: Bytes) { forall c :: c in p ==> IsDigit(c) }

  datatype Length = Length(n: int) | BadLength(error: Error)

  function ParseLen(p: Bytes): Length {
    if p == [] then BadLength(MalformedLength)
    else if p == "-1" then Length(-1)
    else if AllDigits(p) then Length(Accumulate(p))
    else BadLength(InvalidResp)
  }

  /** parseLen as the source writes it: one pass over the bytes. */
  method ParseLenLoop(p: Bytes) returns (r: Length)
    ensures r == ParseLen(p)
  {
    if |p| < 1 { return BadLength(MalformedLength); }
    if p[0] == '-' && |p| == 2 && p[1] == '1' { return Length(-1); }
    var n := 0;
    for i := 0 to |p|
      invariant AllDigits(p[..i]) && n == Accumulate(p[..i])
    {
      n := Wrap64(n * 10);
      if p[i] < '0' || p[i] > '9' {
        assert p[i] in p && !IsDigit(p[i]);
        return BadLength(InvalidResp);
      }
      n := Wrap64(n + (p[i] as int - '0' as int));
      assert p[..i + 1][..i] == p[..i];
    }
    assert p[..|p|] == p;
    return Length(n);
  }

  lemma {:induction false} AccumulateItoa(n: nat)
    requires n <= MAX_INT
    ensures Accumulate(Itoa(n)) == n
  {
    if n >= 10 {
      AccumulateItoa(n / 10);
      assert Itoa(n)[..|Itoa(n)| - 1] == Itoa(n / 10);
    }
  }

  /** Every number that fits an int survives printing and parsing. */
  lemma ParseLenItoa(n: nat)
    requires n <= MAX_INT
    ensures ParseLen(Itoa(n)) == Length(n)
  {
    AccumulateItoa(n);
    assert IsDigit(Itoa(n)[0]);
  }

  // ----- the read cursor

  /** The position of the first line feed at or after r. */
  function FindLF(b: Bytes, r: nat): (i: nat)
    ensures r <= |b| ==> r <= i <= |b|
    ensures i < |b| && r <= |b| ==> b[i] == '\n'
    ensures forall k :: r <= k < i && k < |b| ==> b[k] != '\n'
    decreases |b| - r
  {
    if r >= |b| || b[r] == '\n' then r else FindLF(b, r + 1)
  }

  function ReadN(b: Bytes, r: nat, n: nat): Outcome<Bytes>
    requires r <= |b|
  {
    if |b| - r < 1 then Err(EmptyLine)
    else if n > |b| - r then Err(ShortLine)
    else Ok(b[r..r + n], r + n)
  }

  /** The line that starts at r, without its CR LF. */
  function ReadLine(b: Bytes, r: nat): (o: Outcome<Bytes>)
    requires r <= |b|
    ensures o.Ok? ==> r + 3 <= o.pos <= |b| && |o.value| == o.pos - 2 - r
  {
    if |b| - r < 1 then Err(EmptyLine)
    else
      var i := FindLF(b, r);
      if i == |b| then Err(LFNotFound)
      else if i - r < 2 then Err(EmptyLine)
      else if b[i - 1] != '\r' then Err(InvalidResp)
      else Ok(b[r..i - 1], i + 1)
  }

  /** The cursor object: every call reads at r and moves r behind what it read. */
  class Buffer {
    const buf: Bytes
    var r: nat

    ghost predicate Valid() reads this { r <= |buf| }

    constructor (bs: Bytes)
      ensures Valid() && buf == bs && r == 0
    {
      buf := bs;
      r := 0;
    }

    method Next(n: nat) returns (o: Outcome<Bytes>)
      requires Valid()
      modifies this`r
      ensures Valid() && o == ReadN(buf, old(r), n)
      ensures r == if o.Ok? then o.pos else old(r)
    {
      if |buf| - r < 1 { return Err(EmptyLine); }
      if n > |buf| - r { return Err(ShortLine); }
      var start := r;
      r := r + n;
      return Ok(buf[start..r], r);
    }

    method Line() returns (o: Outcome<Bytes>)
      requires Valid()
      modifies this`r
      ensures Valid() && o == ReadLine(buf, old(r))
      ensures r >= old(r) && (o.Ok? ==> r == o.pos)
    {
      if |buf| - r < 1 { return Err(EmptyLine); }
      var start := r;
      var i := FindLF(buf, start);
      if i == |buf| { return Err(LFNotFound); }
      var line := Next(i - start + 1);
      if i - start < 2 { return Err(EmptyLine); }
      if line.value[i - start - 1] != '\r' { return Err(InvalidResp); }
      assert line.value[..|line.value| - 2] == buf[start..i - 1];
      return Ok(line.value[..|line.value| - 2], r);
    }
  }

  // ----- what a reader sees when a known string lies at the cursor

  /** s lies in b at position r. */
  ghost predicate Lies(b: Bytes, r: nat, s: Bytes) {
    r + |s| <= |b| && forall k {:trigger s[k]} :: 0 <= k < |s| ==> b[r + k] == s[k]
  }

  /** b ends inside s: what is left of b at r is a strict prefix of s. */
  ghost predicate Cut(b: Bytes, r: nat, s: Bytes) {
    r <= |b| && |b| - r < |s| && forall k {:trigger s[k]} :: 0 <= k < |b| - r ==> b[r + k] == s[k]
  }

  lemma LiesIsSlice(b: Bytes, r: nat, s: Bytes)
    ensures Lies(b, r, s) <==> r + |s| <= |b| && b[r..r + |s|] == s
  {
    if r + |s| <= |b| && b[r..r + |s|] == s {
      assert forall k :: 0 <= k < |s| ==> s[k] == b[r..r + |s|][k];
    }
  }

  lemma LiesSplit(b: Bytes, r: nat, s: Bytes, t: Bytes)
    ensures Lies(b, r, s + t) <==> Lies(b, r, s) && Lies(b, r + |s|, t)
  {
    if Lies(b, r, s + t) {
      forall k | 0 <= k < |s| ensures b[r + k] == s[k] { assert (s + t)[k] == s[k]; }
      forall k | 0 <= k < |t| ensures b[r + |s| + k] == t[k] { assert (s + t)[|s| + k] == t[k]; }
    }
  }

  lemma CutSplit(b: Bytes, r: nat, s: Bytes, t: Bytes)
    requires Cut(b, r, s + t)
    ensures Cut(b, r, s) || (Lies(b, r, s) && Cut(b, r + |s|, t))
  {
    forall k | 0 <= k < |s| && k < |b| - r ensures b[r + k] == s[k] { assert (s + t)[k] == s[k]; }
    forall k | 0 <= k < |t| && |s| + k < |b| - r ensures b[r + |s| + k] == t[k] { assert (s + t)[|s| + k] == t[k]; }
  }

  /** A non-empty line without line feeds is read back, and the cursor stops right behind it. */
  lemma LineLies(b: Bytes, r: nat, line: Bytes)
    requires Lies(b, r, line + CRLF) && line != [] && '\n' !in line
    ensures ReadLine(b, r) == Ok(line, r + |line| + 2)
  {
    var i := FindLF(b, r);
    var s := line + CRLF;
    assert s[|line|] == '\r' && s[|line| + 1] == '\n';
    forall k | 0 <= k < |line| ensures b[r + k] == line[k] { assert s[k] == line[k]; }
    forall k | r <= k < r + |line| ensures b[k] != '\n' { assert b[k] == line[k - r]; }
    assert i == r + |line| + 1;
    assert b[r..i - 1] == line;
  }

  /** A line that is cut short makes the reader wait. */
  lemma LineCut(b: Bytes, r: nat, line: Bytes)
    requires Cut(b, r, line + CRLF) && '\n' !in line
    ensures ReadLine(b, r).Err? && Waits(ReadLine(b, r).error)
  {
    var s := line + CRLF;
    forall k | r <= k < |b| ensures b[k] != '\n' {
      assert s[k - r] == b[k];
      if k - r < |line| { assert s[k - r] == line[k - r]; }
    }
  }

  /** More bytes behind b never change what has been read. */
  lemma LineStable(b: Bytes, x: Bytes, r: nat)
    requires r <= |b|
    ensures ReadLine(b, r).Ok? || !Waits(ReadLine(b, r).error) ==> ReadLine(b + x, r) == ReadLine(b, r)
  {
    var i := FindLF(b, r);
    if i < |b| {
      assert (b + x)[i] == '\n' && forall k :: r <= k < i ==> (b + x)[k] == b[k];
      assert FindLF(b + x, r) == i;
      assert (b + x)[r..i] == b[r..i];
      if i - r >= 2 { assert (b + x)[r..i - 1] == b[r..i - 1]; }
    }
  }

  lemma ReadNStable(b: Bytes, x: Bytes, r: nat, n: nat)
    requires r <= |b|
    ensures ReadN(b, r, n).Ok? ==> ReadN(b + x, r, n) == ReadN(b, r, n)
    ensures ReadN(b, r, n).Err? ==> Waits(ReadN(b, r, n).error)
  {
    if n <= |b| - r { assert (b + x)[r..r + n] == b[r..r + n]; }
  }

  /** A line is read from the bytes up to its end. */
  lemma LineWithin(b: Bytes, r: nat, k: nat)
    requires r <= k <= |b| && ReadLine(b, r).Ok? && ReadLine(b, r).pos <= k
    ensures ReadLine(b[..k], r) == ReadLine(b, r)
  {
    var i := FindLF(b, r);
    assert b[..k][i] == '\n' && forall j :: r <= j < i ==> b[..k][j] != '\n';
    assert FindLF(b[..k], r) == i;
    assert b[..k][r..i - 1] == b[r..i - 1];
  }

  /** b and c have the same bytes from r on. */
  ghost predicate SameFrom(b: Bytes, c: Bytes, r: nat) {
    |b| == |c| && forall k :: r <= k < |b| ==> b[k] == c[k]
  }

  /** Nothing before the cursor matters. */
  lemma LineFrom(b: Bytes, c: Bytes, r: nat)
    requires r <= |b| && SameFrom(b, c, r)
    ensures ReadLine(b, r) == ReadLine(c, r)
  {
    var i := FindLF(b, r);
    assert FindLF(c, r) == i;
    if i < |b| && i - r >= 2 { assert b[r..i - 1] == c[r..i - 1]; }
  }

  lemma ReadNFrom(b: Bytes, c: Bytes, r: nat, n: nat)
    requires r <= |b| && SameFrom(b, c, r)
    ensures ReadN(b, r, n) == ReadN(c, r, n)
  {
    if n <= |b| - r { assert b[r..r + n] == c[r..r + n]; }
  }

  lemma ReadNLies(b: Bytes, r: nat, s: Bytes)
    requires Lies(b, r, s) && r < |b|
    ensures ReadN(b, r, |s|) == Ok(s, r + |s|)
  {
    LiesIsSlice(b, r, s);
  }
}
