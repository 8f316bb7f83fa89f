/** The key-to-slot hash of core/pkg/hashkit/crc16.go, against the bitwise CRC-16/XMODEM of the
    Redis Cluster specification, sections "Key distribution model" and "Hash tags". */
module Slot {
  import opened Bytes

  const SLOTS := 16384

  /** One row of sixteen entries of the lookup table. */
  function TableRow(hi: bv16): (row: seq<bv16>)
    requires hi <= 15
    ensures |row| == 16
  {
    match hi
    case 0 => [0x0000, 0x1021, 0x2042, 0x3063, 0x4084, 0x50a5, 0x60c6, 0x70e7,
               0x8108, 0x9129, 0xa14a, 0xb16b, 0xc18c, 0xd1ad, 0xe1ce, 0xf1ef]
    case 1 => [0x1231, 0x0210, 0x3273, 0x2252, 0x52b5, 0x4294, 0x72f7, 0x62d6,
               0x9339, 0x8318, 0xb37b, 0xa35a, 0xd3bd, 0xc39c, 0xf3ff, 0xe3de]
    case 2 => [0x2462, 0x3443, 0x0420, 0x1401, 0x64e6, 0x74c7, 0x44a4, 0x5485,
               0xa56a, 0xb54b, 0x8528, 0x9509, 0xe5ee, 0xf5cf, 0xc5ac, 0xd58d]
    case 3 => [0x3653, 0x2672, 0x1611, 0x0630, 0x76d7, 0x66f6, 0x5695, 0x46b4,
               0xb75b, 0xa77a, 0x9719, 0x8738, 0xf7df, 0xe7fe, 0xd79d, 0xc7bc]
    case 4 => [0x48c4, 0x58e5, 0x6886, 0x78a7, 0x0840, 0x1861, 0x2802, 0x3823,
               0xc9cc, 0xd9ed, 0xe98e, 0xf9af, 0x8948, 0x9969, 0xa90a, 0xb92b]
    case 5 => [0x5af5, 0x4ad4, 0x7ab7, 0x6a96, 0x1a71, 0x0a50, 0x3a33, 0x2a12,
               0xdbfd, 0xcbdc, 0xfbbf, 0xeb9e, 0x9b79, 0x8b58, 0xbb3b, 0xab1a]
    case 6 => [0x6ca6, 0x7c87, 0x4ce4, 0x5cc5, 0x2c22, 0x3c03, 0x0c60, 0x1c41,
               0xedae, 0xfd8f, 0xcdec, 0xddcd, 0xad2a, 0xbd0b, 0x8d68, 0x9d49]
    case 7 => [0x7e97, 0x6eb6, 0x5ed5, 0x4ef4, 0x3e13, 0x2e32, 0x1e51, 0x0e70,
               0xff9f, 0xefbe, 0xdfdd, 0xcffc, 0xbf1b, 0xaf3a, 0x9f59, 0x8f78]
    case 8 => [0x9188, 0x81a9, 0xb1ca, 0xa1eb, 0xd10c, 0xc12d, 0xf14e, 0xe16f,
               0x1080, 0x00a1, 0x30c2, 0x20e3, 0x5004, 0x4025, 0x7046, 0x6067]
    case 9 => [0x83b9, 0x9398, 0xa3fb, 0xb3da, 0xc33d, 0xd31c, 0xe37f, 0xf35e,
               0x02b1, 0x1290, 0x22f3, 0x32d2, 0x4235, 0x5214, 0x6277, 0x7256]
    case 10 => [0xb5ea, 0xa5cb, 0x95a8, 0x8589, 0xf56e, 0xe54f, 0xd52c, 0xc50d,
               0x34e2, 0x24c3, 0x14a0, 0x0481, 0x7466, 0x6447, 0x5424, 0x4405]
    case 11 => [0xa7db, 0xb7fa, 0x8799, 0x97b8, 0xe75f, 0xf77e, 0xc71d, 0xd73c,
               0x26d3, 0x36f2, 0x0691, 0x16b0, 0x6657, 0x7676, 0x4615, 0x5634]
    case 12 => [0xd94c, 0xc96d, 0xf90e, 0xe92f, 0x99c8, 0x89e9, 0xb98a, 0xa9ab,
               0x5844, 0x4865, 0x7806, 0x6827, 0x18c0, 0x08e1, 0x3882, 0x28a3]
    case 13 => [0xcb7d, 0xdb5c, 0xeb3f, 0xfb1e, 0x8bf9, 0x9bd8, 0xabbb, 0xbb9a,
               0x4a75, 0x5a54, 0x6a37, 0x7a16, 0x0af1, 0x1ad0, 0x2ab3, 0x3a92]
    case 14 => [0xfd2e, 0xed0f, 0xdd6c, 0xcd4d, 0xbdaa, 0xad8b, 0x9de8, 0x8dc9,
               0x7c26, 0x6c07, 0x5c64, 0x4c45, 0x3ca2, 0x2c83, 0x1ce0, 0x0cc1]
    case 15 => [0xef1f, 0xff3e, 0xcf5d, 0xdf7c, 0xaf9b, 0xbfba, 0x8fd9, 0x9ff8,
               0x6e17, 0x7e36, 0x4e55, 0x5e74, 0x2e93, 0x3eb2, 0x0ed1, 0x1ef0]
  }

  /** row[lo], for an index that is a bit vector. */
  function Entry(row: seq<bv16>, lo: bv16): bv16
    requires |row| == 16
  {
    if lo == 0 then row[0] else if lo == 1 then row[1] else if lo == 2 then row[2] else if lo == 3 then row[3]
    else if lo == 4 then row[4] else if lo == 5 then row[5] else if lo == 6 then row[6] else if lo == 7 then row[7]
    else if lo == 8 then row[8] else if lo == 9 then row[9] else if lo == 10 then row[10] else if lo == 11 then row[11]
    else if lo == 12 then row[12] else if lo == 13 then row[13] else if lo == 14 then row[14] else row[15]
  }

  function Table(i: bv16): bv16
    requires i <= 0xff
  {
    Entry(TableRow(i >> 4), i & 15)
  }

  function ByteOf(c: Byte): bv8 { (c as int) as bv8 }

  /** One table-driven step. The 32-bit accumulator is never masked, so old bits pile up above bit 15. */
  function FastStep(crc: bv32, b: bv8): bv32 {
    var i := (((crc >> 8) ^ b as bv32) & 0xff) as bv16;
    (crc << 8) ^ Table(i) as bv32
  }

  function FastCrc(key: Bytes): bv32 {
    if key == [] then 0 else FastStep(FastCrc(key[..|key| - 1]), ByteOf(key[|key| - 1]))
  }

  /** hash, as the loop of the source. */
  method HashLoop(key: Bytes) returns (slot: nat)
    ensures slot == SlotOf(key)
  {
    var crc: bv32 := 0;
    for x := 0 to |key|
      invariant crc == FastCrc(key[..x])
    {
      assert key[..x + 1][..x] == key[..x];
      crc := FastStep(crc, ByteOf(key[x]));
    }
    assert key[..|key|] == key;
    slot := (crc % 16384) as nat;
  }

  function SlotOf(key: Bytes): (slot: nat)
    ensures slot < SLOTS
  {
    (FastCrc(key) % 16384) as nat
  }

  /** The first occurrence of c at or after i, or |s|. */
  function IndexFrom(s: Bytes, c: Byte, i: nat): (k: nat)
    requires i <= |s|
    ensures i <= k <= |s| && (k < |s| ==> s[k] == c) && c !in s[i..k]
    decreases |s| - i
  {
    if i == |s| || s[i] == c then i else IndexFrom(s, c, i + 1)
  }

  /** The part of the key that Hash hashes: between the first brace of each kind. */
  function HashedPart(key: Bytes): Bytes {
    var s, e := IndexFrom(key, '{', 0), IndexFrom(key, '}', 0);
    if s < |key| && e < |key| && s + 1 < e then key[s + 1..e] else key
  }

  function Hash(key: Bytes): (slot: nat)
    ensures slot < SLOTS
  {
    SlotOf(HashedPart(key))
  }

  // ----- the standard

  function Xor(a: bv16, b: bv16): bv16 { a ^ b }
  function Left(a: bv16): bv16 { a << 1 }
  function Top(c: bv16): bool { c & 0x8000 != 0 }
  function Poly(t: bool): bv16 { if t then 0x1021 else 0 }

  /** One bit of CRC-16/XMODEM: polynomial 0x1021, no reflection, initial value and final xor zero. */
  function Shift(c: bv16): bv16 { Xor(Left(c), Poly(Top(c))) }

  function Shift8(c: bv16): bv16 { Shift(Shift(Shift(Shift(Shift(Shift(Shift(Shift(c)))))))) }

  function Crc16(key: Bytes): bv16 {
    if key == [] then 0
    else Shift8(Xor(Crc16(key[..|key| - 1]), ByteOf(key[|key| - 1]) as bv16 << 8))
  }

  /** The hash tag: what lies between the first { and the first } after it, if that is not empty. */
  function HashTag(key: Bytes): Bytes {
    var s := IndexFrom(key, '{', 0);
    if s == |key| then key
    else
      var e := IndexFrom(key, '}', s);
      if e < |key| && s + 1 < e then key[s + 1..e] else key
  }

  // ----- each bit step is linear over exclusive or

  lemma XorComm(a: bv16, b: bv16) ensures Xor(a, b) == Xor(b, a) {}

  lemma XorAssoc(a: bv16, b: bv16, c: bv16) ensures Xor(Xor(a, b), c) == Xor(a, Xor(b, c)) {}

  lemma XorSwap(a: bv16, b: bv16, p: bv16, q: bv16)
    ensures Xor(Xor(a, b), Xor(p, q)) == Xor(Xor(a, p), Xor(b, q))
  {
    hide Xor;
    XorAssoc(a, b, Xor(p, q));
    XorAssoc(b, p, q);
    XorComm(b, p);
    XorAssoc(p, b, q);
    XorAssoc(a, p, Xor(b, q));
  }

  lemma TopLinear(x: bv16, y: bv16) ensures Top(Xor(x, y)) == (Top(x) != Top(y)) {}

  lemma PolyLinear(s: bool, t: bool) ensures Poly(s != t) == Xor(Poly(s), Poly(t)) {}

  lemma LeftLinear(x: bv16, y: bv16) ensures Left(Xor(x, y)) == Xor(Left(x), Left(y)) {}

  lemma ShiftLinear(x: bv16, y: bv16)
    ensures Shift(Xor(x, y)) == Xor(Shift(x), Shift(y))
  {
    hide Poly, Top, Xor, Left;
    TopLinear(x, y);
    PolyLinear(Top(x), Top(y));
    LeftLinear(x, y);
    XorSwap(Left(x), Left(y), Poly(Top(x)), Poly(Top(y)));
  }

  lemma Shift8Linear(x: bv16, y: bv16)
    ensures Shift8(Xor(x, y)) == Xor(Shift8(x), Shift8(y))
  {
    hide Shift, Xor;
    var a, b := x, y;
    ShiftLinear(a, b); a, b := Shift(a), Shift(b);
    ShiftLinear(a, b); a, b := Shift(a), Shift(b);
    ShiftLinear(a, b); a, b := Shift(a), Shift(b);
    ShiftLinear(a, b); a, b := Shift(a), Shift(b);
    ShiftLinear(a, b); a, b := Shift(a), Shift(b);
    ShiftLinear(a, b); a, b := Shift(a), Shift(b);
    ShiftLinear(a, b); a, b := Shift(a), Shift(b);
    ShiftLinear(a, b);
  }

  lemma LowByteMovesUp(c: bv16)
    requires c <= 0xff
    ensures Shift8(c) == c << 8
  {}

  // ----- the table holds eight bit steps for every byte

  function EightSteps(c: bv16): (row: seq<bv16>) {
    [Shift8(c), Shift8(c + 0x100), Shift8(c + 0x200), Shift8(c + 0x300),
     Shift8(c + 0x400), Shift8(c + 0x500), Shift8(c + 0x600), Shift8(c + 0x700),
     Shift8(c + 0x800), Shift8(c + 0x900), Shift8(c + 0xa00), Shift8(c + 0xb00),
     Shift8(c + 0xc00), Shift8(c + 0xd00), Shift8(c + 0xe00), Shift8(c + 0xf00)]
  }

  lemma Row0() ensures TableRow(0) == EightSteps(0x0000) {}
  lemma Row1() ensures TableRow(1) == EightSteps(0x1000) {}
  lemma Row2() ensures TableRow(2) == EightSteps(0x2000) {}
  lemma Row3() ensures TableRow(3) == EightSteps(0x3000) {}
  lemma Row4() ensures TableRow(4) == EightSteps(0x4000) {}
  lemma Row5() ensures TableRow(5) == EightSteps(0x5000) {}
  lemma Row6() ensures TableRow(6) == EightSteps(0x6000) {}
  lemma Row7() ensures TableRow(7) == EightSteps(0x7000) {}
  lemma Row8() ensures TableRow(8) == EightSteps(0x8000) {}
  lemma Row9() ensures TableRow(9) == EightSteps(0x9000) {}
  lemma Row10() ensures TableRow(10) == EightSteps(0xa000) {}
  lemma Row11() ensures TableRow(11) == EightSteps(0xb000) {}
  lemma Row12() ensures TableRow(12) == EightSteps(0xc000) {}
  lemma Row13() ensures TableRow(13) == EightSteps(0xd000) {}
  lemma Row14() ensures TableRow(14) == EightSteps(0xe000) {}
  lemma Row15() ensures TableRow(15) == EightSteps(0xf000) {}

  lemma EntryOfSteps(c: bv16, lo: bv16)
    requires lo <= 15
    ensures Entry(EightSteps(c), lo) == Shift8(c + (lo << 8))
  {
    hide Shift8;
    match lo {
      case 0 => case 1 => case 2 => case 3 => case 4 => case 5 => case 6 => case 7 =>
      case 8 => case 9 => case 10 => case 11 => case 12 => case 13 => case 14 => case 15 =>
    }
  }

  lemma RowIsBitwise(hi: bv16)
    requires hi <= 15
    ensures TableRow(hi) == EightSteps(hi << 12)
  {
    match hi {
      case 0 => Row0();
      case 1 => Row1();
      case 2 => Row2();
      case 3 => Row3();
      case 4 => Row4();
      case 5 => Row5();
      case 6 => Row6();
      case 7 => Row7();
      case 8 => Row8();
      case 9 => Row9();
      case 10 => Row10();
      case 11 => Row11();
      case 12 => Row12();
      case 13 => Row13();
      case 14 => Row14();
      case 15 => Row15();
    }
  }

  lemma TableIsBitwise(i: bv16)
    requires i <= 0xff
    ensures Table(i) == Shift8(i << 8)
  {
    hide Shift8, TableRow, EightSteps, Entry;
    RowIsBitwise(i >> 4);
    EntryOfSteps((i >> 4) << 12, i & 15);
    assert ((i >> 4) << 12) + ((i & 15) << 8) == i << 8;
  }

  // ----- the accumulator's low half is the standard CRC

  function Low(crc: bv32): bv16 { (crc & 0xffff) as bv16 }

  function Index(c: bv16, b: bv8): bv16 { (c >> 8) ^ b as bv16 }

  lemma LowOfFastStep(crc: bv32, b: bv8)
    ensures Index(Low(crc), b) <= 0xff
    ensures Low(FastStep(crc, b)) == Xor(Low(crc) << 8, Table(Index(Low(crc), b)))
  {
    hide Table;
    var i := (((crc >> 8) ^ b as bv32) & 0xff) as bv16;
    assert i == Index(Low(crc), b);
    LowOfXor(crc, Table(i));
  }

  lemma LowOfXor(crc: bv32, t: bv16)
    ensures Low((crc << 8) ^ t as bv32) == Xor(Low(crc) << 8, t)
  {}

  /** The byte enters at the top: the high half becomes the table index, the low half is only shifted. */
  lemma HalvesSplit(c: bv16, b: bv8)
    ensures Xor(c, b as bv16 << 8) == Xor(c & 0xff, Index(c, b) << 8) && (c & 0xff) << 8 == c << 8 && c & 0xff <= 0xff
  {}

  lemma StepAgrees(crc: bv32, b: bv8)
    ensures Low(FastStep(crc, b)) == Shift8(Xor(Low(crc), b as bv16 << 8))
  {
    hide Shift8, Table, Xor, FastStep, Index, Low;
    var c := Low(crc);
    HalvesSplit(c, b);
    LowOfFastStep(crc, b);
    TableIsBitwise(Index(c, b));
    LowByteMovesUp(c & 0xff);
    Shift8Linear(c & 0xff, Index(c, b) << 8);
  }

  lemma {:induction false} CrcAgrees(key: Bytes)
    ensures Low(FastCrc(key)) == Crc16(key)
  {
    if key != [] {
      hide Shift8, FastStep, Xor;
      CrcAgrees(key[..|key| - 1]);
      StepAgrees(FastCrc(key[..|key| - 1]), ByteOf(key[|key| - 1]));
    }
  }

  lemma LowDecidesSlot(crc: bv32)
    ensures crc % 16384 == Low(crc) as bv32 % 16384
  {}

  /** For every key the slot is CRC-16/XMODEM of the hashed part, modulo 16384. */
  lemma SlotIsStandardCrc(key: Bytes)
    ensures SlotOf(key) == (Crc16(key) as bv32 % 16384) as nat
  {
    hide Low;
    CrcAgrees(key);
    LowDecidesSlot(FastCrc(key));
  }

  /** A closing brace comes before the first opening one, which also starts a non-empty tag. */
  predicate StrayBrace(key: Bytes) {
    var s := IndexFrom(key, '{', 0);
    s < |key| && IndexFrom(key, '}', 0) < s && s + 1 < IndexFrom(key, '}', s) < |key|
  }

  lemma {:induction false} IndexFromLater(s: Bytes, c: Byte, i: nat, j: nat)
    requires i <= |s| && i <= j <= IndexFrom(s, c, i)
    ensures IndexFrom(s, c, j) == IndexFrom(s, c, i)
    decreases j - i
  {
    if i < j { IndexFromLater(s, c, i + 1, j); }
  }

  /** The hashed part is the standard's hash tag exactly for the keys without such a stray brace. */
  lemma HashTagsAgree(key: Bytes)
    ensures HashedPart(key) == HashTag(key) <==> !StrayBrace(key)
  {
    var s, e := IndexFrom(key, '{', 0), IndexFrom(key, '}', 0);
    if s < |key| {
      if e >= s { IndexFromLater(key, '}', 0, s); }
    }
  }

  lemma StrayBraceExample()
    ensures HashedPart("a}{b}") != HashTag("a}{b}")
  {
    var key: Bytes := "a}{b}";
    assert IndexFrom(key, '{', 0) == 2 && IndexFrom(key, '}', 2) == 4 && IndexFrom(key, '}', 0) == 1;
    HashTagsAgree(key);
  }

  // ----- two slots

  lemma LetterCrcs()
    ensures FastCrc("a") == 0x7c87 && FastCrc("b") == 0x4ce4
  {
    var none: Bytes, a: Bytes, b: Bytes := [], "a", "b";
    assert a[..0] == none && b[..0] == none && FastCrc(none) == 0;
    assert ByteOf('a') == 0x61;
    assert ByteOf('b') == 0x62;
  }

  /** The slots that CLUSTER KEYSLOT reports for two keys. */
  lemma LetterSlots()
    ensures Hash("a") == 15495 && Hash("b") == 3300
  {
    hide FastCrc;
    LetterCrcs();
    var a: Bytes, b: Bytes := "a", "b";
    assert HashedPart(a) == a;
    assert HashedPart(b) == b;
    assert (0x7c87 as bv32 % 16384) as nat == 15495;
    assert (0x4ce4 as bv32 % 16384) as nat == 3300;
  }
}
