/** Rounding up to a power of two by smearing the highest bit: core/internal/toolkit/math.go:17-52. */
module PowerOfTwo {

  function Pow2(k: nat): (p: nat)
    ensures p > 0
  {
    if k == 0 then 1 else 2 * Pow2(k - 1)
  }

  /** The bitwise or of two non-negative numbers. */
  function Or(a: nat, b: nat): nat
    decreases a + b
  {
    if a == 0 && b == 0 then 0
    else 2 * Or(a / 2, b / 2) + (if a % 2 == 1 || b % 2 == 1 then 1 else 0)
  }

  function ShiftRight(n: nat, k: nat): nat { if k == 0 then n else ShiftRight(n / 2, k - 1) }

  function Smear(n: nat, k: nat): nat { Or(n, ShiftRight(n, k)) }

  function FillBits(n: nat): nat {
    Smear(Smear(Smear(Smear(Smear(Smear(n, 1), 2), 4), 8), 16), 32)
  }

  /** The bit just below the sign of a 64-bit int. */
  const MAXINT_HEAD_BIT := 0x4000_0000_0000_0000

  datatype Rounded = Panic | Rounded(n: nat)

  function CeilToPowerOfTwo(n: int): Rounded {
    if n > MAXINT_HEAD_BIT then Panic
    else if n <= 2 then Rounded(2)
    else Rounded(FillBits(n - 1) + 1)
  }

  // ----- arithmetic of powers and of or

  lemma {:induction false} ShiftTwice(n: nat, a: nat, b: nat)
    ensures ShiftRight(ShiftRight(n, a), b) == ShiftRight(n, a + b)
  {
    if a > 0 { ShiftTwice(n / 2, a - 1, b); }
  }

  lemma {:induction false} OrShift(a: nat, b: nat, k: nat)
    ensures ShiftRight(Or(a, b), k) == Or(ShiftRight(a, k), ShiftRight(b, k))
  {
    if k > 0 {
      OrShift(a / 2, b / 2, k - 1);
      assert Or(a, b) / 2 == Or(a / 2, b / 2);
    }
  }

  lemma {:induction false} OrZero(a: nat)
    ensures Or(a, 0) == a
    decreases a
  {
    if a > 0 { OrZero(a / 2); }
  }

  lemma {:induction false} OrOfOnes(k: nat, b: nat)
    requires b < Pow2(k)
    ensures Or(Pow2(k) - 1, b) == Pow2(k) - 1
  {
    if k == 0 {
      OrZero(0);
    } else {
      assert (Pow2(k) - 1) / 2 == Pow2(k - 1) - 1;
      OrOfOnes(k - 1, b / 2);
    }
  }

  // ----- smearing

  /** x has h bits, and the highest w of them are set. */
  ghost predicate TopOnes(x: nat, h: nat, w: nat) {
    if w < h then ShiftRight(x, h - w) == Pow2(w) - 1 else x == Pow2(h) - 1
  }

  lemma {:induction false} ShiftOnes(h: nat, k: nat)
    requires k <= h
    ensures ShiftRight(Pow2(h) - 1, k) == Pow2(h - k) - 1
  {
    if k > 0 {
      assert (Pow2(h) - 1) / 2 == Pow2(h - 1) - 1;
      ShiftOnes(h - 1, k - 1);
    }
  }

  lemma {:induction false} ShiftShrinks(n: nat, k: nat)
    ensures ShiftRight(n, k) <= n
  {
    if k > 0 { ShiftShrinks(n / 2, k - 1); }
  }

  /** Ones of width w above k low bits, with the k low bits set as well, are ones of width w + k. */
  lemma {:induction false} FillLow(x: nat, w: nat, k: nat)
    requires ShiftRight(x, k) == Pow2(w) - 1
    ensures Or(x, Pow2(k) - 1) == Pow2(w + k) - 1
  {
    if k == 0 {
      OrZero(x);
    } else {
      FillLow(x / 2, w, k - 1);
      assert (Pow2(k) - 1) / 2 == Pow2(k - 1) - 1 && (Pow2(k) - 1) % 2 == 1;
    }
  }

  lemma SmearLong(x: nat, h: nat, w: nat)
    requires 2 * w < h && TopOnes(x, h, w)
    ensures TopOnes(Smear(x, w), h, 2 * w)
  {
    hide Or, ShiftRight;
    var k := h - 2 * w;
    OrShift(x, ShiftRight(x, w), k);
    ShiftTwice(x, w, k);
    ShiftTwice(x, k, w);
    FillLow(ShiftRight(x, k), w, w);
  }

  lemma SmearShort(x: nat, h: nat, w: nat)
    requires w < h <= 2 * w && TopOnes(x, h, w)
    ensures Smear(x, w) == Pow2(h) - 1
  {
    hide Or, ShiftRight;
    var k := h - w;
    ShiftTwice(x, k, w - k);
    ShiftOnes(w, w - k);
    FillLow(x, w, k);
  }

  /** One step doubles the number of ones below the highest bit. */
  lemma SmearStep(x: nat, h: nat, w: nat)
    requires TopOnes(x, h, w)
    ensures TopOnes(Smear(x, w), h, 2 * w)
  {
    hide Or, ShiftRight;
    if 2 * w < h {
      SmearLong(x, h, w);
    } else if w < h {
      SmearShort(x, h, w);
    } else {
      ShiftShrinks(x, w);
      OrOfOnes(h, ShiftRight(x, w));
    }
  }

  lemma {:induction false} HighestBit(n: nat, h: nat)
    requires h > 0 && Pow2(h - 1) <= n < Pow2(h)
    ensures TopOnes(n, h, 1)
  {
    if h > 1 {
      HighestBit(n / 2, h - 1);
    }
  }

  /** fillBits sets every bit below the highest one, for every number of at most 64 bits. */
  lemma FillBitsFills(n: nat, h: nat)
    requires 0 < h <= 64 && Pow2(h - 1) <= n < Pow2(h)
    ensures FillBits(n) == Pow2(h) - 1
  {
    hide Smear, Pow2;
    HighestBit(n, h);
    var a := Smear(n, 1);
    var b := Smear(a, 2);
    var c := Smear(b, 4);
    var d := Smear(c, 8);
    var e := Smear(d, 16);
    SmearStep(n, h, 1);
    SmearStep(a, h, 2);
    SmearStep(b, h, 4);
    SmearStep(c, h, 8);
    SmearStep(d, h, 16);
    SmearStep(e, h, 32);
  }

  lemma {:induction false} HasHeight(n: nat, k: nat) returns (h: nat)
    requires 0 < n < Pow2(k)
    ensures 0 < h <= k && Pow2(h - 1) <= n < Pow2(h)
  {
    if n < Pow2(k - 1) { h := HasHeight(n, k - 1); } else { h := k; }
  }

  lemma {:induction false} PowMonotone(a: nat, b: nat)
    requires a < b
    ensures Pow2(a) < Pow2(b)
  {
    if a + 1 < b { PowMonotone(a, b - 1); }
  }

  /** The result is the least power of two, other than one, that is not below n; the panic is for numbers
      over the largest power of two that a 64-bit int holds. */
  lemma CeilIsLeast(n: int) returns (h: nat)
    ensures CeilToPowerOfTwo(n).Panic? <==> n > MAXINT_HEAD_BIT
    ensures n <= MAXINT_HEAD_BIT ==>
              && h >= 1 && CeilToPowerOfTwo(n) == Rounded(Pow2(h)) && n <= Pow2(h) <= MAXINT_HEAD_BIT
              && (forall k :: 1 <= k && n <= Pow2(k) ==> h <= k)
  {
    hide FillBits;
    h := 1;
    assert Pow2(1) == 2;
    HeadBit();
    if 2 < n <= MAXINT_HEAD_BIT {
      h := HasHeight(n - 1, 62);
      FillBitsFills(n - 1, h);
      forall k | 1 <= k && n <= Pow2(k) ensures h <= k {
        if k < h - 1 { PowMonotone(k, h - 1); }
      }
      if h < 62 { PowMonotone(h, 62); }
    }
  }

  lemma Times256(k: nat)
    ensures Pow2(k + 8) == 256 * Pow2(k)
  {
    assert Pow2(k + 2) == 4 * Pow2(k) && Pow2(k + 4) == 4 * Pow2(k + 2) && Pow2(k + 6) == 4 * Pow2(k + 4);
  }

  lemma HeadBit()
    ensures Pow2(62) == MAXINT_HEAD_BIT
  {
    assert Pow2(3) == 8 && Pow2(6) == 64;
    Times256(6);
    Times256(14);
    Times256(22);
    Times256(30);
    Times256(38);
    Times256(46);
    Times256(54);
  }
}
