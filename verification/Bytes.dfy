/** Bytes as integers, with the source's bit operations written out as arithmetic. */
module Bytes {
  type byte = x: int | 0 <= x < 256

  /** Bitwise exclusive or of the low `n` bits. */
  function XorBits(n: nat, a: nat, b: nat): nat {
    if n == 0 then 0 else (if a % 2 == b % 2 then 0 else 1) + 2 * XorBits(n - 1, a / 2, b / 2)
  }

  function Pow2(n: nat): nat {
    if n == 0 then 1 else 2 * Pow2(n - 1)
  }

  /** Bits in a byte. */
  function Width(): (w: nat)
    ensures Pow2(w) == 256 && Pow2(w - 1) == 128
  {
    assert Pow2(8) == 256;
    8
  }

  function Xor(a: byte, b: byte): byte {
    XorBitsBound(Width(), a, b);
    XorBits(Width(), a, b)
  }

  /** `b | 0x80` */
  function SetTopBit(b: byte): byte {
    if b < 128 then b + 128 else b
  }

  lemma {:induction false} XorBitsBound(n: nat, a: nat, b: nat)
    ensures XorBits(n, a, b) < Pow2(n)
  {
    if n > 0 {
      XorBitsBound(n - 1, a / 2, b / 2);
    }
  }

  /** Bits from position `n` up do not matter. */
  lemma {:induction false} XorBitsIgnoreHigh(n: nat, a: nat, k: nat, b: nat)
    ensures XorBits(n, a + k * Pow2(n), b) == XorBits(n, a, b)
  {
    if n > 0 {
      assert a + k * Pow2(n) == a + 2 * (k * Pow2(n - 1));
      XorBitsIgnoreHigh(n - 1, a / 2, k, b / 2);
    }
  }

  /** One more bit adds nothing or one power of two. */
  lemma {:induction false} XorBitsTop(n: nat, a: nat, b: nat) returns (t: nat)
    ensures t <= 1 && XorBits(n + 1, a, b) == XorBits(n, a, b) + t * Pow2(n)
  {
    if n == 0 {
      t := if a % 2 == b % 2 then 0 else 1;
      assert XorBits(0, a / 2, b / 2) == 0;
    } else {
      t := XorBitsTop(n - 1, a / 2, b / 2);
      assert t == 0 || t == 1;
    }
  }

  lemma {:induction false} XorBitsCancel(n: nat, a: nat, b: nat)
    requires a < Pow2(n)
    ensures XorBits(n, XorBits(n, a, b), b) == a
  {
    if n > 0 {
      XorBitsCancel(n - 1, a / 2, b / 2);
      assert XorBits(n, a, b) / 2 == XorBits(n - 1, a / 2, b / 2);
    }
  }

  /** Masking twice with the same byte restores the original. */
  lemma XorCancel(a: byte, b: byte)
    ensures Xor(Xor(a, b), b) == a
  {
    XorBitsCancel(Width(), a, b);
  }

  /** The low seven bits of the result depend on the low seven bits alone. */
  lemma XorBitsLow(n: nat, a: nat, b: nat)
    requires Pow2(n) == 128
    ensures XorBits(n + 1, a, b) % 128 == XorBits(n, a % 128, b)
  {
    XorBitsBound(n, a % 128, b);
    XorBitsIgnoreHigh(n, a % 128, a / 128, b);
    var t := XorBitsTop(n, a, b);
    assert t == 0 || t == 1;
  }

  lemma XorSameLowSeven(n: nat, a: byte, a': byte, b: byte)
    requires n + 1 == Width() && a % 128 == a' % 128
    ensures Xor(a, b) % 128 == Xor(a', b) % 128
  {
    XorBitsLow(n, a, b);
    XorBitsLow(n, a', b);
  }

  /** Forcing the top bit between two masks only loses the top bit. */
  lemma XorCancelUnderForcedTop(a: byte, b: byte)
    ensures Xor(SetTopBit(Xor(a, b)), b) % 128 == a % 128
  {
    XorSameLowSeven(Width() - 1, SetTopBit(Xor(a, b)), Xor(a, b), b);
    XorCancel(a, b);
  }

  lemma {:induction false} XorBitsZero(n: nat, a: nat)
    requires a < Pow2(n)
    ensures XorBits(n, a, 0) == a
  {
    if n > 0 {
      XorBitsZero(n - 1, a / 2);
    }
  }

  lemma XorZero(a: byte)
    ensures Xor(a, 0) == a
  {
    XorBitsZero(Width(), a);
  }

  lemma {:induction false} XorBitsStep(n: nat, a: nat, b: nat)
    requires n > 0
    ensures XorBits(n, a, b) == (if a % 2 == b % 2 then 0 else 1) + 2 * XorBits(n - 1, a / 2, b / 2)
  {}

  lemma HalfOf(x: nat, bit: nat, rest: nat)
    requires x == bit + 2 * rest && bit <= 1
    ensures x / 2 == rest && x % 2 == bit
  {}

  lemma XorBitsHalves(n: nat, a: nat, b: nat)
    requires n > 0
    ensures XorBits(n, a, b) % 2 == (if a % 2 == b % 2 then 0 else 1)
    ensures XorBits(n, a, b) / 2 == XorBits(n - 1, a / 2, b / 2)
  {
    hide XorBits;
    XorBitsStep(n, a, b);
    HalfOf(XorBits(n, a, b), if a % 2 == b % 2 then 0 else 1, XorBits(n - 1, a / 2, b / 2));
  }

  /** Masks that differ in their lowest bit give different results. */
  lemma XorLowBit(a: byte, b: byte)
    ensures Xor(a, b) % 2 == if a % 2 == b % 2 then 0 else 1
  {
    hide XorBits;
    XorBitsHalves(Width(), a, b);
  }

  /** `x` without its lowest `k` bits. */
  function Shift(x: nat, k: nat): nat {
    if k == 0 then x else Shift(x / 2, k - 1)
  }

  /** Each bit of the result tells whether the bits at its place differ. */
  lemma {:induction false} XorBitsAt(n: nat, a: nat, b: nat, k: nat)
    requires k < n
    ensures Shift(XorBits(n, a, b), k) % 2 == if Shift(a, k) % 2 == Shift(b, k) % 2 then 0 else 1
  {
    hide XorBits;
    XorBitsHalves(n, a, b);
    if k > 0 {
      XorBitsAt(n - 1, a / 2, b / 2, k - 1);
    }
  }

  lemma ShiftStep(x: nat, k: nat)
    ensures Shift(x, k) == if k == 0 then x else Shift(x / 2, k - 1)
  {}

  lemma ShiftSix(x: byte)
    ensures Shift(x, 6) == x / 64
  {
    hide Shift;
    ShiftStep(x, 6);
    ShiftStep(x / 2, 5);
    ShiftStep(x / 4, 4);
    ShiftStep(x / 8, 3);
    ShiftStep(x / 16, 2);
    ShiftStep(x / 32, 1);
    ShiftStep(x / 64, 0);
  }

  lemma XorSeventhBit(a: byte, b: byte)
    ensures Xor(a, b) / 64 % 2 == if a / 64 % 2 == b / 64 % 2 then 0 else 1
  {
    hide XorBits, Shift;
    XorBitsAt(Width(), a, b, 6);
    ShiftSix(a);
    ShiftSix(b);
    ShiftSix(Xor(a, b));
  }
}
