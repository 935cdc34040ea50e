/** Bitwise operations on non-negative integers, one bit at a time. */
module Bits {
  import opened Words

  type bit = x: int | 0 <= x < 2

  function AndBit(a: bit, b: bit): bit { if a == 1 && b == 1 then 1 else 0 }

  function XorBit(a: bit, b: bit): bit { if a == b then 0 else 1 }

  /** Combines two words position by position. */
  function Bitwise(op: (bit, bit) -> bit, x: nat, y: nat): nat
    decreases x + y
  {
    if x == 0 && y == 0 then 0 else op(x % 2, y % 2) + 2 * Bitwise(op, x / 2, y / 2)
  }

  function OrBit(a: bit, b: bit): bit { if a == 0 && b == 0 then 0 else 1 }

  function And(x: nat, y: nat): nat { Bitwise(AndBit, x, y) }

  function BitOr(x: nat, y: nat): nat { Bitwise(OrBit, x, y) }

  const ONES64: u64 := 0xffff_ffff_ffff_ffff

  /** (a &^ mask) | (b & mask) */
  function Select64(a: u64, b: u64, mask: u64): nat { BitOr(And(a, ONES64 - mask), And(b, mask)) }

  function Xor(x: nat, y: nat): nat { Bitwise(XorBit, x, y) }

  /** Bitwise operations work separately on the bits below and above position k. */
  lemma {:induction false} BitwiseSplit(op: (bit, bit) -> bit, k: nat, a: nat, b: nat, x: nat, y: nat)
    requires op(0, 0) == 0 && a < Pow(2, k) && b < Pow(2, k)
    ensures Bitwise(op, a, b) < Pow(2, k)
    ensures Pow(2, k) * x >= 0 && Pow(2, k) * y >= 0
    ensures Bitwise(op, a + Pow(2, k) * x, b + Pow(2, k) * y)
         == Bitwise(op, a, b) + Pow(2, k) * Bitwise(op, x, y)
    decreases k
  {
    hide Bitwise;
    PowPositive(2, k);
    MulMono(0, x, Pow(2, k));
    MulMono(0, y, Pow(2, k));
    if k == 0 {
      BitwiseZero(op);
    } else {
      var p := Pow(2, k - 1);
      assert Pow(2, k) == 2 * p;
      BitwiseSplit(op, k - 1, a / 2, b / 2, x, y);
      hide Pow;
      MulAssoc(2, p, x);
      MulAssoc(2, p, y);
      MulAssoc(2, p, Bitwise(op, x, y));
      BitwiseDouble(op, a, p * x, b, p * y);
      BitwiseDouble(op, a, 0, b, 0);
    }
  }

  lemma BitwiseZero(op: (bit, bit) -> bit)
    ensures Bitwise(op, 0, 0) == 0
  {}

  /** An even number above a word leaves its lowest bit alone. */
  lemma BitwiseDouble(op: (bit, bit) -> bit, a: nat, t: nat, b: nat, z: nat)
    requires op(0, 0) == 0
    ensures Bitwise(op, a + 2 * t, b + 2 * z) == op(a % 2, b % 2) + 2 * Bitwise(op, a / 2 + t, b / 2 + z)
  {
    assert (a + 2 * t) / 2 == a / 2 + t && (b + 2 * z) / 2 == b / 2 + z;
  }

  /** The same with the power of two and its multiples as numbers. */
  lemma SplitAt(op: (bit, bit) -> bit, k: nat, unit: int, a: nat, b: nat, x: nat, y: nat, t: int, z: int)
    requires op(0, 0) == 0 && unit == Pow(2, k) && a < unit && b < unit && t == unit * x && z == unit * y
    ensures t >= 0 && z >= 0
    ensures Bitwise(op, a + t, b + z) == Bitwise(op, a, b) + unit * Bitwise(op, x, y)
  {
    BitwiseSplit(op, k, a, b, x, y);
  }

  lemma OrSplit(k: nat, unit: int, low: nat, high: nat, y: nat)
    requires unit == Pow(2, k) && low < unit
    ensures unit * high >= 0 && unit * y >= 0
    ensures BitOr(low + unit * high, unit * y) == low + unit * BitOr(high, y)
  {
    hide Pow, BitOr, OrBit;
    OrSplitProducts(k, unit, low, high, y, unit * high, unit * y);
    OrZero(low);
  }

  lemma OrSplitProducts(k: nat, unit: int, low: nat, high: nat, y: nat, t: int, z: int)
    requires unit == Pow(2, k) && low < unit && t == unit * high && z == unit * y
    ensures t >= 0 && z >= 0
    ensures BitOr(low + t, z) == BitOr(low, 0) + unit * BitOr(high, y)
  {
    hide Bitwise, Pow;
    SplitAt(OrBit, k, unit, low, 0, high, y, t, z);
  }

  lemma AndSplit(k: nat, unit: int, low: nat, high: nat, y: nat)
    requires unit == Pow(2, k) && low < unit
    ensures unit * high >= 0 && unit * y >= 0
    ensures And(low + unit * high, unit * y) == unit * And(high, y)
  {
    hide Bitwise, Pow;
    SplitAt(AndBit, k, unit, low, 0, high, y, unit * high, unit * y);
    AndBelow(low, 0);
  }

  lemma {:induction false} AndBelow(x: nat, y: nat)
    ensures And(x, y) <= x && And(x, y) <= y
    decreases x + y
  {
    if x != 0 || y != 0 { AndBelow(x / 2, y / 2); }
  }

  lemma XorHalf(x: nat, y: nat)
    ensures Xor(x, y) % 2 == XorBit(x % 2, y % 2) && Xor(x, y) / 2 == Xor(x / 2, y / 2)
  {
    BitwiseDouble(XorBit, x % 2, x / 2, y % 2, y / 2);
  }

  lemma {:induction false} XorTwice(x: nat, y: nat)
    ensures Xor(Xor(x, y), y) == x
    decreases x + y
  {
    if x == 0 && y == 0 {
      assert Xor(0, 0) == 0;
    } else {
      hide Xor;
      XorTwice(x / 2, y / 2);
      XorHalf(x, y);
      XorHalf(Xor(x, y), y);
    }
  }

  lemma {:induction false} XorComm(x: nat, y: nat)
    ensures Xor(x, y) == Xor(y, x)
    decreases x + y
  {
    if x == 0 && y == 0 {
      BitwiseZero(XorBit);
    } else {
      hide Xor;
      XorComm(x / 2, y / 2);
      XorHalf(x, y);
      XorHalf(y, x);
    }
  }

  lemma {:induction false} XorAssoc(x: nat, y: nat, z: nat)
    ensures Xor(Xor(x, y), z) == Xor(x, Xor(y, z))
    decreases x + y + z
  {
    if x == 0 && y == 0 && z == 0 {
      BitwiseZero(XorBit);
    } else {
      hide Xor;
      XorAssoc(x / 2, y / 2, z / 2);
      XorHalf(x, y);
      XorHalf(y, z);
      XorHalf(Xor(x, y), z);
      XorHalf(x, Xor(y, z));
    }
  }

  lemma {:induction false} XorZero(x: nat)
    ensures Xor(0, x) == x
    decreases x
  {
    if x == 0 {
      BitwiseZero(XorBit);
    } else {
      hide Xor;
      XorZero(x / 2);
      XorHalf(0, x);
    }
  }

  lemma XorZeroRight(x: nat)
    ensures Xor(x, 0) == x
  {
    XorComm(x, 0);
    XorZero(x);
  }

  lemma {:induction false} XorSelf(x: nat)
    ensures Xor(x, x) == 0
    decreases x
  {
    if x == 0 {
      BitwiseZero(XorBit);
    } else {
      hide Xor;
      XorSelf(x / 2);
      XorHalf(x, x);
    }
  }

  /** Masking with 2^k - 1 keeps the remainder modulo 2^k. */
  lemma {:induction false} AndMask(x: nat, k: nat)
    ensures Pow(2, k) > 0 && And(x, Pow(2, k) - 1) == x % Pow(2, k)
    decreases k
  {
    PowPositive(2, k);
    if k == 0 {
      AndBelow(x, 0);
    } else {
      var p := Pow(2, k - 1);
      PowPositive(2, k - 1);
      AndMask(x / 2, k - 1);
      assert (2 * p - 1) / 2 == p - 1;
      DivDiv(x, 2, p);
      if x == 0 { AndBelow(0, Pow(2, k) - 1); }
    }
  }

  lemma {:induction false} OrZero(x: nat)
    ensures BitOr(x, 0) == x && BitOr(0, x) == x
    decreases x
  {
    if x != 0 { OrZero(x / 2); }
  }

  lemma AndOne(y: nat)
    ensures And(1, y) == y % 2
  {
    BitwiseDouble(AndBit, 1, 0, y % 2, y / 2);
    AndBelow(0, y / 2);
  }

  lemma SplitAnd(a: byte, b: byte, x: nat, y: nat)
    ensures And(a + 256 * x, b + 256 * y) == And(a, b) + 256 * And(x, y)
  {
    hide Pow, Bitwise;
    Pow2Widths();
    SplitAt(AndBit, 8, 256, a, b, x, y, 256 * x, 256 * y);
  }

  lemma {:induction false} OrIsZero(x: nat, y: nat)
    ensures BitOr(x, y) == 0 <==> x == 0 && y == 0
    decreases x + y
  {
    if x != 0 || y != 0 {
      OrIsZero(x / 2, y / 2);
      assert BitOr(x, y) == OrBit(x % 2, y % 2) + 2 * BitOr(x / 2, y / 2);
    } else {
      BitwiseZero(OrBit);
    }
  }

  lemma Pow2Widths()
    ensures Pow(2, 8) == 0x100 && Pow(2, 16) == 0x1_0000 && Pow(2, 32) == B32 && Pow(2, 64) == B64
  {
    assert Pow(2, 4) == 16;
    PowAdd(2, 4, 4);
    PowAdd(2, 8, 8);
    PowAdd(2, 16, 16);
    PowAdd(2, 32, 32);
  }

  /** A mask of all ones or all zeros chooses one of two words. */
  lemma SelectChooses(a: u64, b: u64)
    ensures Select64(a, b, 0) == a && Select64(a, b, ONES64) == b
  {
    hide And, BitOr, Pow;
    Pow2Widths();
    AndMask(a, 64);
    AndMask(b, 64);
    AndBelow(a, 0);
    AndBelow(b, 0);
    OrZero(a);
    OrZero(b);
  }

  lemma XorBelow(k: nat, x: nat, y: nat)
    requires x < Pow(2, k) && y < Pow(2, k)
    ensures Xor(x, y) < Pow(2, k)
  {
    BitwiseSplit(XorBit, k, x, y, 0, 0);
  }

  function Xor64(x: u64, y: u64): u64 { Pow2Widths(); XorBelow(64, x, y); Xor(x, y) }

  function Xor32(x: u32, y: u32): u32 { Pow2Widths(); XorBelow(32, x, y); Xor(x, y) }

  function XorByte(x: byte, y: byte): byte { Pow2Widths(); XorBelow(8, x, y); Xor(x, y) }

  /** Rotation to the left by k bits. */
  function Rotl32(x: u32, k: nat): (r: u32)
    requires k <= 32
  {
    RotlFits(x, k);
    Or(x / Pow(2, 32 - k), (x * Pow(2, k)) % B32, Pow(2, k))
  }

  lemma RotlFits(x: u32, k: nat)
    requires k <= 32
    ensures Pow(2, k) > 0 && Pow(2, 32 - k) > 0
    ensures 0 <= x / Pow(2, 32 - k) < Pow(2, k) && (x * Pow(2, k)) % B32 % Pow(2, k) == 0
    ensures 0 <= x / Pow(2, 32 - k) + (x * Pow(2, k)) % B32 < B32
  {
    hide Pow;
    var u, v := Pow(2, k), Pow(2, 32 - k);
    PowPositive(2, k);
    PowPositive(2, 32 - k);
    Pow2Widths();
    PowAdd(2, k, 32 - k);
    ShiftOut(x, u, v);
    TopBits(x, u, v);
  }

  lemma TopBits(x: nat, u: nat, v: nat)
    requires u > 0 && v > 0 && x < u * v
    ensures 0 <= x / v < u && 0 <= x / v + u * (x % v) < u * v
  {
    assert x == v * (x / v) + x % v;
    MulMono(u, x / v, v);
    MulMono(x / v, -1, v);
    MulMono(x % v, v - 1, u);
    MulMono(0, x % v, u);
  }
}
