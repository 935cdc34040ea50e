/** Small helpers of the transpiled Monocypher file. */
module MonoUtil {
  import opened Words
  import opened Bits

  /** (~x + 1) & (pow2 - 1) on 64-bit words. */
  function Gap(x: u64, pow2: u64): nat
    requires pow2 > 0
  {
    And((ONES64 - x + 1) % B64, pow2 - 1)
  }

  /** As documented, for the widths in use: the gap below pow2 that aligns x. */
  lemma GapAligns(x: u64, pow2: u64)
    requires pow2 == 8 || pow2 == 16 || pow2 == 128
    ensures 0 <= Gap(x, pow2) < pow2 && (x + Gap(x, pow2)) % pow2 == 0
  {
    hide And;
    var z := (ONES64 - x + 1) % B64;
    var k := if pow2 == 8 then 3 else if pow2 == 16 then 4 else 7;
    assert Pow(2, 3) == 8 && Pow(2, 4) == 16;
    PowAdd(2, 3, 4);
    AndMask(z, k);
    var e := if x == 0 then 0 else 1;
    assert x + z == e * B64;
    if pow2 == 8 {
      DivModUnique(x + z % 8, e * 0x2000_0000_0000_0000 - z / 8, 0, 8);
    } else if pow2 == 16 {
      DivModUnique(x + z % 16, e * 0x1000_0000_0000_0000 - z / 16, 0, 16);
    } else {
      DivModUnique(x + z % 128, e * 0x0200_0000_0000_0000 - z / 128, 0, 128);
    }
  }

  // --------------------------------------------------------- comparison

  lemma XorIsZero(x: nat, y: nat)
    ensures Xor(x, y) == 0 <==> x == y
  {
    hide Xor;
    XorTwice(x, y);
    XorZero(y);
    XorZeroRight(x);
    if Xor(x, y) == 0 { assert x == Xor(0, y) == y; }
    if x == y { XorSelf(x); }
  }

  lemma OrBelow(k: nat, x: nat, y: nat)
    requires x < Pow(2, k) && y < Pow(2, k)
    ensures BitOr(x, y) < Pow(2, k)
  {
    BitwiseSplit(OrBit, k, x, y, 0, 0);
  }

  /** 0 if the word is zero, otherwise -1, without a branch. */
  function Neq0(diff: u64): (r: int)
    ensures r == if diff == 0 then 0 else -1
  {
    Pow2Widths();
    OrIsZero(diff / B32, diff % B32);
    OrBelow(32, diff / B32, diff % B32);
    var half := BitOr(diff / B32, diff % B32);
    var eq0 := And(1, (half - 1) % B64 / B32);
    AndOne((half - 1) % B64 / B32);
    eq0 - 1
  }

  /** The differing bits of two 16-byte strings, gathered in one word. */
  function Differences16(a: seq<byte>, b: seq<byte>): (d: u64)
    requires |a| == 16 && |b| == 16
    ensures d == 0 <==> a == b
  {
    hide Val, Xor, BitOr;
    WordRange(a[..8]);
    WordRange(a[8..]);
    WordRange(b[..8]);
    WordRange(b[8..]);
    var x, y := Xor64(LE(a[..8]), LE(b[..8])), Xor64(LE(a[8..]), LE(b[8..]));
    Pow2Widths();
    OrBelow(64, x, y);
    OrIsZero(x, y);
    XorIsZero(LE(a[..8]), LE(b[..8]));
    XorIsZero(LE(a[8..]), LE(b[8..]));
    SameHalves(a, b);
    BitOr(x, y)
  }

  lemma SameHalves(a: seq<byte>, b: seq<byte>)
    requires |a| == 16 && |b| == 16
    ensures LE(a[..8]) == LE(b[..8]) && LE(a[8..]) == LE(b[8..]) <==> a == b
  {
    hide Val;
    if LE(a[..8]) == LE(b[..8]) && LE(a[8..]) == LE(b[8..]) {
      ValInjective(256, a[..8], b[..8]);
      ValInjective(256, a[8..], b[8..]);
      assert a == a[..8] + a[8..] && b == b[..8] + b[8..];
    }
  }

  /** 0 exactly for equal strings of 16 bytes, otherwise -1. */
  function Verify16(a: seq<byte>, b: seq<byte>): (r: int)
    requires |a| == 16 && |b| == 16
    ensures r == if a == b then 0 else -1
  {
    Neq0(Differences16(a, b))
  }

  /** The same for 32 bytes. */
  function Verify32(a: seq<byte>, b: seq<byte>): (r: int)
    requires |a| == 32 && |b| == 32
    ensures r == if a == b then 0 else -1
  {
    hide Differences16, BitOr;
    var x, y := Differences16(a[..16], b[..16]), Differences16(a[16..], b[16..]);
    Pow2Widths();
    OrBelow(64, x, y);
    OrIsZero(x, y);
    assert a == a[..16] + a[16..] && b == b[..16] + b[16..];
    Neq0(BitOr(x, y))
  }
}
