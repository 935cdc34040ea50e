/** Vector registers as fixed-length sequences of lanes. */
module Simd {
  import opened Words
  import opened Bits

  type U64x2 = v: seq<u64> | |v| == 2 witness [0, 0]
  type U64x4 = v: seq<u64> | |v| == 4 witness [0, 0, 0, 0]
  type U32x8 = v: seq<u32> | |v| == 8 witness [0, 0, 0, 0, 0, 0, 0, 0]

  function GetLo(v: U64x4): U64x2 { v[..2] }

  function GetHi(v: U64x4): U64x2 { v[2..] }

  /** SetLo and SetHi on one register. */
  function FromHalves(lo: U64x2, hi: U64x2): U64x4 { lo + hi }

  function InterleaveLo(x: U64x2, y: U64x2): U64x2 { [x[0], y[0]] }

  function InterleaveHi(x: U64x2, y: U64x2): U64x2 { [x[1], y[1]] }

  function Splat(x: u64): U64x4 { [x, x, x, x] }

  function AddLanes(x: U64x4, y: U64x4): U64x4 {
    seq(4, i requires 0 <= i < 4 => Add64(x[i], y[i]))
  }

  /** And with 2^k - 1, where unit == 2^k. */
  function MaskLanes(x: U64x4, unit: nat): U64x4
    requires 0 < unit <= B64
  {
    seq(4, i requires 0 <= i < 4 => x[i] % unit)
  }

  function ShiftRightLanes(x: U64x4, unit: nat): U64x4
    requires 0 < unit
  {
    seq(4, i requires 0 <= i < 4 => QuotientWord(x[i], unit))
  }

  function ShiftLeftLanes(x: U64x4, unit: nat): U64x4 {
    seq(4, i requires 0 <= i < 4 => (x[i] * unit) % B64)
  }

  function QuotientWord(x: u64, unit: nat): u64
    requires 0 < unit
  {
    QuotientBelow(x, unit);
    x / unit
  }

  lemma QuotientBelow(x: nat, unit: nat)
    requires 0 < unit
    ensures 0 <= x / unit <= x
  {
    assert x == unit * (x / unit) + x % unit;
    var q := x / unit;
    MulMono(q, -1, unit);
    MulMono(1, unit, q);
  }

  /** Lane-wise Or of lanes without a common bit. */
  function OrLanes(x: U64x4, y: U64x4, unit: nat): U64x4
    requires unit > 0
    requires forall i :: 0 <= i < 4 ==> x[i] < unit && y[i] % unit == 0 && x[i] + y[i] < B64
  {
    seq(4, i requires 0 <= i < 4 => Or(x[i], y[i], unit))
  }

  /** Each 64-bit lane as its low and high 32-bit halves. */
  function Reshape(v: U64x4): U32x8 {
    seq(8, i requires 0 <= i < 8 => if i % 2 == 0 then v[i / 2] % B32 else v[i / 2] / B32)
  }

  /** Products of the even 32-bit lanes, 64 bits wide. */
  function MulWidenEven(a: U32x8, b: U32x8): U64x4 {
    seq(4, i requires 0 <= i < 4 => WideWord(a[2 * i], b[2 * i]))
  }

  function WideWord(a: u32, b: u32): (p: u64)
    ensures p == a * b
  {
    MulMono(a, B32 - 1, b);
    MulMono(0, a, b);
    a * b
  }

  // vectors of 32-bit lanes, 4 or 8 of them

  function Add32Lanes(x: seq<u32>, y: seq<u32>): (z: seq<u32>)
    requires |x| == |y|
    ensures |z| == |x|
  {
    seq(|x|, i requires 0 <= i < |x| => Add32(x[i], y[i]))
  }

  function Xor32Lanes(x: seq<u32>, y: seq<u32>): (z: seq<u32>)
    requires |x| == |y|
    ensures |z| == |x|
  {
    seq(|x|, i requires 0 <= i < |x| => Xor32(x[i], y[i]))
  }

  function RotateAllLeft(x: seq<u32>, k: nat): (z: seq<u32>)
    requires k <= 32
    ensures |z| == |x|
  {
    seq(|x|, i requires 0 <= i < |x| => Rotl32(x[i], k))
  }

  /** The same permutation of four lanes in each 128-bit group. */
  function PermuteScalarsGrouped(v: seq<u32>, a: nat, b: nat, c: nat, d: nat): (z: seq<u32>)
    requires |v| % 4 == 0 && a < 4 && b < 4 && c < 4 && d < 4
    ensures |z| == |v|
  {
    seq(|v|, i requires 0 <= i < |v| => v[i / 4 * 4 + [a, b, c, d][i % 4]])
  }
}
