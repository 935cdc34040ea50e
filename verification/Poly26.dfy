/** The 5 x 26-bit limb engines: the four-lane vector engine and the serial one. */
module Poly26 {
  import opened Words
  import opened Bits
  import opened Poly1305Spec

  const B26 := 0x400_0000
  const B52 := 0x10_0000_0000_0000
  const B78 := 0x4000_0000_0000_0000_0000
  const B104 := 0x100_0000_0000_0000_0000_0000_0000

  datatype Five = Five(l0: u64, l1: u64, l2: u64, l3: u64, l4: u64)

  function Value(h: Five): int { h.l0 + B26 * h.l1 + B52 * h.l2 + B78 * h.l3 + B104 * h.l4 }

  /** What every carry pass leaves: only limb 1 may keep a small excess. */
  ghost predicate Reduced(h: Five) {
    h.l0 < B26 && h.l1 <= B26 + 0x40_0000 && h.l2 < B26 && h.l3 < B26 && h.l4 < B26
  }

  /** What a multiplication accepts. */
  ghost predicate Loaded(h: Five) {
    h.l0 < 4 * B26 && h.l1 < 4 * B26 && h.l2 < 4 * B26 && h.l3 < 4 * B26 && h.l4 < 4 * B26
  }

  /** Products and sums that stay inside 64 bits through all the carries. */
  ghost predicate Small(d: Five) {
    && d.l0 < 0x1000_0000_0000_0000 && d.l1 < 0x1000_0000_0000_0000 && d.l2 < 0x1000_0000_0000_0000
    && d.l3 < 0x1000_0000_0000_0000 && d.l4 < 0x1000_0000_0000_0000
  }

  function AddFive(x: Five, y: Five): Five {
    Five(Add64(x.l0, y.l0), Add64(x.l1, y.l1), Add64(x.l2, y.l2), Add64(x.l3, y.l3), Add64(x.l4, y.l4))
  }

  function Carry26(d: Five): Five {
    var d1 := Add64(d.l1, d.l0 / B26);
    var d2 := Add64(d.l2, d1 / B26);
    var d3 := Add64(d.l3, d2 / B26);
    var d4 := Add64(d.l4, d3 / B26);
    var h0 := Add64(d.l0 % B26, Mul64(d4 / B26, 5));
    Five(h0 % B26, Add64(d1 % B26, h0 / B26), d2 % B26, d3 % B26, d4 % B26)
  }

  function Dot5(a: Five, b0: u64, b1: u64, b2: u64, b3: u64, b4: u64): u64 {
    Add64(Add64(Add64(Add64(Mul64(a.l0, b0), Mul64(a.l1, b1)), Mul64(a.l2, b2)), Mul64(a.l3, b3)), Mul64(a.l4, b4))
  }

  /** The five column sums of a product, with the wrapped columns times 5. */
  function Columns(a: Five, b: Five): Five {
    var s1, s2, s3, s4 := Mul64(b.l1, 5), Mul64(b.l2, 5), Mul64(b.l3, 5), Mul64(b.l4, 5);
    Five(Dot5(a, b.l0, s4, s3, s2, s1),
         Dot5(a, b.l1, b.l0, s4, s3, s2),
         Dot5(a, b.l2, b.l1, b.l0, s4, s3),
         Dot5(a, b.l3, b.l2, b.l1, b.l0, s4),
         Dot5(a, b.l4, b.l3, b.l2, b.l1, b.l0))
  }

  function Mul26(a: Five, b: Five): Five { Carry26(Columns(a, b)) }

  // ------------------------------------------------------------- arithmetic

  lemma CarryExact(d: Five, d1: int, d2: int, d3: int, d4: int, h0: int)
    requires Small(d)
    requires d1 == d.l1 + d.l0 / B26 && d2 == d.l2 + d1 / B26 && d3 == d.l3 + d2 / B26 && d4 == d.l4 + d3 / B26
    requires h0 == d.l0 % B26 + 5 * (d4 / B26)
    ensures 0 <= h0 / B26 <= 0x40_0000
    ensures Carry26(d) == Five(h0 % B26, d1 % B26 + h0 / B26, d2 % B26, d3 % B26, d4 % B26)
  {
    hide Add64, Mul64;
    CarryBounds(d.l0, d.l1, d1);
    NoWrap(d.l1, d.l0 / B26);
    CarryBounds(d1, d.l2, d2);
    NoWrap(d.l2, d1 / B26);
    CarryBounds(d2, d.l3, d3);
    NoWrap(d.l3, d2 / B26);
    CarryBounds(d3, d.l4, d4);
    NoWrap(d.l4, d3 / B26);
    FiveTimes(d4 / B26);
    NoWrap(d.l0 % B26, 5 * (d4 / B26));
    NoWrap(d1 % B26, h0 / B26);
  }

  lemma CarryBounds(x: int, y: int, z: int)
    requires 0 <= x < 0x1800_0000_0000_0000 && 0 <= y < 0x1000_0000_0000_0000 && z == y + x / B26
    ensures 0 <= x / B26 < 0x80_0000_0000 && 0 <= z < 0x1800_0000_0000_0000
  {}

  lemma FiveTimes(c: int)
    requires 0 <= c < 0x80_0000_0000
    ensures Mul64(c, 5) == 5 * c
  {}

  lemma CarryReduces(d: Five)
    requires Small(d)
    ensures Reduced(Carry26(d)) && Cong(Value(Carry26(d)), Value(d), P)
  {
    hide Carry26, Cong;
    var d1 := d.l1 + d.l0 / B26;
    var d2 := d.l2 + d1 / B26;
    var d3 := d.l3 + d2 / B26;
    var d4 := d.l4 + d3 / B26;
    CarryExact(d, d1, d2, d3, d4, d.l0 % B26 + 5 * (d4 / B26));
    CongBy(Value(Carry26(d)), Value(d), -(d4 / B26), P);
  }

  lemma Dot5Exact(a: Five, b0: u64, b1: u64, b2: u64, b3: u64, b4: u64)
    requires Loaded(a)
    requires b0 < 0x2800_0000 && b1 < 0x2800_0000 && b2 < 0x2800_0000 && b3 < 0x2800_0000 && b4 < 0x2800_0000
    ensures Dot5(a, b0, b1, b2, b3, b4) == a.l0 * b0 + a.l1 * b1 + a.l2 * b2 + a.l3 * b3 + a.l4 * b4
    ensures Dot5(a, b0, b1, b2, b3, b4) < 0x0D00_0000_0000_0000
  {
    hide Mul64, Add64;
    SmallProduct(a.l0, b0);
    SmallProduct(a.l1, b1);
    SmallProduct(a.l2, b2);
    SmallProduct(a.l3, b3);
    SmallProduct(a.l4, b4);
    Sum5(Mul64(a.l0, b0), Mul64(a.l1, b1), Mul64(a.l2, b2), Mul64(a.l3, b3), Mul64(a.l4, b4));
  }

  lemma Sum5(p0: u64, p1: u64, p2: u64, p3: u64, p4: u64)
    requires p0 < 40 * B52 && p1 < 40 * B52 && p2 < 40 * B52 && p3 < 40 * B52 && p4 < 40 * B52
    ensures Add64(Add64(Add64(Add64(p0, p1), p2), p3), p4) == p0 + p1 + p2 + p3 + p4
  {
    hide Add64;
    NoWrap(p0, p1);
    NoWrap(p0 + p1, p2);
    NoWrap(p0 + p1 + p2, p3);
    NoWrap(p0 + p1 + p2 + p3, p4);
  }

  lemma SmallProduct(a: u64, b: u64)
    requires a < 4 * B26 && b < 0x2800_0000
    ensures 0 <= a * b < 40 * B52 && Mul64(a, b) == a * b
  {
    MulMono(a, 4 * B26, b);
    MulMono(0, a, b);
    MulMono(b, 0x2800_0000, 4 * B26);
  }

  lemma Expand5(a: int, b0: int, b1: int, b2: int, b3: int, b4: int)
    ensures a * (b0 + B26 * b1 + B52 * b2 + B78 * b3 + B104 * b4)
         == a * b0 + B26 * (a * b1) + B52 * (a * b2) + B78 * (a * b3) + B104 * (a * b4)
  {}

  lemma Times5(a: int, b: int)
    ensures a * (5 * b) == 5 * (a * b)
  {}

  /** The product of two limb numbers by columns, plus a multiple of P. */
  lemma Products(a: Five, b: Five) returns (q: int)
    ensures Value(a) * Value(b)
         == (a.l0 * b.l0 + a.l1 * (5 * b.l4) + a.l2 * (5 * b.l3) + a.l3 * (5 * b.l2) + a.l4 * (5 * b.l1))
          + B26 * (a.l0 * b.l1 + a.l1 * b.l0 + a.l2 * (5 * b.l4) + a.l3 * (5 * b.l3) + a.l4 * (5 * b.l2))
          + B52 * (a.l0 * b.l2 + a.l1 * b.l1 + a.l2 * b.l0 + a.l3 * (5 * b.l4) + a.l4 * (5 * b.l3))
          + B78 * (a.l0 * b.l3 + a.l1 * b.l2 + a.l2 * b.l1 + a.l3 * b.l0 + a.l4 * (5 * b.l4))
          + B104 * (a.l0 * b.l4 + a.l1 * b.l3 + a.l2 * b.l2 + a.l3 * b.l1 + a.l4 * b.l0)
          + q * P
  {
    Row0(a.l0, b);
    Row1(a.l1, b);
    Row2(a.l2, b);
    Row3(a.l3, b);
    Row4(a.l4, b);
    SumTimes5(a, Value(b));
    q := (a.l1 * b.l4) + (a.l2 * b.l3 + B26 * (a.l2 * b.l4))
       + (a.l3 * b.l2 + B26 * (a.l3 * b.l3) + B52 * (a.l3 * b.l4))
       + (a.l4 * b.l1 + B26 * (a.l4 * b.l2) + B52 * (a.l4 * b.l3) + B78 * (a.l4 * b.l4));
  }

  lemma SumTimes5(a: Five, v: int)
    ensures Value(a) * v == a.l0 * v + B26 * (a.l1 * v) + B52 * (a.l2 * v) + B78 * (a.l3 * v) + B104 * (a.l4 * v)
  {
    Expand5(v, a.l0, a.l1, a.l2, a.l3, a.l4);
  }

  /** One row of the product, limb j at its weight. */
  lemma Row0(s: int, b: Five)
    ensures s * Value(b) == s * b.l0 + B26 * (s * b.l1) + B52 * (s * b.l2) + B78 * (s * b.l3) + B104 * (s * b.l4)
  {
    Expand5(s, b.l0, b.l1, b.l2, b.l3, b.l4);
  }

  lemma Row1(s: int, b: Five)
    ensures B26 * (s * Value(b)) == s * (5 * b.l4) + B26 * (s * b.l0) + B52 * (s * b.l1) + B78 * (s * b.l2) + B104 * (s * b.l3)
      + ((s * b.l4)) * P
  {
    Expand5(s, b.l0, b.l1, b.l2, b.l3, b.l4);
    Times5(s, b.l4);
  }

  lemma Row2(s: int, b: Five)
    ensures B52 * (s * Value(b)) == s * (5 * b.l3) + B26 * (s * (5 * b.l4)) + B52 * (s * b.l0) + B78 * (s * b.l1) + B104 * (s * b.l2)
      + ((s * b.l3) + B26 * (s * b.l4)) * P
  {
    Expand5(s, b.l0, b.l1, b.l2, b.l3, b.l4);
    Times5(s, b.l3);
    Times5(s, b.l4);
  }

  lemma Row3(s: int, b: Five)
    ensures B78 * (s * Value(b)) == s * (5 * b.l2) + B26 * (s * (5 * b.l3)) + B52 * (s * (5 * b.l4)) + B78 * (s * b.l0) + B104 * (s * b.l1)
      + ((s * b.l2) + B26 * (s * b.l3) + B52 * (s * b.l4)) * P
  {
    Expand5(s, b.l0, b.l1, b.l2, b.l3, b.l4);
    Times5(s, b.l2);
    Times5(s, b.l3);
    Times5(s, b.l4);
  }

  lemma Row4(s: int, b: Five)
    ensures B104 * (s * Value(b)) == s * (5 * b.l1) + B26 * (s * (5 * b.l2)) + B52 * (s * (5 * b.l3)) + B78 * (s * (5 * b.l4)) + B104 * (s * b.l0)
      + ((s * b.l1) + B26 * (s * b.l2) + B52 * (s * b.l3) + B78 * (s * b.l4)) * P
  {
    Expand5(s, b.l0, b.l1, b.l2, b.l3, b.l4);
    Times5(s, b.l1);
    Times5(s, b.l2);
    Times5(s, b.l3);
    Times5(s, b.l4);
  }

  lemma ColumnsCorrect(a: Five, b: Five)
    requires Loaded(a) && Reduced(b)
    ensures Columns(a, b).l0 < 0x0D00_0000_0000_0000 && Columns(a, b).l1 < 0x0D00_0000_0000_0000
         && Columns(a, b).l2 < 0x0D00_0000_0000_0000 && Columns(a, b).l3 < 0x0D00_0000_0000_0000
         && Columns(a, b).l4 < 0x0D00_0000_0000_0000
    ensures Cong(Value(Columns(a, b)), Value(a) * Value(b), P)
  {
    hide Dot5, Cong, Mul64;
    var s1, s2, s3, s4 := 5 * b.l1, 5 * b.l2, 5 * b.l3, 5 * b.l4;
    FiveTimes(b.l1);
    FiveTimes(b.l2);
    FiveTimes(b.l3);
    FiveTimes(b.l4);
    Dot5Exact(a, b.l0, s4, s3, s2, s1);
    Dot5Exact(a, b.l1, b.l0, s4, s3, s2);
    Dot5Exact(a, b.l2, b.l1, b.l0, s4, s3);
    Dot5Exact(a, b.l3, b.l2, b.l1, b.l0, s4);
    Dot5Exact(a, b.l4, b.l3, b.l2, b.l1, b.l0);
    var q := Products(a, b);
    CongBy(Value(Columns(a, b)), Value(a) * Value(b), -q, P);
  }

  lemma Mul26Correct(a: Five, b: Five)
    requires Loaded(a) && Reduced(b)
    ensures Reduced(Mul26(a, b)) && Cong(Value(Mul26(a, b)), Value(a) * Value(b), P)
  {
    hide Columns, Carry26, Cong, Value;
    ColumnsCorrect(a, b);
    CarryReduces(Columns(a, b));
    CongTrans(Value(Mul26(a, b)), Value(Columns(a, b)), Value(a) * Value(b), P);
  }

  // ----------------------------------------------------------------- blocks

  /** The 16-byte number t1:t0 in limbs. */
  function Unpack(t0: u64, t1: u64): (h: Five)
    ensures Value(h) == t0 + B64 * t1
    ensures h.l0 < B26 && h.l1 < B26 && h.l2 < B26 && h.l3 < B26 && h.l4 < 0x100_0000
  {
    ShiftOut(t1, 0x1000, B52);
    UnpackMiddle(t0, t1);
    UnpackNumber(t0, t1);
    Five(t0 % B26, (t0 / B26) % B26, Or(t0 / B52, (t1 * 0x1000) % B64, 0x1000) % B26,
         (t1 / 0x4000) % B26, (t1 / 0x100_0000_0000) % B26)
  }

  lemma UnpackNumber(t0: u64, t1: u64)
    ensures t0 == t0 % B26 + B26 * (t0 / B26 % B26) + B52 * (t0 / B52)
    ensures t1 == t1 % 0x4000 + 0x4000 * (t1 / 0x4000 % B26) + 0x100_0000_0000 * (t1 / 0x100_0000_0000 % B26)
    ensures t1 / 0x100_0000_0000 % B26 < 0x100_0000
  {
    DivDiv(t0, B26, B26);
    DivDiv(t1, 0x4000, B26);
    DivModUnique(t1 / 0x100_0000_0000, 0, t1 / 0x100_0000_0000, B26);
  }

  lemma UnpackMiddle(t0: u64, t1: u64)
    ensures t0 / B52 < 0x1000 && 0x1000 * (t1 % B52) >= 0
    ensures (t0 / B52 + 0x1000 * (t1 % B52)) % B26 == t0 / B52 + 0x1000 * (t1 % 0x4000)
  {
    DivDiv(t1, 0x4000, 0x40_0000_0000);
    var t, b := t1 % 0x4000, t1 / 0x4000 % 0x40_0000_0000;
    DivModUnique(t0 / B52 + 0x1000 * (t1 % B52), b, t0 / B52 + 0x1000 * t, B26);
  }

  /** A block of 16 bytes with or without the bit 2^128. */
  function BlockLimbs(b: seq<byte>, full: bool): (h: Five)
    requires |b| == 16
    ensures Value(h) == LE(b) + if full then B128 else 0
    ensures h.l0 < B26 && h.l1 < B26 && h.l2 < B26 && h.l3 < B26 && h.l4 < B26
  {
    BlockWords(b);
    var h := Unpack(LE(b[..8]), LE(b[8..]));
    if full then h.(l4 := Or(h.l4, 0x100_0000, 0x100_0000)) else h
  }

  function BlockStep(h: Five, b: seq<byte>, full: bool, r: Five): Five
    requires |b| == 16
  {
    Mul26(AddFive(h, BlockLimbs(b, full)), r)
  }

  lemma AddExact(x: Five, y: Five)
    requires Small(x) && Small(y)
    ensures Value(AddFive(x, y)) == Value(x) + Value(y)
    ensures AddFive(x, y) == Five(x.l0 + y.l0, x.l1 + y.l1, x.l2 + y.l2, x.l3 + y.l3, x.l4 + y.l4)
  {
    hide Add64;
    NoWrap(x.l0, y.l0);
    NoWrap(x.l1, y.l1);
    NoWrap(x.l2, y.l2);
    NoWrap(x.l3, y.l3);
    NoWrap(x.l4, y.l4);
  }

  ghost predicate IsKey(k: Five, r: int, e: nat) { Reduced(k) && Cong(Value(k), Pow(r, e), P) }

  lemma BlockStepCorrect(h: Five, r: int, b: seq<byte>, full: bool, k: Five)
    requires |b| == 16 && IsKey(k, r, 1) && Reduced(h)
    ensures Reduced(BlockStep(h, b, full, k))
    ensures Cong(Value(BlockStep(h, b, full, k)), ((Value(h) + LE(b) + if full then B128 else 0) * r) % P, P)
  {
    hide Cong, Value, Mul26, BlockLimbs, AddFive;
    var y := BlockLimbs(b, full);
    var s := AddFive(h, y);
    AddExact(h, y);
    Mul26Correct(s, k);
    assert Pow(r, 1) == r;
    CongSame(Value(s), P);
    CongMul(Value(s), Value(s), Value(k), r, P);
    CongTrans(Value(Mul26(s, k)), Value(s) * Value(k), Value(s) * r, P);
    CongMod(Value(s) * r, P);
    CongVia(Value(Mul26(s, k)), Value(s) * r, (Value(s) * r) % P, P);
  }

  ghost predicate UpTo(h: Five, r: int, total: seq<byte>, rest: seq<byte>) {
    Reduced(h) && Absorbed(Value(h), r, total, rest)
  }

  lemma UpToExtend(h: Five, r: int, total: seq<byte>, rest: seq<byte>, more: seq<byte>)
    requires UpTo(h, r, total, rest)
    ensures UpTo(h, r, total + more, rest + more)
  {
    AbsorbedExtend(Value(h), r, total, rest, more);
  }

  lemma UpToAll(h: Five, r: int, total: seq<byte>, rest: seq<byte>)
    requires UpTo(h, r, total, rest) && rest == []
    ensures Reduced(h) && Cong(Value(h), Horner(0, r, total), P)
  {
    AbsorbedAll(Value(h), r, total);
  }

  lemma BlockAdvances(h: Five, r: int, k: Five, total: seq<byte>, rest: seq<byte>)
    requires |rest| >= 16 && IsKey(k, r, 1) && UpTo(h, r, total, rest)
    ensures UpTo(BlockStep(h, rest[..16], true, k), r, total, rest[16..])
  {
    hide Cong, Value, BlockStep, Reduced, Absorbed, IsKey;
    BlockStepCorrect(h, r, rest[..16], true, k);
    Pow256();
    HornerBlock(Value(h), r, rest[..16]);
    AbsorbedStep(Value(h), Value(BlockStep(h, rest[..16], true, k)), r, total, rest, 16);
  }

  /** The last, short block: a one byte, zeros, and no bit 2^128. */
  function LastStep(h: Five, rem: seq<byte>, r: Five): Five
    requires |rem| < 16
  {
    BlockStep(h, Padded(rem), false, r)
  }

  lemma LastAdvances(h: Five, r: int, k: Five, total: seq<byte>, rem: seq<byte>)
    requires 0 < |rem| < 16 && IsKey(k, r, 1) && UpTo(h, r, total, rem)
    ensures Reduced(LastStep(h, rem, k)) && Cong(Value(LastStep(h, rem, k)), Horner(0, r, total), P)
  {
    hide Cong, Value, BlockStep, Reduced, Absorbed, IsKey, Padded;
    PaddedIsBlock(rem);
    BlockStepCorrect(h, r, Padded(rem), false, k);
    HornerBlock(Value(h), r, rem);
    assert rem[..|rem|] == rem;
    AbsorbedStep(Value(h), Value(LastStep(h, rem, k)), r, total, rem, |rem|);
  }

  // ----------------------------------------------------------------- finish

  ghost predicate Canonical(h: Five) {
    h.l0 < B26 && h.l1 < B26 && h.l2 < B26 && h.l3 < B26 && h.l4 < B26
  }

  /** If the carry leaves the top limb, every limb it rippled through was
      emptied by it, so one pass suffices. */
  lemma OnePassCanonical(h: Five)
    requires Reduced(h)
    ensures Canonical(Carry26(h)) && Cong(Value(Carry26(h)), Value(h), P)
  {
    hide Carry26, Cong, Value;
    CarryReduces(h);
    var d2 := h.l2 + h.l1 / B26;
    var d3 := h.l3 + d2 / B26;
    var d4 := h.l4 + d3 / B26;
    CarryExact(h, h.l1, d2, d3, d4, h.l0 % B26 + 5 * (d4 / B26));
    assert h.l1 / B26 <= 1 && d2 / B26 <= 1 && d3 / B26 <= 1 && d4 / B26 <= 1;
    assert d4 / B26 == 1 ==> h.l1 >= B26;
  }

  /** Trial addition of 5; the mask is 0 - (g4 >> 26). */
  function Subtract(h: Five): (nat, nat, nat, nat, nat)
    requires Canonical(h)
  {
    var g0 := h.l0 + 5;
    var g1 := h.l1 + g0 / B26;
    var g2 := h.l2 + g1 / B26;
    var g3 := h.l3 + g2 / B26;
    var g4 := h.l4 + g3 / B26;
    var mask := (0 - g4 / B26) % B64;
    (Select64(h.l0, g0 % B26, mask), Select64(h.l1, g1 % B26, mask), Select64(h.l2, g2 % B26, mask),
     Select64(h.l3, g3 % B26, mask), Select64(h.l4, g4 % B26, mask))
  }

  lemma SubtractChooses(h: Five, g0: int, g1: int, g2: int, g3: int, g4: int)
    requires Canonical(h)
    requires g0 == h.l0 + 5 && g1 == h.l1 + g0 / B26 && g2 == h.l2 + g1 / B26
    requires g3 == h.l3 + g2 / B26 && g4 == h.l4 + g3 / B26
    ensures g4 / B26 == 1 ==> Subtract(h) == (g0 % B26, g1 % B26, g2 % B26, g3 % B26, g4 % B26)
    ensures g4 / B26 == 0 ==> Subtract(h) == (h.l0, h.l1, h.l2, h.l3, h.l4)
  {
    hide Select64;
    SelectChooses(h.l0, g0 % B26);
    SelectChooses(h.l1, g1 % B26);
    SelectChooses(h.l2, g2 % B26);
    SelectChooses(h.l3, g3 % B26);
    SelectChooses(h.l4, g4 % B26);
    MaskOf(0);
    MaskOf(1);
  }

  lemma SubtractReduces(h: Five)
    requires Canonical(h)
    ensures var (u0, u1, u2, u3, u4) := Subtract(h);
      u0 < B26 && u1 < B26 && u2 < B26 && u3 < B26 && u4 < B26
      && u0 + B26 * u1 + B52 * u2 + B78 * u3 + B104 * u4 == Value(h) % P
  {
    hide Subtract;
    var g0 := h.l0 + 5;
    var g1 := h.l1 + g0 / B26;
    var g2 := h.l2 + g1 / B26;
    var g3 := h.l3 + g2 / B26;
    var g4 := h.l4 + g3 / B26;
    TrialAddition(h.l0, h.l1, h.l2, h.l3, h.l4, g0, g1, g2, g3, g4);
    SubtractChooses(h, g0, g1, g2, g3, g4);
  }

  lemma MaskOf(c: int)
    requires c == 0 || c == 1
    ensures (0 - c) % B64 == if c == 1 then ONES64 else 0
  {}

  lemma TrialAddition(l0: int, l1: int, l2: int, l3: int, l4: int, g0: int, g1: int, g2: int, g3: int, g4: int)
    requires 0 <= l0 < B26 && 0 <= l1 < B26 && 0 <= l2 < B26 && 0 <= l3 < B26 && 0 <= l4 < B26
    requires g0 == l0 + 5 && g1 == l1 + g0 / B26 && g2 == l2 + g1 / B26 && g3 == l3 + g2 / B26 && g4 == l4 + g3 / B26
    ensures var v := l0 + B26 * l1 + B52 * l2 + B78 * l3 + B104 * l4;
      var t := g0 % B26 + B26 * (g1 % B26) + B52 * (g2 % B26) + B78 * (g3 % B26) + B104 * (g4 % B26);
      if v >= P then g4 / B26 == 1 && v % P == t else g4 / B26 == 0 && v % P == v
  {
    var v := l0 + B26 * l1 + B52 * l2 + B78 * l3 + B104 * l4;
    var t := g0 % B26 + B26 * (g1 % B26) + B52 * (g2 % B26) + B78 * (g3 % B26) + B104 * (g4 % B26);
    assert v + 5 == t + 4 * B128 * (g4 / B26);
    DivModUnique(v, if v >= P then 1 else 0, if v >= P then v - P else v, P);
  }

  /** The low 128 bits of five canonical limbs as two words. */
  function Pack(u0: nat, u1: nat, u2: nat, u3: nat, u4: nat): (w: (u64, u64))
    requires u0 < B26 && u1 < B26 && u2 < B26 && u3 < B26 && u4 < B26
    ensures w.0 + B64 * w.1 == (u0 + B26 * u1 + B52 * u2 + B78 * u3 + B104 * u4) % B128
  {
    ShiftOut(u4, 0x100_0000_0000, 0x100_0000);
    PackNumber(u0, u1, u2, u3, u4);
    (Or(Or(u0, u1 * B26, B26), (u2 % 0x1000) * B52, B52),
     Or(Or(u2 / 0x1000, u3 * 0x4000, 0x4000), (u4 * 0x100_0000_0000) % B64, 0x100_0000_0000))
  }

  lemma PackNumber(u0: nat, u1: nat, u2: nat, u3: nat, u4: nat)
    requires u0 < B26 && u1 < B26 && u2 < B26 && u3 < B26 && u4 < B26
    ensures (u0 + B26 * u1 + B52 * u2 + B78 * u3 + B104 * u4) % B128
         == u0 + B26 * u1 + B52 * (u2 % 0x1000)
          + B64 * (u2 / 0x1000 + 0x4000 * u3 + 0x100_0000_0000 * (u4 % 0x100_0000))
  {
    var low := u0 + B26 * u1 + B52 * u2 + B78 * u3;
    DivModUnique(low + B104 * u4, u4 / 0x100_0000, low + B104 * (u4 % 0x100_0000), B128);
  }

  function FinishBytes(h: Five, p0: u64, p1: u64): seq<byte>
    requires Reduced(h)
  {
    OnePassCanonical(h);
    SubtractReduces(Carry26(h));
    var (u0, u1, u2, u3, u4) := Subtract(Carry26(h));
    var (w0, w1) := Pack(u0, u1, u2, u3, u4);
    WithPad(w0, w1, p0, p1)
  }

  lemma FinishIsTag(h: Five, key: Key, m: seq<byte>)
    requires Reduced(h) && Cong(Value(h), Horner(0, Multiplier(key), m), P)
    ensures FinishBytes(h, PadLow(key), PadHigh(key)) == Tag(key, m)
  {
    hide Carry26, Subtract, Pack, WithPad, Tag, Value, Horner;
    var x := Horner(0, Multiplier(key), m);
    OnePassCanonical(h);
    SubtractReduces(Carry26(h));
    HornerRange(0, Multiplier(key), m);
    DivModUnique(x, 0, x, P);
    var (u0, u1, u2, u3, u4) := Subtract(Carry26(h));
    var (w0, w1) := Pack(u0, u1, u2, u3, u4);
    TagFromWords(key, m, w0, w1);
  }

  /** The clamped multiplier in limbs. */
  function KeyLimbs(key: Key): Five {
    ClampWords(key);
    Unpack(And(LE(key[..8]), 0x0ffffffc_0fffffff), And(LE(key[8..16]), 0x0ffffffc_0ffffffc))
  }

  lemma KeyLimbsIsKey(key: Key)
    ensures Reduced(KeyLimbs(key)) && IsKey(KeyLimbs(key), Multiplier(key), 1)
  {
    hide Unpack, And, Multiplier;
    ClampWords(key);
    assert Pow(Multiplier(key), 1) == Multiplier(key);
    assert Value(KeyLimbs(key)) == Multiplier(key);
  }
}
