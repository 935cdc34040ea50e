/** The 3 x 44-bit limb engine: key powers r^1 .. r^16 and tiers of 16, 8, 4
    and 1 blocks per step. */
module Poly44 {
  import opened Words
  import opened Bits
  import opened Poly1305Spec
  import opened Buffers

  const B44 := 0x1000_0000_0000
  const B42 := 0x400_0000_0000
  const B88 := 0x1_00_0000_0000_0000_0000_0000

  datatype Limbs = Limbs(l0: u64, l1: u64, l2: u64)

  datatype Key44 = Key44(r: Limbs, s1: u64, s2: u64)

  function Value(h: Limbs): int { h.l0 + B44 * h.l1 + B88 * h.l2 }

  /** What every multiplication and every tier leaves behind. */
  ghost predicate Reduced(h: Limbs) { h.l0 < B44 && h.l1 <= B44 + 0x4000 && h.l2 < B42 }

  /** What a multiplication accepts: a reduced value plus one block. */
  ghost predicate Loaded(h: Limbs) { h.l0 < 2 * B44 && h.l1 < 3 * B44 && h.l2 < 2 * B42 }

  ghost predicate IsKey(k: Key44) {
    Reduced(k.r) && k.s1 == 20 * k.r.l1 && k.s2 == 20 * k.r.l2
  }

  function MakeKey(r: Limbs): Key44 { Key44(r, Mul64(r.l1, 20), Mul64(r.l2, 20)) }

  lemma MakeKeyIsKey(r: Limbs)
    requires Reduced(r)
    ensures IsKey(MakeKey(r))
  {}

  // ---------------------------------------------------- 128-bit accumulation

  /** A 128-bit number in two words. */
  datatype Wide = Wide(hi: u64, lo: u64)

  function MulWide(a: u64, b: u64): (w: Wide)
    ensures B64 * w.hi + w.lo == a * b
  {
    WideProduct(a, b);
    Wide(a * b / B64, a * b % B64)
  }

  lemma WideProduct(a: u64, b: u64)
    ensures 0 <= a * b / B64 < B64
  {
    MulMono(a, B64 - 1, b);
    MulMono(0, a, b);
  }

  /** Add with carry, the carry out of the high words dropped. */
  function AddWide(x: Wide, y: Wide): Wide {
    var carry := (x.lo + y.lo) / B64;
    Wide((x.hi + y.hi + carry) % B64, Add64(x.lo, y.lo))
  }

  function Dot(a0: u64, b0: u64, a1: u64, b1: u64, a2: u64, b2: u64): Wide {
    AddWide(AddWide(MulWide(a0, b0), MulWide(a1, b1)), MulWide(a2, b2))
  }

  /** Bits k and up of a wide number, as one word: (lo >> k) | (hi << (64 - k)). */
  function Carry44(d: Wide): u64 {
    ShiftOut(d.hi, 0x10_0000, B44);
    Or(d.lo / B44, (d.hi * 0x10_0000) % B64, 0x10_0000)
  }

  function Carry42(d: Wide): u64 {
    ShiftOut(d.hi, 0x40_0000, B42);
    Or(d.lo / B42, (d.hi * 0x40_0000) % B64, 0x40_0000)
  }

  /** h * r modulo 2^130 - 5, up to a small excess in the middle limb. */
  function Mul44(h: Limbs, k: Key44): Limbs {
    var d0 := Dot(h.l0, k.r.l0, h.l1, k.s2, h.l2, k.s1);
    var d1 := Dot(h.l0, k.r.l1, h.l1, k.r.l0, h.l2, k.s2);
    var d2 := Dot(h.l0, k.r.l2, h.l1, k.r.l1, h.l2, k.r.l0);
    Propagate(d0, d1, d2)
  }

  function Propagate(d0: Wide, d1: Wide, d2: Wide): Limbs {
    var e1 := AddWide(d1, Wide(0, Carry44(d0)));
    var e2 := AddWide(d2, Wide(0, Carry44(e1)));
    var u0 := Add64(d0.lo % B44, Mul64(Carry42(e2), 5));
    Limbs(u0 % B44, Add64(e1.lo % B44, u0 / B44), e2.lo % B42)
  }

  function Num(d: Wide): int { B64 * d.hi + d.lo }

  lemma AddWideIsSum(x: Wide, y: Wide)
    requires Num(x) + Num(y) < B128
    ensures Num(AddWide(x, y)) == Num(x) + Num(y)
  {}

  lemma CarryIsQuotient(d: Wide)
    ensures Num(d) < B64 * B44 ==> Carry44(d) == Num(d) / B44
    ensures Num(d) < B64 * B42 ==> Carry42(d) == Num(d) / B42
  {}

  lemma DotIsSum(a0: u64, b0: u64, a1: u64, b1: u64, a2: u64, b2: u64)
    requires a0 * b0 + a1 * b1 + a2 * b2 < B128
    ensures Num(Dot(a0, b0, a1, b1, a2, b2)) == a0 * b0 + a1 * b1 + a2 * b2
  {
    MulMono(0, a0, b0);
    MulMono(0, a1, b1);
    MulMono(0, a2, b2);
    AddWideIsSum(MulWide(a0, b0), MulWide(a1, b1));
    AddWideIsSum(AddWide(MulWide(a0, b0), MulWide(a1, b1)), MulWide(a2, b2));
  }

  /** One pass of carries, stated on unbounded numbers. */
  lemma CarryPass(n0: int, n1: int, n2: int, m1: int, m2: int, u0: int)
    requires 0 <= n0 < 0x100 * B88 && 0 <= n1 < 0x100 * B88 && 0 <= n2 < 0x100 * B88
    requires m1 == n1 + n0 / B44 && m2 == n2 + m1 / B44 && u0 == n0 % B44 + 5 * (m2 / B42)
    ensures 0 <= u0 < B64 && 0 <= u0 / B44 <= 0x4000
    ensures Cong(u0 % B44 + B44 * (m1 % B44 + u0 / B44) + B88 * (m2 % B42), n0 + B44 * n1 + B88 * n2, P)
  {
    CongBy(u0 % B44 + B44 * (m1 % B44 + u0 / B44) + B88 * (m2 % B42), n0 + B44 * n1 + B88 * n2, -(m2 / B42), P);
  }

  lemma PropagateReduces(d0: Wide, d1: Wide, d2: Wide)
    requires Num(d0) < 0x100 * B88 && Num(d1) < 0x100 * B88 && Num(d2) < 0x100 * B88
    ensures Reduced(Propagate(d0, d1, d2))
    ensures Cong(Value(Propagate(d0, d1, d2)), Num(d0) + B44 * Num(d1) + B88 * Num(d2), P)
  {
    hide Carry44, Carry42, AddWide, Cong, Num;
    var e1, e2 := WideSteps(d0, d1, d2);
    var u0 := d0.lo % B44 + 5 * Carry42(e2);
    CarryPass(Num(d0), Num(d1), Num(d2), Num(e1), Num(e2), u0);
    FoldTop(d0.lo % B44, Carry42(e2), e1.lo % B44, e2.lo % B42);
  }

  /** The two upper columns with the carries from below. */
  lemma WideSteps(d0: Wide, d1: Wide, d2: Wide) returns (e1: Wide, e2: Wide)
    requires Num(d0) < 0x100 * B88 && Num(d1) < 0x100 * B88 && Num(d2) < 0x100 * B88
    ensures e1 == AddWide(d1, Wide(0, Carry44(d0))) && e2 == AddWide(d2, Wide(0, Carry44(e1)))
    ensures Num(e1) == Num(d1) + Num(d0) / B44 && Num(e2) == Num(d2) + Num(e1) / B44 && Carry42(e2) == Num(e2) / B42
    ensures d0.lo % B44 == Num(d0) % B44 && e1.lo % B44 == Num(e1) % B44 && e2.lo % B42 == Num(e2) % B42
    ensures Num(d0) >= 0 && Num(d1) >= 0 && Num(d2) >= 0
  {
    hide Carry44, Carry42, AddWide;
    CarryIsQuotient(d0);
    AddWideIsSum(d1, Wide(0, Carry44(d0)));
    e1 := AddWide(d1, Wide(0, Carry44(d0)));
    CarryIsQuotient(e1);
    AddWideIsSum(d2, Wide(0, Carry44(e1)));
    e2 := AddWide(d2, Wide(0, Carry44(e1)));
    CarryIsQuotient(e2);
    LowBits(d0);
    LowBits(e1);
    LowBits(e2);
  }

  lemma FoldTop(x: u64, c: u64, y: u64, z: u64)
    requires x < B44 && y < B44 && z < B42 && (x + 5 * c) / B44 <= 0x4000
    ensures var u0 := Add64(x, Mul64(c, 5));
      u0 == x + 5 * c && Limbs(u0 % B44, Add64(y, u0 / B44), z) == Limbs(u0 % B44, y + u0 / B44, z)
  {
    assert x + 5 * c < 0x4001 * B44;
  }

  lemma LowBits(d: Wide)
    ensures d.lo % B44 == Num(d) % B44 && d.lo % B42 == Num(d) % B42
  {
    ModPlusMultiple(d.lo, 0x10_0000 * d.hi, B44);
    ModPlusMultiple(d.lo, 0x40_0000 * d.hi, B42);
  }

  lemma Products(h: Limbs, r: Limbs)
    ensures Value(h) * Value(r)
         == (h.l0 * r.l0 + 20 * (h.l1 * r.l2) + 20 * (h.l2 * r.l1))
          + B44 * (h.l0 * r.l1 + h.l1 * r.l0 + 20 * (h.l2 * r.l2))
          + B88 * (h.l0 * r.l2 + h.l1 * r.l1 + h.l2 * r.l0)
          + P * (4 * (h.l1 * r.l2 + h.l2 * r.l1) + 4 * B44 * (h.l2 * r.l2))
  {}

  lemma Mul44Correct(h: Limbs, k: Key44)
    requires Loaded(h) && IsKey(k)
    ensures Reduced(Mul44(h, k)) && Cong(Value(Mul44(h, k)), Value(h) * Value(k.r), P)
  {
    hide Dot, Propagate, Cong, Value, Num, Mul64, Add64;
    var r := k.r;
    var d0 := Dot(h.l0, r.l0, h.l1, k.s2, h.l2, k.s1);
    var d1 := Dot(h.l0, r.l1, h.l1, r.l0, h.l2, k.s2);
    var d2 := Dot(h.l0, r.l2, h.l1, r.l1, h.l2, r.l0);
    ColumnNumbers(h, k, d0, d1, d2);
    PropagateReduces(d0, d1, d2);
    Products(h, r);
    var q := 4 * (h.l1 * r.l2 + h.l2 * r.l1) + 4 * B44 * (h.l2 * r.l2);
    var n := Num(d0) + B44 * Num(d1) + B88 * Num(d2);
    CongBy(Value(h) * Value(r), n, q, P);
    CongVia(Value(Mul44(h, k)), n, Value(h) * Value(r), P);
  }

  /** The three columns, exact and small. */
  lemma ColumnNumbers(h: Limbs, k: Key44, d0: Wide, d1: Wide, d2: Wide)
    requires Loaded(h) && IsKey(k)
    requires d0 == Dot(h.l0, k.r.l0, h.l1, k.s2, h.l2, k.s1) && d1 == Dot(h.l0, k.r.l1, h.l1, k.r.l0, h.l2, k.s2)
    requires d2 == Dot(h.l0, k.r.l2, h.l1, k.r.l1, h.l2, k.r.l0)
    ensures Num(d0) == h.l0 * k.r.l0 + 20 * (h.l1 * k.r.l2) + 20 * (h.l2 * k.r.l1)
    ensures Num(d1) == h.l0 * k.r.l1 + h.l1 * k.r.l0 + 20 * (h.l2 * k.r.l2)
    ensures Num(d2) == h.l0 * k.r.l2 + h.l1 * k.r.l1 + h.l2 * k.r.l0
    ensures Num(d0) < 0x100 * B88 && Num(d1) < 0x100 * B88 && Num(d2) < 0x100 * B88
  {
    hide Dot, Num;
    var r := k.r;
    BelowProduct(h.l0, r.l0); BelowProduct(h.l0, r.l1); BelowProduct(h.l0, r.l2);
    BelowProduct(h.l1, r.l0); BelowProduct(h.l1, r.l1); BelowProduct(h.l1, r.l2);
    BelowProduct(h.l2, r.l0); BelowProduct(h.l2, r.l1); BelowProduct(h.l2, r.l2);
    assert h.l1 * k.s2 == 20 * (h.l1 * r.l2) && h.l2 * k.s1 == 20 * (h.l2 * r.l1)
        && h.l2 * k.s2 == 20 * (h.l2 * r.l2);
    DotIsSum(h.l0, r.l0, h.l1, k.s2, h.l2, k.s1);
    DotIsSum(h.l0, r.l1, h.l1, r.l0, h.l2, k.s2);
    DotIsSum(h.l0, r.l2, h.l1, r.l1, h.l2, r.l0);
  }

  lemma BelowProduct(a: int, b: int)
    requires 0 <= a < 3 * B44 && 0 <= b <= B44 + 0x4000
    ensures 0 <= a * b < 4 * B88
  {
    MulMono(a, 3 * B44, b);
    MulMono(0, a, b);
  }

  // ------------------------------------------------------------ key powers

  /** The 16-byte number hi:lo in limbs; lo >> 44 | hi << 20 is cut to 44 bits. */
  function Load(lo: u64, hi: u64): (h: Limbs)
    ensures Value(h) == lo + B64 * hi
    ensures h.l0 < B44 && h.l1 < B44 && h.l2 < 0x100_0000_0000
  {
    ShiftOut(hi, 0x10_0000, B44);
    LoadMiddle(lo, hi);
    Limbs(lo % B44, Or(lo / B44, (hi * 0x10_0000) % B64, 0x10_0000) % B44, hi / 0x100_0000)
  }

  lemma LoadMiddle(lo: u64, hi: u64)
    ensures 0x10_0000 * (hi % B44) >= 0 && lo / B44 < 0x10_0000
    ensures (lo / B44 + 0x10_0000 * (hi % B44)) % B44 == lo / B44 + 0x10_0000 * (hi % 0x100_0000)
  {
    DivDiv(hi, 0x100_0000, 0x10_0000);
    var t, b := hi % 0x100_0000, hi / 0x100_0000 % 0x10_0000;
    DivModUnique(lo / B44 + 0x10_0000 * (hi % B44), b, lo / B44 + 0x10_0000 * t, B44);
  }

  ghost predicate IsPower(k: Key44, r: int, e: nat) { IsKey(k) && Cong(Value(k.r), Pow(r, e), P) }

  function MulKey(a: Key44, b: Key44): Key44 { MakeKey(Mul44(a.r, b)) }

  lemma PowerProduct(a: Key44, i: nat, b: Key44, j: nat, r: int)
    requires IsPower(a, r, i) && IsPower(b, r, j)
    ensures IsPower(MulKey(a, b), r, i + j)
  {
    hide Mul44, Cong, Value;
    Mul44Correct(a.r, b);
    MakeKeyIsKey(Mul44(a.r, b));
    CongMul(Value(a.r), Pow(r, i), Value(b.r), Pow(r, j), P);
    PowAdd(r, i, j);
    CongTrans(Value(Mul44(a.r, b)), Value(a.r) * Value(b.r), Pow(r, i + j), P);
  }

  /** r^1 .. r^16, each the product of two earlier ones. */
  function KeyPowers(r: Limbs): (keys: seq<Key44>)
    ensures |keys| == 16
  {
    var k1 := MakeKey(r);
    var k2 := MulKey(k1, k1);
    var k3 := MulKey(k2, k1);
    var k4 := MulKey(k2, k2);
    var k8 := MulKey(k4, k4);
    var k12 := MulKey(k8, k4);
    [k1, k2, k3, k4,
     MulKey(k4, k1), MulKey(k4, k2), MulKey(k4, k3), k8,
     MulKey(k8, k1), MulKey(k8, k2), MulKey(k8, k3), k12,
     MulKey(k12, k1), MulKey(k12, k2), MulKey(k12, k3), MulKey(k12, k4)]
  }

  lemma KeyPowersArePowers(r: Limbs)
    requires Reduced(r)
    ensures ArePowers(KeyPowers(r), Value(r))
  {
    hide IsPower, MulKey, MakeKey, Value;
    var v, k := Value(r), KeyPowers(r);
    assert IsPower(k[0], v, 1) by { PowerOne(r); }
    PowerProduct(k[0], 1, k[0], 1, v);
    PowerProduct(k[1], 2, k[0], 1, v);
    PowerProduct(k[1], 2, k[1], 2, v);
    PowerProduct(k[3], 4, k[3], 4, v);
    PowerProduct(k[7], 8, k[3], 4, v);
    PowerProduct(k[3], 4, k[0], 1, v);
    PowerProduct(k[3], 4, k[1], 2, v);
    PowerProduct(k[3], 4, k[2], 3, v);
    PowerProduct(k[7], 8, k[0], 1, v);
    PowerProduct(k[7], 8, k[1], 2, v);
    PowerProduct(k[7], 8, k[2], 3, v);
    PowerProduct(k[11], 12, k[0], 1, v);
    PowerProduct(k[11], 12, k[1], 2, v);
    PowerProduct(k[11], 12, k[2], 3, v);
    PowerProduct(k[11], 12, k[3], 4, v);
  }

  lemma PowerOne(r: Limbs)
    requires Reduced(r)
    ensures IsPower(MakeKey(r), Value(r), 1)
  {}

  ghost predicate ArePowers(keys: seq<Key44>, r: int) {
    |keys| == 16 && forall i :: 0 <= i < 16 ==> IsPower(keys[i], r, i + 1)
  }

  // ------------------------------------------------------------------ tiers

  function LoadBlock(b: seq<byte>, hibit: u64): (h: Limbs)
    requires |b| == 16 && hibit <= 1
    ensures h.l0 < B44 && h.l1 < B44 && h.l2 < 0x200_0000_0000
    ensures Value(h) == LE(b) + B128 * hibit
  {
    BlockWords(b);
    var h := Load(LE(b[..8]), LE(b[8..]));
    Limbs(h.l0, h.l1, Or(h.l2, hibit * 0x100_0000_0000, 0x100_0000_0000))
  }

  function AddLimbs(x: Limbs, y: Limbs): Limbs {
    Limbs(Add64(x.l0, y.l0), Add64(x.l1, y.l1), Add64(x.l2, y.l2))
  }

  /** h * r^n plus the first i blocks of m, block j weighted r^(n-j), limb by limb. */
  function TierSum(h: Limbs, m: seq<byte>, keys: seq<Key44>, n: nat, i: nat): Limbs
    requires 0 < n <= |keys| && i <= n && 16 * i <= |m|
  {
    if i == 0 then Mul44(h, keys[n - 1])
    else AddLimbs(TierSum(h, m, keys, n, i - 1),
                  Mul44(LoadBlock(m[16 * (i - 1)..16 * i], 1), keys[n - i]))
  }

  function Normalize(h: Limbs): Limbs {
    var h1 := Add64(h.l1, h.l0 / B44);
    var h2 := Add64(h.l2, h1 / B44);
    var u0 := Add64(h.l0 % B44, Mul64(h2 / B42, 5));
    Limbs(u0 % B44, Add64(h1 % B44, u0 / B44), h2 % B42)
  }

  /** One step of the n-block tier. */
  function TierStep(h: Limbs, m: seq<byte>, keys: seq<Key44>, n: nat): Limbs
    requires 0 < n <= |keys| && |m| == 16 * n
  {
    Normalize(TierSum(h, m, keys, n, n))
  }

  ghost predicate Within(h: Limbs, n: nat) {
    h.l0 <= n * B44 && h.l1 <= n * (B44 + 0x4000) && h.l2 <= n * B42
  }

  lemma AddWithin(x: Limbs, n: nat, y: Limbs)
    requires n <= 16 && Within(x, n) && Reduced(y)
    ensures Within(AddLimbs(x, y), n + 1) && Value(AddLimbs(x, y)) == Value(x) + Value(y)
  {
    NoWrap(x.l0, y.l0);
    NoWrap(x.l1, y.l1);
    NoWrap(x.l2, y.l2);
    hide Add64;
  }

  /** Nothing wraps in a carry pass over limbs of this size. */
  lemma NormalizeExact(h: Limbs, h1: int, h2: int, u0: int)
    requires Within(h, 17)
    requires h1 == h.l1 + h.l0 / B44 && h2 == h.l2 + h1 / B44 && u0 == h.l0 % B44 + 5 * (h2 / B42)
    ensures h1 % B44 + u0 / B44 <= B44 && u0 <= B44 + 90
    ensures Normalize(h) == Limbs(u0 % B44, h1 % B44 + u0 / B44, h2 % B42)
  {
    hide Add64, Mul64, Within;
    WithinBounds(h);
    NoWrap(h.l1, h.l0 / B44);
    NoWrap(h.l2, h1 / B44);
    FoldTop(h.l0 % B44, h2 / B42, h1 % B44, h2 % B42);
  }

  lemma NormalizeReduces(h: Limbs)
    requires Within(h, 17)
    ensures Reduced(Normalize(h)) && Cong(Value(Normalize(h)), Value(h), P)
  {
    hide Cong, Normalize, Within;
    WithinBounds(h);
    var h1 := h.l1 + h.l0 / B44;
    var h2 := h.l2 + h1 / B44;
    var u0 := h.l0 % B44 + 5 * (h2 / B42);
    NormalizeExact(h, h1, h2, u0);
    CarryPass(h.l0, h.l1, h.l2, h1, h2, u0);
  }

  lemma WithinBounds(h: Limbs)
    requires Within(h, 17)
    ensures h.l0 / B44 <= 17 && (h.l1 + h.l0 / B44) / B44 <= 18
    ensures (h.l2 + (h.l1 + h.l0 / B44) / B44) / B42 <= 18
    ensures h.l0 < 0x20 * B44 && h.l1 < 0x20 * B44 && h.l2 < 0x20 * B42
  {}

  /** Partial tiers: the sum so far is the Horner value of the first i blocks times r^(n-i). */
  lemma {:induction false} TierSumCorrect(h: Limbs, r: int, m: seq<byte>, keys: seq<Key44>, n: nat, i: nat)
    requires 0 < n <= 16 && i <= n && |m| == 16 * n && ArePowers(keys, r) && Reduced(h)
    ensures Within(TierSum(h, m, keys, n, i), i + 1)
    ensures Cong(Value(TierSum(h, m, keys, n, i)), Pow(r, n - i) * Horner(Value(h), r, m[..16 * i]), P)
    decreases i
  {
    hide Cong, Value, Mul44, AddLimbs, LoadBlock, Horner, Pow, Within, Reduced, Block, IsPower;
    if i == 0 {
      assert m[..0] == [] && Horner(Value(h), r, []) == Value(h) by { HornerEmpty(Value(h), r); }
      TierStart(h, keys[n - 1], r, n);
    } else {
      var a, b := m[..16 * (i - 1)], m[16 * (i - 1)..16 * i];
      TierSumCorrect(h, r, m, keys, n, i - 1);
      assert IsPower(keys[n - i], r, n - i + 1);
      TierAddBlock(TierSum(h, m, keys, n, i - 1), i, Horner(Value(h), r, a), b, keys[n - i], r, n - i);
      assert a + b == m[..16 * i];
      HornerSnoc(Value(h), r, a, b);
    }
  }

  lemma TierStart(h: Limbs, k: Key44, r: int, e: nat)
    requires Reduced(h) && IsPower(k, r, e)
    ensures Within(Mul44(h, k), 1) && Cong(Value(Mul44(h, k)), Pow(r, e) * Value(h), P)
  {
    hide Cong, Value, Mul44;
    Mul44Correct(h, k);
    CongSame(Value(h), P);
    CongMul(Value(h), Value(h), Value(k.r), Pow(r, e), P);
    CongTrans(Value(Mul44(h, k)), Value(h) * Value(k.r), Pow(r, e) * Value(h), P);
  }

  lemma TierAddBlock(t: Limbs, n: nat, y: int, b: seq<byte>, k: Key44, r: int, e: nat)
    requires n <= 16 && |b| == 16 && IsPower(k, r, e + 1)
    requires Within(t, n) && Cong(Value(t), Pow(r, e + 1) * y, P)
    ensures var u := AddLimbs(t, Mul44(LoadBlock(b, 1), k));
      Within(u, n + 1) && Cong(Value(u), Pow(r, e) * (((y + Block(b)) * r) % P), P)
  {
    hide Cong, Value, Mul44, AddLimbs, LoadBlock, Pow, Within, Reduced, Block;
    var p := Mul44(LoadBlock(b, 1), k);
    var w := Pow(r, e + 1);
    BlockProduct(b, k, r, e + 1);
    AddWithin(t, n, p);
    CongAdd(Value(t), w * y, Value(p), w * Block(b), P);
    HornerScaled(y + Block(b), r, e);
    Distribute(w, y, Block(b));
    CongTrans(Value(t) + Value(p), w * (y + Block(b)), Pow(r, e) * (((y + Block(b)) * r) % P), P);
  }

  lemma HornerScaled(y: int, r: int, e: nat)
    ensures Cong(Pow(r, e + 1) * y, Pow(r, e) * ((y * r) % P), P)
  {
    CongMod(y * r, P);
    CongMul(Pow(r, e), Pow(r, e), (y * r) % P, y * r, P);
    assert Pow(r, e) * (y * r) == Pow(r, e + 1) * y;
  }

  lemma BlockProduct(b: seq<byte>, k: Key44, r: int, e: nat)
    requires |b| == 16 && IsPower(k, r, e)
    ensures Reduced(Mul44(LoadBlock(b, 1), k)) && Cong(Value(Mul44(LoadBlock(b, 1), k)), Pow(r, e) * Block(b), P)
  {
    hide Cong, Value, Mul44, LoadBlock;
    Pow256();
    var h := LoadBlock(b, 1);
    assert Value(h) == Block(b);
    Mul44Correct(h, k);
    CongSame(Block(b), P);
    CongMul(Block(b), Block(b), Value(k.r), Pow(r, e), P);
    CongTrans(Value(Mul44(h, k)), Value(h) * Value(k.r), Pow(r, e) * Block(b), P);
  }

  /** A tier of n blocks is n Horner steps. */
  lemma TierStepCorrect(h: Limbs, r: int, m: seq<byte>, keys: seq<Key44>, n: nat)
    requires 0 < n <= 16 && |m| == 16 * n && ArePowers(keys, r) && Reduced(h)
    ensures Reduced(TierStep(h, m, keys, n))
    ensures Cong(Value(TierStep(h, m, keys, n)), Horner(Value(h), r, m), P)
  {
    hide Cong, Value, TierSum, Normalize, Horner;
    TierSumCorrect(h, r, m, keys, n, n);
    assert m[..16 * n] == m && Pow(r, 0) == 1;
    NormalizeReduces(TierSum(h, m, keys, n, n));
    CongTrans(Value(TierStep(h, m, keys, n)), Value(TierSum(h, m, keys, n, n)), Horner(Value(h), r, m), P);
  }

  // ----------------------------------------------------------------- finish

  ghost predicate Canonical(h: Limbs) { h.l0 < B44 && h.l1 < B44 && h.l2 < B42 }

  /** One pass of carries is enough: if the top limb overflows, the limbs below
      it were cut down by the carry that made it overflow. */
  lemma OnePassCanonical(h: Limbs)
    requires Reduced(h)
    ensures Canonical(Normalize(h)) && Cong(Value(Normalize(h)), Value(h), P)
  {
    hide Cong, Normalize;
    var h2 := h.l2 + h.l1 / B44;
    TopOverflow(h.l1, h.l2);
    NormalizeExact(h, h.l1, h2, h.l0 % B44 + 5 * (h2 / B42));
    NormalizeReduces(h);
  }

  lemma TopOverflow(l1: int, l2: int)
    requires 0 <= l1 <= B44 + 0x4000 && 0 <= l2 < B42
    ensures (l2 + l1 / B44) / B42 == 0 || ((l2 + l1 / B44) / B42 == 1 && l1 % B44 <= 0x4000)
  {
    if l1 >= B44 { DivModUnique(l1, 1, l1 - B44, B44); }
  }

  /** The conditional subtraction of 2^130 - 5, choosing by a mask made of the
      sign of the trial subtraction. */
  function Subtract(h: Limbs): (u: (nat, nat, nat))
    requires Canonical(h)
  {
    var g0 := h.l0 + 5;
    var g1 := h.l1 + g0 / B44;
    var g2 := (h.l2 + g1 / B44 - B42) % B64;
    var mask := (g2 / 0x8000_0000_0000_0000 - 1) % B64;
    (Select64(h.l0, g0 % B44, mask), Select64(h.l1, g1 % B44, mask), Select64(h.l2, g2, mask))
  }

  lemma SubtractReduces(h: Limbs)
    requires Canonical(h)
    ensures var (u0, u1, u2) := Subtract(h);
      u0 < B44 && u1 < B44 && u2 < B42 && u0 + B44 * u1 + B88 * u2 == Value(h) % P
  {
    hide Select64;
    var g0 := h.l0 + 5;
    var g1 := h.l1 + g0 / B44;
    var t := h.l2 + g1 / B44 - B42;
    TrialSubtraction(h.l0, h.l1, h.l2, g0, g1, t);
    var g2 := t % B64;
    SelectChooses(h.l0, g0 % B44);
    SelectChooses(h.l1, g1 % B44);
    SelectChooses(h.l2, g2);
    var mask: u64 := (g2 / 0x8000_0000_0000_0000 - 1) % B64;
    assert mask == if t >= 0 then ONES64 else 0;
  }

  /** Adding 5 and removing 2^130 subtracts P; the sign of the top limb tells if that was due. */
  lemma TrialSubtraction(l0: int, l1: int, l2: int, g0: int, g1: int, t: int)
    requires 0 <= l0 < B44 && 0 <= l1 < B44 && 0 <= l2 < B42
    requires g0 == l0 + 5 && g1 == l1 + g0 / B44 && t == l2 + g1 / B44 - B42
    ensures var v := l0 + B44 * l1 + B88 * l2;
      if t >= 0 then v % P == g0 % B44 + B44 * (g1 % B44) + B88 * t && t < B42 && t % B64 == t
      else v % P == v && t % B64 == t + B64
  {
    var v := l0 + B44 * l1 + B88 * l2;
    assert v - P == g0 % B44 + B44 * (g1 % B44) + B88 * t;
    DivModUnique(v, if t >= 0 then 1 else 0, if t >= 0 then v - P else v, P);
    DivModUnique(t, if t >= 0 then 0 else -1, if t >= 0 then t else t + B64, B64);
  }

  /** The low 128 bits of three canonical limbs as two words. */
  function Pack(u0: nat, u1: nat, u2: nat): (w: (u64, u64))
    requires u0 < B44 && u1 < B44 && u2 < B42
    ensures w.0 + B64 * w.1 == (u0 + B44 * u1 + B88 * u2) % B128
  {
    ShiftOut(u1, B44, 0x10_0000);
    ShiftOut(u2, 0x100_0000, 0x100_0000_0000);
    PackNumber(u0, u1, u2);
    (Or(u0, (u1 * B44) % B64, B44), Or(u1 / 0x10_0000, (u2 * 0x100_0000) % B64, 0x100_0000))
  }

  lemma PackNumber(u0: nat, u1: nat, u2: nat)
    requires u0 < B44 && u1 < B44 && u2 < B42
    ensures (u0 + B44 * u1 + B88 * u2) % B128
         == u0 + B44 * (u1 % 0x10_0000) + B64 * (u1 / 0x10_0000 + 0x100_0000 * (u2 % 0x100_0000_0000))
  {
    DivModUnique(u0 + B44 * u1 + B88 * u2, u2 / 0x100_0000_0000,
                 u0 + B44 * u1 + B88 * (u2 % 0x100_0000_0000), B128);
  }

  function FinishBytes(h: Limbs, p0: u64, p1: u64): seq<byte>
    requires Reduced(h)
  {
    OnePassCanonical(h);
    SubtractReduces(Normalize(h));
    var (u0, u1, u2) := Subtract(Normalize(h));
    var (w0, w1) := Pack(u0, u1, u2);
    WithPad(w0, w1, p0, p1)
  }

  lemma FinishIsTag(h: Limbs, key: Key, m: seq<byte>)
    requires Reduced(h) && Cong(Value(h), Horner(0, Multiplier(key), m), P)
    ensures FinishBytes(h, PadLow(key), PadHigh(key)) == Tag(key, m)
  {
    hide Normalize, Subtract, Pack, WithPad, Tag, Value;
    var x := Horner(0, Multiplier(key), m);
    OnePassCanonical(h);
    SubtractReduces(Normalize(h));
    HornerRange(0, Multiplier(key), m);
    DivModUnique(x, 0, x, P);
    var (u0, u1, u2) := Subtract(Normalize(h));
    var (w0, w1) := Pack(u0, u1, u2);
    TagFromWords(key, m, w0, w1);
  }

  // -------------------------------------------------------------- the engine

  ghost predicate UpTo(h: Limbs, r: int, total: seq<byte>, rest: seq<byte>) {
    Reduced(h) && Absorbed(Value(h), r, total, rest)
  }

  lemma TierAdvances(h: Limbs, r: int, keys: seq<Key44>, total: seq<byte>, rest: seq<byte>, n: nat)
    requires 0 < n <= 16 && 16 * n <= |rest| && ArePowers(keys, r) && UpTo(h, r, total, rest)
    ensures UpTo(TierStep(h, rest[..16 * n], keys, n), r, total, rest[16 * n..])
  {
    hide Cong, Value, TierStep, Reduced, Absorbed;
    TierStepCorrect(h, r, rest[..16 * n], keys, n);
    AbsorbedStep(Value(h), Value(TierStep(h, rest[..16 * n], keys, n)), r, total, rest, 16 * n);
  }

  /** (h + block) * r with the first key power, as updateBlock computes it. */
  function BlockStep(h: Limbs, b: seq<byte>, hibit: u64, k: Key44): Limbs
    requires |b| == 16 && hibit <= 1
  {
    Mul44(AddLimbs(h, LoadBlock(b, hibit)), k)
  }

  lemma BlockStepCorrect(h: Limbs, r: int, b: seq<byte>, hibit: u64, k: Key44)
    requires |b| == 16 && hibit <= 1 && IsPower(k, r, 1) && Reduced(h)
    ensures Reduced(BlockStep(h, b, hibit, k))
    ensures Cong(Value(BlockStep(h, b, hibit, k)), ((Value(h) + LE(b) + B128 * hibit) * r) % P, P)
  {
    var y := LoadBlock(b, hibit);
    var s := AddLimbs(h, y);
    NoWrap(h.l0, y.l0);
    NoWrap(h.l1, y.l1);
    NoWrap(h.l2, y.l2);
    assert Loaded(s) && Value(s) == Value(h) + Value(y);
    hide Cong, Value, Mul44, AddLimbs, LoadBlock;
    Mul44Correct(s, k);
    assert Pow(r, 1) == r;
    CongSame(Value(s), P);
    CongMul(Value(s), Value(s), Value(k.r), r, P);
    CongTrans(Value(Mul44(s, k)), Value(s) * Value(k.r), Value(s) * r, P);
    CongMod(Value(s) * r, P);
    CongVia(Value(Mul44(s, k)), Value(s) * r, (Value(s) * r) % P, P);
  }

  lemma BlockAdvances(h: Limbs, r: int, k: Key44, total: seq<byte>, rest: seq<byte>)
    requires |rest| >= 16 && IsPower(k, r, 1) && UpTo(h, r, total, rest)
    ensures UpTo(BlockStep(h, rest[..16], 1, k), r, total, rest[16..])
  {
    hide Cong, Value, BlockStep, Reduced, Absorbed, IsPower;
    BlockStepCorrect(h, r, rest[..16], 1, k);
    Pow256();
    HornerBlock(Value(h), r, rest[..16]);
    AbsorbedStep(Value(h), Value(BlockStep(h, rest[..16], 1, k)), r, total, rest, 16);
  }

  lemma LastAdvances(h: Limbs, r: int, k: Key44, total: seq<byte>, rem: seq<byte>)
    requires 0 < |rem| < 16 && IsPower(k, r, 1) && UpTo(h, r, total, rem)
    ensures Reduced(BlockStep(h, Padded(rem), 0, k))
    ensures Cong(Value(BlockStep(h, Padded(rem), 0, k)), Horner(0, r, total), P)
  {
    hide Cong, Value, BlockStep, Reduced, Absorbed, IsPower, Padded;
    PaddedIsBlock(rem);
    BlockStepCorrect(h, r, Padded(rem), 0, k);
    HornerBlock(Value(h), r, rem);
    assert rem[..|rem|] == rem;
    AbsorbedStep(Value(h), Value(BlockStep(h, Padded(rem), 0, k)), r, total, rem, |rem|);
  }

  function Or64(lo: u32, hi: u32): u64 { Or(lo, hi * B32, B32) }

  lemma PadWords(key: Key)
    ensures 0 <= LE(key[16..20]) < B32 && 0 <= LE(key[20..24]) < B32
         && 0 <= LE(key[24..28]) < B32 && 0 <= LE(key[28..]) < B32
    ensures Or64(LE(key[16..20]), LE(key[20..24])) == PadLow(key)
    ensures Or64(LE(key[24..28]), LE(key[28..])) == PadHigh(key)
  {
    hide Val;
    WordRange(key[16..20]);
    WordRange(key[20..24]);
    WordRange(key[24..28]);
    WordRange(key[28..]);
    Pow256();
    ValAppend(256, key[16..20], key[20..24]);
    ValAppend(256, key[24..28], key[28..]);
    assert key[16..20] + key[20..24] == key[16..24] && key[24..28] + key[28..] == key[24..];
  }

  class QuadChain {
    var h: Limbs
    const rKeys: seq<Key44>
    const pad0: u32
    const pad1: u32
    const pad2: u32
    const pad3: u32
    const buf: array<byte>
    var bufLen: nat
    ghost const key: Key
    ghost var absorbed: seq<byte>

    /** All of the message but its last |message| mod 16 bytes is multiplied
        in, and those bytes are in the buffer. */
    ghost predicate Valid()
      reads this, buf
    {
      && buf.Length == 16 && bufLen < 16
      && ArePowers(rKeys, Multiplier(key))
      && Or64(pad0, pad1) == PadLow(key) && Or64(pad2, pad3) == PadHigh(key)
      && UpTo(h, Multiplier(key), absorbed, buf[..bufLen])
    }

    constructor (key: Key)
      ensures Valid() && fresh(buf) && this.key == key && absorbed == []
    {
      hide KeyPowers, Multiplier, And, ArePowers, Val, Horner;
      ClampWords(key);
      var k0 := And(LE(key[..8]), 0x0ffffffc_0fffffff);
      var k1 := And(LE(key[8..16]), 0x0ffffffc_0ffffffc);
      var r := Load(k0, k1);
      KeyPowersArePowers(r);
      PadWords(key);
      rKeys := KeyPowers(r);
      pad0, pad1, pad2, pad3 := LE(key[16..20]), LE(key[20..24]), LE(key[24..28]), LE(key[28..]);
      h := Limbs(0, 0, 0);
      buf := new byte[16];
      bufLen := 0;
      this.key := key;
      absorbed := [];
      AbsorbedNothing(Multiplier(key));
    }

    method UpdateBlock(m: seq<byte>, hibit: u64)
      requires |m| == 16 && hibit <= 1 && |rKeys| == 16
      modifies this`h
      ensures h == BlockStep(old(h), m, hibit, rKeys[0])
    {
      h := AddLimbs(h, LoadBlock(m, hibit));
      h := Mul44(h, rKeys[0]);
    }

    /** Appends msg to the message, whatever mix of tiers and buffering it takes. */
    method Update(msg: seq<byte>)
      requires Valid()
      modifies this`h, this`bufLen, this`absorbed, buf
      ensures Valid() && absorbed == old(absorbed) + msg
    {
      hide UpTo, TierStep, BlockStep, ArePowers, Multiplier, Or64;
      ghost var r, total := Multiplier(key), absorbed + msg;
      UpToExtend(h, r, absorbed, buf[..bufLen], msg);
      FirstPower(rKeys, r);
      var m := FillBuffer(msg, total);
      m := Tiers(m, total);
      LastBlocks(m, total);
      absorbed := total;
    }

    /** Completes a block begun earlier. */
    method FillBuffer(msg: seq<byte>, ghost total: seq<byte>) returns (m: seq<byte>)
      requires buf.Length == 16 && bufLen < 16 && |rKeys| == 16 && IsPower(rKeys[0], Multiplier(key), 1)
      requires UpTo(h, Multiplier(key), total, buf[..bufLen] + msg)
      modifies this`h, this`bufLen, buf
      ensures bufLen < 16 && (bufLen > 0 ==> m == []) && UpTo(h, Multiplier(key), total, buf[..bufLen] + m)
    {
      hide UpTo, BlockStep, Multiplier;
      m := msg;
      if bufLen > 0 {
        ghost var before := buf[..bufLen];
        var n := CopyAt(buf, bufLen, m);
        bufLen := bufLen + n;
        m := m[n..];
        assert buf[..bufLen] + m == before + msg;
        if bufLen == 16 {
          assert (buf[..] + m)[..16] == buf[..] && (buf[..] + m)[16..] == m && buf[..16] == buf[..];
          BlockAdvances(h, Multiplier(key), rKeys[0], total, buf[..] + m);
          UpdateBlock(buf[..], 1);
          bufLen := 0;
          assert buf[..0] + m == m;
        }
      }
    }

    /** Sixteen, eight and four blocks at a time. */
    method Tiers(msg: seq<byte>, ghost total: seq<byte>) returns (m: seq<byte>)
      requires buf.Length == 16 && bufLen < 16 && (bufLen > 0 ==> msg == []) && ArePowers(rKeys, Multiplier(key))
      requires UpTo(h, Multiplier(key), total, buf[..bufLen] + msg)
      modifies this`h
      ensures (bufLen > 0 ==> m == []) && UpTo(h, Multiplier(key), total, buf[..bufLen] + m)
    {
      hide UpTo, TierStep, Multiplier;
      m := msg;
      FirstPower(rKeys, Multiplier(key));
      hide ArePowers;
      while |m| >= 256
        invariant (bufLen > 0 ==> m == [])
        invariant UpTo(h, Multiplier(key), total, buf[..bufLen] + m)
      {
        assert buf[..bufLen] + m == m && buf[..bufLen] + m[256..] == m[256..];
        TierAdvances(h, Multiplier(key), rKeys, total, m, 16);
        h := TierStep(h, m[..256], rKeys, 16);
        m := m[256..];
      }
      while |m| >= 128
        invariant (bufLen > 0 ==> m == [])
        invariant UpTo(h, Multiplier(key), total, buf[..bufLen] + m)
      {
        assert buf[..bufLen] + m == m && buf[..bufLen] + m[128..] == m[128..];
        TierAdvances(h, Multiplier(key), rKeys, total, m, 8);
        h := TierStep(h, m[..128], rKeys, 8);
        m := m[128..];
      }
      while |m| >= 64
        invariant (bufLen > 0 ==> m == [])
        invariant UpTo(h, Multiplier(key), total, buf[..bufLen] + m)
      {
        assert buf[..bufLen] + m == m && buf[..bufLen] + m[64..] == m[64..];
        TierAdvances(h, Multiplier(key), rKeys, total, m, 4);
        h := TierStep(h, m[..64], rKeys, 4);
        m := m[64..];
      }
    }

    /** Single blocks, and the rest into the buffer. */
    method LastBlocks(msg: seq<byte>, ghost total: seq<byte>)
      requires buf.Length == 16 && bufLen < 16 && (bufLen > 0 ==> msg == [])
      requires |rKeys| == 16 && IsPower(rKeys[0], Multiplier(key), 1)
      requires UpTo(h, Multiplier(key), total, buf[..bufLen] + msg)
      modifies this`h, this`bufLen, buf
      ensures bufLen < 16 && UpTo(h, Multiplier(key), total, buf[..bufLen])
    {
      hide UpTo, BlockStep, Multiplier;
      var m := msg;
      while |m| >= 16
        invariant bufLen < 16 && (bufLen > 0 ==> m == [])
        invariant UpTo(h, Multiplier(key), total, buf[..bufLen] + m)
      {
        assert buf[..bufLen] + m == m && buf[..bufLen] + m[16..] == m[16..];
        BlockAdvances(h, Multiplier(key), rKeys[0], total, m);
        UpdateBlock(m[..16], 1);
        m := m[16..];
      }
      if |m| > 0 {
        assert buf[..bufLen] + m == m;
        bufLen := CopyAt(buf, 0, m);
        assert buf[..bufLen] == m;
      } else {
        assert buf[..bufLen] + m == buf[..bufLen];
      }
    }

    /** Writes the RFC 8439 tag of everything absorbed. */
    method Finish() returns (out: seq<byte>)
      requires Valid()
      modifies this`h
      ensures out == Tag(key, absorbed)
    {
      hide TierStep, BlockStep, ArePowers, Or64, FinishBytes, Horner, Reduced, Cong, Value, Tag, Absorbed, Padded;
      assert bufLen == 0 ==> buf[..bufLen] == [];
      ghost var r := Multiplier(key);
      FirstPower(rKeys, r);
      if bufLen > 0 {
        LastAdvances(h, r, rKeys[0], absorbed, buf[..bufLen]);
        UpdateBlock(Padded(buf[..bufLen]), 0);
      } else {
        AbsorbedAll(Value(h), r, absorbed);
      }
      FinishIsTag(h, key, absorbed);
      out := FinishBytes(h, Or64(pad0, pad1), Or64(pad2, pad3));
    }
  }

  lemma FirstPower(keys: seq<Key44>, r: int)
    requires ArePowers(keys, r)
    ensures |keys| == 16 && IsPower(keys[0], r, 1)
  {}

  lemma UpToExtend(h: Limbs, r: int, total: seq<byte>, rest: seq<byte>, more: seq<byte>)
    requires UpTo(h, r, total, rest)
    ensures UpTo(h, r, total + more, rest + more)
  {
    AbsorbedExtend(Value(h), r, total, rest, more);
  }
}
