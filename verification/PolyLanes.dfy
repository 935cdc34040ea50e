/** The four-lane engine: lane l takes every fourth block, starting with block
    l, and is multiplied by r^4; the lanes are weighted at the end. */
module PolyLanes {
  import opened Words
  import opened Simd
  import opened Poly1305Spec
  import opened Buffers
  import opened Poly26

  /** One vector per limb. */
  datatype Vec5 = Vec5(v0: U64x4, v1: U64x4, v2: U64x4, v3: U64x4, v4: U64x4)

  function Lane(v: Vec5, l: nat): Five
    requires l < 4
  {
    Five(v.v0[l], v.v1[l], v.v2[l], v.v3[l], v.v4[l])
  }

  // ------------------------------------------------------------ vector code

  /** The limbs of four blocks, transposed out of eight message words. */
  function LoadBlocks(raw: seq<u64>): Vec5
    requires |raw| == 8
  {
    var v0: U64x4 := raw[0..4];
    var v1: U64x4 := raw[4..8];
    var t0 := FromHalves(InterleaveLo(GetLo(v0), GetHi(v0)), InterleaveLo(GetLo(v1), GetHi(v1)));
    var t1 := FromHalves(InterleaveHi(GetLo(v0), GetHi(v0)), InterleaveHi(GetLo(v1), GetHi(v1)));
    OrDisjoint(t0, t1);
    Vec5(MaskLanes(t0, B26),
         MaskLanes(ShiftRightLanes(t0, B26), B26),
         MaskLanes(OrLanes(ShiftRightLanes(t0, B52), ShiftLeftLanes(t1, 0x1000), 0x1000), B26),
         MaskLanes(ShiftRightLanes(t1, 0x4000), B26),
         OrLanes(MaskLanes(ShiftRightLanes(t1, 0x100_0000_0000), B26), Splat(0x100_0000), 0x100_0000))
  }

  lemma OrDisjoint(t0: U64x4, t1: U64x4)
    ensures forall i :: 0 <= i < 4 ==>
      var x, y := ShiftRightLanes(t0, B52)[i], ShiftLeftLanes(t1, 0x1000)[i];
      x < 0x1000 && y % 0x1000 == 0 && x + y < B64
    ensures forall i :: 0 <= i < 4 ==> MaskLanes(ShiftRightLanes(t1, 0x100_0000_0000), B26)[i] < 0x100_0000
  {
    forall i | 0 <= i < 4
      ensures t0[i] / B52 < 0x1000 && (t1[i] * 0x1000) % B64 % 0x1000 == 0 && t0[i] / B52 + (t1[i] * 0x1000) % B64 < B64
      ensures t1[i] / 0x100_0000_0000 % B26 < 0x100_0000
    {
      ShiftOut(t1[i], 0x1000, B52);
      UnpackNumber(t0[i], t1[i]);
    }
  }

  /** [x, 0, x, 0, x, 0, x, 0] */
  function Broadcast(x: u32): U32x8 { [x, 0, x, 0, x, 0, x, 0] }

  function VectorDot(u: Vec5, b0: U32x8, b1: U32x8, b2: U32x8, b3: U32x8, b4: U32x8): U64x4 {
    AddLanes(AddLanes(AddLanes(AddLanes(
      MulWidenEven(Reshape(u.v0), b0), MulWidenEven(Reshape(u.v1), b1)),
      MulWidenEven(Reshape(u.v2), b2)), MulWidenEven(Reshape(u.v3), b3)), MulWidenEven(Reshape(u.v4), b4))
  }

  /** The carry pass on all lanes; the top carry times 5 is c + (c << 2). */
  function VectorCarry(d: Vec5): Vec5 {
    var d1 := AddLanes(d.v1, ShiftRightLanes(d.v0, B26));
    var d2 := AddLanes(d.v2, ShiftRightLanes(d1, B26));
    var d3 := AddLanes(d.v3, ShiftRightLanes(d2, B26));
    var d4 := AddLanes(d.v4, ShiftRightLanes(d3, B26));
    var c4 := ShiftRightLanes(d4, B26);
    var h0 := AddLanes(MaskLanes(d.v0, B26), AddLanes(c4, ShiftLeftLanes(c4, 4)));
    Vec5(MaskLanes(h0, B26), AddLanes(MaskLanes(d1, B26), ShiftRightLanes(h0, B26)),
         MaskLanes(d2, B26), MaskLanes(d3, B26), MaskLanes(d4, B26))
  }

  /** acc * r^4 + blocks, all lanes at once: r4u holds r^4, s4u five times its upper limbs. */
  function BlockStep64(acc: Vec5, r4u: seq<U32x8>, s4u: seq<U32x8>, raw: seq<u64>): Vec5
    requires |r4u| == 5 && |s4u| == 4 && |raw| == 8
  {
    var m := LoadBlocks(raw);
    VectorCarry(Vec5(
      AddLanes(VectorDot(acc, r4u[0], s4u[3], s4u[2], s4u[1], s4u[0]), m.v0),
      AddLanes(VectorDot(acc, r4u[1], r4u[0], s4u[3], s4u[2], s4u[1]), m.v1),
      AddLanes(VectorDot(acc, r4u[2], r4u[1], r4u[0], s4u[3], s4u[2]), m.v2),
      AddLanes(VectorDot(acc, r4u[3], r4u[2], r4u[1], r4u[0], s4u[3]), m.v3),
      AddLanes(VectorDot(acc, r4u[4], r4u[3], r4u[2], r4u[1], r4u[0]), m.v4)))
  }

  // -------------------------------------------------------------- lane by lane

  /** What BlockStep64 does to one lane. */
  function LaneStep(h: Five, r4: Five, b: seq<byte>): Five
    requires |b| == 16
  {
    Carry26(AddFive(Columns(h, r4), BlockLimbs(b, true)))
  }

  function RawWords(b: seq<byte>): (raw: seq<u64>)
    requires |b| == 64
    ensures |raw| == 8
  {
    seq(8, i requires 0 <= i < 8 => WordAt(b, i))
  }

  function WordAt(b: seq<byte>, i: nat): (w: u64)
    requires 8 * i + 8 <= |b|
    ensures w == LE(b[8 * i..8 * i + 8])
  {
    WordRange(b[8 * i..8 * i + 8]);
    LE(b[8 * i..8 * i + 8])
  }

  lemma LoadBlocksLane(b: seq<byte>, l: nat)
    requires |b| == 64 && l < 4
    ensures Lane(LoadBlocks(RawWords(b)), l) == BlockLimbs(b[16 * l..16 * l + 16], true)
  {
    var raw := RawWords(b);
    var t0, t1 := raw[2 * l], raw[2 * l + 1];
    var c := b[16 * l..16 * l + 16];
    assert c[..8] == b[8 * (2 * l)..8 * (2 * l) + 8] && c[8..] == b[8 * (2 * l + 1)..8 * (2 * l + 1) + 8];
    assert raw[2 * l] == WordAt(b, 2 * l) && raw[2 * l + 1] == WordAt(b, 2 * l + 1);
    hide WordAt, LE;
    LoadBlocksWords(raw, l);
  }

  lemma LoadBlocksWords(raw: seq<u64>, l: nat)
    requires |raw| == 8 && l < 4
    ensures var u := Unpack(raw[2 * l], raw[2 * l + 1]);
      Lane(LoadBlocks(raw), l) == u.(l4 := Or(u.l4, 0x100_0000, 0x100_0000))
  {}

  lemma VectorDotLane(u: Vec5, x0: u32, x1: u32, x2: u32, x3: u32, x4: u32, l: nat)
    requires l < 4 && Reduced(Lane(u, l))
    ensures VectorDot(u, Broadcast(x0), Broadcast(x1), Broadcast(x2), Broadcast(x3), Broadcast(x4))[l]
         == Dot5(Lane(u, l), x0, x1, x2, x3, x4)
  {
    hide Add64;
    EvenProduct(u.v0, x0, l);
    EvenProduct(u.v1, x1, l);
    EvenProduct(u.v2, x2, l);
    EvenProduct(u.v3, x3, l);
    EvenProduct(u.v4, x4, l);
    hide MulWidenEven, Mul64;
  }

  /** No limb loses bits when only its low 32 bits enter the product. */
  lemma EvenProduct(v: U64x4, x: u32, l: nat)
    requires l < 4 && v[l] < B32
    ensures MulWidenEven(Reshape(v), Broadcast(x))[l] == Mul64(v[l], x)
  {
    var a := Reshape(v)[2 * l];
    assert a == v[l];
    assert Broadcast(x)[2 * l] == x;
    DivModUnique(WideWord(a, x), 0, WideWord(a, x), B64);
  }

  lemma VectorCarryLane(d: Vec5, l: nat)
    requires l < 4 && Small(Lane(d, l))
    ensures Lane(VectorCarry(d), l) == Carry26(Lane(d, l))
  {
    hide Add64, Mul64;
    var x := Lane(d, l);
    var d1 := x.l1 + x.l0 / B26;
    var d2 := x.l2 + d1 / B26;
    var d3 := x.l3 + d2 / B26;
    var d4 := x.l4 + d3 / B26;
    CarryBounds(x.l0, x.l1, d1);
    NoWrap(x.l1, x.l0 / B26);
    CarryBounds(d1, x.l2, d2);
    NoWrap(x.l2, d1 / B26);
    CarryBounds(d2, x.l3, d3);
    NoWrap(x.l3, d2 / B26);
    CarryBounds(d3, x.l4, d4);
    NoWrap(x.l4, d3 / B26);
    FiveTimes(d4 / B26);
    FourPlusOne(d4 / B26);
  }

  lemma FourPlusOne(c: u64)
    requires c < 0x80_0000_0000
    ensures Add64(c, (c * 4) % B64) == 5 * c
  {}

  /** The broadcast keys of r^4. */
  ghost predicate KeysOf(r4u: seq<U32x8>, s4u: seq<U32x8>, r4: Five) {
    && Reduced(r4) && |r4u| == 5 && |s4u| == 4
    && r4u[0] == Broadcast(r4.l0) && r4u[1] == Broadcast(r4.l1) && r4u[2] == Broadcast(r4.l2)
    && r4u[3] == Broadcast(r4.l3) && r4u[4] == Broadcast(r4.l4)
    && s4u[0] == Broadcast(5 * r4.l1) && s4u[1] == Broadcast(5 * r4.l2)
    && s4u[2] == Broadcast(5 * r4.l3) && s4u[3] == Broadcast(5 * r4.l4)
  }

  lemma BlockStep64Lane(acc: Vec5, r4u: seq<U32x8>, s4u: seq<U32x8>, r4: Five, b: seq<byte>, l: nat)
    requires l < 4 && |b| == 64 && KeysOf(r4u, s4u, r4) && Reduced(Lane(acc, l))
    ensures Lane(BlockStep64(acc, r4u, s4u, RawWords(b)), l) == LaneStep(Lane(acc, l), r4, b[16 * l..16 * l + 16])
  {
    hide VectorDot, VectorCarry, LoadBlocks, Dot5, BlockLimbs, Carry26, Mul64, Broadcast, Reduced;
    var h := Lane(acc, l);
    KeyWidths(r4);
    var s1, s2, s3, s4 := 5 * r4.l1, 5 * r4.l2, 5 * r4.l3, 5 * r4.l4;
    VectorDotLane(acc, r4.l0, s4, s3, s2, s1, l);
    VectorDotLane(acc, r4.l1, r4.l0, s4, s3, s2, l);
    VectorDotLane(acc, r4.l2, r4.l1, r4.l0, s4, s3, l);
    VectorDotLane(acc, r4.l3, r4.l2, r4.l1, r4.l0, s4, l);
    VectorDotLane(acc, r4.l4, r4.l3, r4.l2, r4.l1, r4.l0, l);
    LoadBlocksLane(b, l);
    var m := LoadBlocks(RawWords(b));
    var d := Vec5(
      AddLanes(VectorDot(acc, r4u[0], s4u[3], s4u[2], s4u[1], s4u[0]), m.v0),
      AddLanes(VectorDot(acc, r4u[1], r4u[0], s4u[3], s4u[2], s4u[1]), m.v1),
      AddLanes(VectorDot(acc, r4u[2], r4u[1], r4u[0], s4u[3], s4u[2]), m.v2),
      AddLanes(VectorDot(acc, r4u[3], r4u[2], r4u[1], r4u[0], s4u[3]), m.v3),
      AddLanes(VectorDot(acc, r4u[4], r4u[3], r4u[2], r4u[1], r4u[0]), m.v4));
    assert Lane(d, l) == AddFive(Columns(h, r4), BlockLimbs(b[16 * l..16 * l + 16], true)) by { hide Add64; }
    ColumnsPlusBlock(h, r4, b[16 * l..16 * l + 16]);
    VectorCarryLane(d, l);
  }

  lemma KeyWidths(r4: Five)
    requires Reduced(r4)
    ensures Mul64(r4.l1, 5) == 5 * r4.l1 < B32 && Mul64(r4.l2, 5) == 5 * r4.l2 < B32
    ensures Mul64(r4.l3, 5) == 5 * r4.l3 < B32 && Mul64(r4.l4, 5) == 5 * r4.l4 < B32
    ensures r4.l0 < B32 && r4.l1 < B32 && r4.l2 < B32 && r4.l3 < B32 && r4.l4 < B32
  {}

  lemma ColumnsPlusBlock(h: Five, r4: Five, b: seq<byte>)
    requires Reduced(h) && Reduced(r4) && |b| == 16
    ensures Small(AddFive(Columns(h, r4), BlockLimbs(b, true)))
    ensures Cong(Value(AddFive(Columns(h, r4), BlockLimbs(b, true))), Value(h) * Value(r4) + LE(b) + B128, P)
  {
    hide Columns, BlockLimbs, Cong, AddFive, Value;
    ColumnsCorrect(h, r4);
    var c, m := Columns(h, r4), BlockLimbs(b, true);
    AddExact(c, m);
    CongSame(Value(m), P);
    CongAdd(Value(c), Value(h) * Value(r4), Value(m), Value(m), P);
  }

  lemma LaneStepCorrect(h: Five, r4: Five, b: seq<byte>)
    requires Reduced(h) && Reduced(r4) && |b| == 16
    ensures Reduced(LaneStep(h, r4, b))
    ensures Cong(Value(LaneStep(h, r4, b)), Value(h) * Value(r4) + Block(b), P)
  {
    hide Columns, BlockLimbs, Carry26, AddFive, Cong, Value;
    Pow256();
    ColumnsPlusBlock(h, r4, b);
    var d := AddFive(Columns(h, r4), BlockLimbs(b, true));
    CarryReduces(d);
    CongTrans(Value(LaneStep(h, r4, b)), Value(d), Value(h) * Value(r4) + Block(b), P);
  }

  // ---------------------------------------------------------- weighted lanes

  /** The lanes weighted r^4, r^3, r^2, r. */
  ghost function Weighted(x0: int, x1: int, x2: int, x3: int, r: int): int {
    x0 * Pow(r, 4) + x1 * Pow(r, 3) + x2 * Pow(r, 2) + x3 * Pow(r, 1)
  }

  ghost function FoldValue(acc: Vec5, r: int): int {
    Weighted(Value(Lane(acc, 0)), Value(Lane(acc, 1)), Value(Lane(acc, 2)), Value(Lane(acc, 3)), r)
  }

  ghost predicate LanesReduced(acc: Vec5) { forall l :: 0 <= l < 4 ==> Reduced(Lane(acc, l)) }

  lemma WeightedCong(x0: int, x1: int, x2: int, x3: int, y0: int, y1: int, y2: int, y3: int, r: int)
    requires Cong(x0, y0, P) && Cong(x1, y1, P) && Cong(x2, y2, P) && Cong(x3, y3, P)
    ensures Cong(Weighted(x0, x1, x2, x3, r), Weighted(y0, y1, y2, y3, r), P)
  {
    hide Cong, Pow;
    WeighOne(x0, y0, Pow(r, 4));
    WeighOne(x1, y1, Pow(r, 3));
    WeighOne(x2, y2, Pow(r, 2));
    WeighOne(x3, y3, Pow(r, 1));
    var a, b, c, d := x0 * Pow(r, 4), x1 * Pow(r, 3), x2 * Pow(r, 2), x3 * Pow(r, 1);
    var e, f, g, h := y0 * Pow(r, 4), y1 * Pow(r, 3), y2 * Pow(r, 2), y3 * Pow(r, 1);
    CongAdd(a, e, b, f, P);
    CongAdd(a + b, e + f, c, g, P);
    CongAdd(a + b + c, e + f + g, d, h, P);
  }

  lemma WeighOne(x: int, y: int, w: int)
    requires Cong(x, y, P)
    ensures Cong(x * w, y * w, P)
  {
    CongSame(w, P);
    CongMul(x, y, w, w, P);
  }

  lemma WeightedLinear(x0: int, x1: int, x2: int, x3: int, b0: int, b1: int, b2: int, b3: int, q: int, r: int)
    ensures Weighted(x0 * q + b0, x1 * q + b1, x2 * q + b2, x3 * q + b3, r)
         == Weighted(x0, x1, x2, x3, r) * q + Weighted(b0, b1, b2, b3, r)
  {
    hide Pow;
    SpreadOne(x0, b0, q, Pow(r, 4));
    SpreadOne(x1, b1, q, Pow(r, 3));
    SpreadOne(x2, b2, q, Pow(r, 2));
    SpreadOne(x3, b3, q, Pow(r, 1));
    SumTimes(x0 * Pow(r, 4), x1 * Pow(r, 3), x2 * Pow(r, 2), x3 * Pow(r, 1), q);
  }

  lemma SpreadOne(x: int, b: int, q: int, w: int)
    ensures (x * q + b) * w == (x * w) * q + b * w
  {}

  lemma SumTimes(a: int, b: int, c: int, d: int, q: int)
    ensures (a + b + c + d) * q == a * q + b * q + c * q + d * q
  {}

  /** Four Horner steps are one multiplication by r^4 plus the weighted blocks. */
  lemma FourBlocks(h: int, r: int, m: seq<byte>)
    requires |m| == 64
    ensures Cong(Horner(h, r, m), h * Pow(r, 4) + Weighted(Block(m[..16]), Block(m[16..32]), Block(m[32..48]), Block(m[48..]), r), P)
  {
    hide Cong, Horner;
    var b0, b1, b2, b3 := Block(m[..16]), Block(m[16..32]), Block(m[32..48]), Block(m[48..]);
    hide Block;
    assert m[..0] == [];
    HornerBlock(h, r, m[..16]);
    HornerSnoc(h, r, m[..16], m[16..32]);
    HornerSnoc(h, r, m[..32], m[32..48]);
    HornerSnoc(h, r, m[..48], m[48..]);
    assert m[..16] + m[16..32] == m[..32] && m[..32] + m[32..48] == m[..48] && m[..48] + m[48..] == m;
    var h1, h2, h3 := Horner(h, r, m[..16]), Horner(h, r, m[..32]), Horner(h, r, m[..48]);
    StepCong(h1, h, h, b0, r);
    StepCong(h2, h1, (h + b0) * r, b1, r);
    StepCong(h3, h2, ((h + b0) * r + b1) * r, b2, r);
    StepCong(Horner(h, r, m), h3, (((h + b0) * r + b1) * r + b2) * r, b3, r);
    HornerPolynomial(h, r, b0, b1, b2, b3);
  }

  lemma StepCong(h': int, h: int, x: int, b: int, r: int)
    requires h' == ((h + b) * r) % P && Cong(h, x, P)
    ensures Cong(h', (x + b) * r, P)
  {
    CongMod((h + b) * r, P);
    CongSame(b, P);
    CongAdd(h, x, b, b, P);
    WeighOne(h + b, x + b, r);
  }

  lemma HornerPolynomial(h: int, r: int, b0: int, b1: int, b2: int, b3: int)
    ensures ((((h + b0) * r + b1) * r + b2) * r + b3) * r == h * Pow(r, 4) + Weighted(b0, b1, b2, b3, r)
  {
    hide Pow;
    FourPowers(r);
    var r2 := r * r;
    var r3 := r * r2;
    Steps12(h + b0, r, r2, b1);
    Steps23(h + b0, r, r2, r3, b1, b2);
    Steps34(h + b0, r, r2, r3, b1, b2, b3);
    Shift(h, b0, r * r3);
  }

  lemma FourPowers(r: int)
    ensures Pow(r, 1) == r && Pow(r, 2) == r * r && Pow(r, 3) == r * (r * r) && Pow(r, 4) == r * (r * (r * r))
  {
    PowNext(r, 0);
    PowNext(r, 1);
    PowNext(r, 2);
    PowNext(r, 3);
  }

  lemma PowNext(r: int, e: nat)
    ensures Pow(r, e + 1) == r * Pow(r, e) && Pow(r, 0) == 1
  {}

  lemma Steps12(x: int, r: int, r2: int, b1: int)
    requires r2 == r * r
    ensures (x * r + b1) * r == x * r2 + b1 * r
  {}

  lemma Steps23(x: int, r: int, r2: int, r3: int, b1: int, b2: int)
    requires r2 == r * r && r3 == r * r2
    ensures (x * r2 + b1 * r + b2) * r == x * r3 + b1 * r2 + b2 * r
  {
    Shift(x * r2 + b1 * r, b2, r);
    Shift(x * r2, b1 * r, r);
    MulAssoc(x, r2, r);
    MulAssoc(b1, r, r);
  }

  lemma Steps34(x: int, r: int, r2: int, r3: int, b1: int, b2: int, b3: int)
    requires r2 == r * r && r3 == r * r2
    ensures (x * r3 + b1 * r2 + b2 * r + b3) * r == x * (r * r3) + b1 * r3 + b2 * r2 + b3 * r
  {
    Shift(x * r3 + b1 * r2 + b2 * r, b3, r);
    Shift(x * r3 + b1 * r2, b2 * r, r);
    Shift(x * r3, b1 * r2, r);
    MulAssoc(x, r3, r);
    MulAssoc(b1, r2, r);
    MulAssoc(b2, r, r);
  }

  lemma Shift(a: int, b: int, r: int)
    ensures (a + b) * r == a * r + b * r
  {}

  /** All of `total` before its suffix `rest` is in the weighted lanes. */
  ghost predicate UpTo64(acc: Vec5, r: int, total: seq<byte>, rest: seq<byte>) {
    LanesReduced(acc) && Absorbed(FoldValue(acc, r), r, total, rest)
  }

  lemma UpTo64Extend(acc: Vec5, r: int, total: seq<byte>, rest: seq<byte>, more: seq<byte>)
    requires UpTo64(acc, r, total, rest)
    ensures UpTo64(acc, r, total + more, rest + more)
  {
    AbsorbedExtend(FoldValue(acc, r), r, total, rest, more);
  }

  /** One 64-byte step of the lanes is four Horner steps of their weighted value. */
  lemma FoldStep(acc: Vec5, r4u: seq<U32x8>, s4u: seq<U32x8>, r4: Five, r: int, m: seq<byte>)
    requires |m| == 64 && KeysOf(r4u, s4u, r4) && IsKey(r4, r, 4) && LanesReduced(acc)
    ensures LanesReduced(BlockStep64(acc, r4u, s4u, RawWords(m)))
    ensures Cong(FoldValue(BlockStep64(acc, r4u, s4u, RawWords(m)), r), Horner(FoldValue(acc, r), r, m), P)
  {
    hide Cong, Horner, Block, BlockStep64, LaneStep, KeysOf, Reduced, Value, Weighted, Pow, RawWords;
    KeysReduced(r4u, s4u, r4);
    var acc' := BlockStep64(acc, r4u, s4u, RawWords(m));
    var q := Value(r4);
    forall l | 0 <= l < 4
      ensures Reduced(Lane(acc', l))
      ensures Cong(Value(Lane(acc', l)), Value(Lane(acc, l)) * q + Block(m[16 * l..16 * l + 16]), P)
    {
      BlockStep64Lane(acc, r4u, s4u, r4, m, l);
      LaneStepCorrect(Lane(acc, l), r4, m[16 * l..16 * l + 16]);
    }
    var x0, x1, x2, x3 := Value(Lane(acc, 0)), Value(Lane(acc, 1)), Value(Lane(acc, 2)), Value(Lane(acc, 3));
    var b0, b1, b2, b3 := Block(m[..16]), Block(m[16..32]), Block(m[32..48]), Block(m[48..]);
    assert m[0..16] == m[..16] && m[48..64] == m[48..];
    assert Cong(Value(Lane(acc', 0)), x0 * q + b0, P) && Cong(Value(Lane(acc', 1)), x1 * q + b1, P)
        && Cong(Value(Lane(acc', 2)), x2 * q + b2, P) && Cong(Value(Lane(acc', 3)), x3 * q + b3, P);
    WeightedCong(Value(Lane(acc', 0)), Value(Lane(acc', 1)), Value(Lane(acc', 2)), Value(Lane(acc', 3)),
                 x0 * q + b0, x1 * q + b1, x2 * q + b2, x3 * q + b3, r);
    WeightedLinear(x0, x1, x2, x3, b0, b1, b2, b3, q, r);
    var h := FoldValue(acc, r);
    FourBlocks(h, r, m);
    Combine(FoldValue(acc', r), h, q, Weighted(b0, b1, b2, b3, r), Pow(r, 4), Horner(h, r, m));
  }

  lemma KeysReduced(r4u: seq<U32x8>, s4u: seq<U32x8>, r4: Five)
    requires KeysOf(r4u, s4u, r4)
    ensures Reduced(r4) && |r4u| == 5 && |s4u| == 4
  {}

  lemma Combine(f': int, f: int, q: int, w: int, p: int, g: int)
    requires Cong(f', f * q + w, P) && Cong(q, p, P) && Cong(g, f * p + w, P)
    ensures Cong(f', g, P)
  {
    CongSame(f, P);
    CongMul(f, f, q, p, P);
    CongSame(w, P);
    CongAdd(f * q, f * p, w, w, P);
  }

  lemma FoldAdvances(acc: Vec5, r4u: seq<U32x8>, s4u: seq<U32x8>, r4: Five, r: int, total: seq<byte>, rest: seq<byte>)
    requires |rest| >= 64 && KeysOf(r4u, s4u, r4) && IsKey(r4, r, 4) && UpTo64(acc, r, total, rest)
    ensures |r4u| == 5 && |s4u| == 4
    ensures UpTo64(BlockStep64(acc, r4u, s4u, RawWords(rest[..64])), r, total, rest[64..])
  {
    hide Cong, BlockStep64, KeysOf, LanesReduced, FoldValue, Absorbed;
    KeysReduced(r4u, s4u, r4);
    FoldStep(acc, r4u, s4u, r4, r, rest[..64]);
    AbsorbedStep(FoldValue(acc, r), FoldValue(BlockStep64(acc, r4u, s4u, RawWords(rest[..64])), r), r, total, rest, 64);
  }

  // ----------------------------------------------------------- the last fold

  /** r, r^2, r^3, r^4 with each limb stored as a 32-bit word. */
  function Store32(h: Five): Five { Five(h.l0 % B32, h.l1 % B32, h.l2 % B32, h.l3 % B32, h.l4 % B32) }

  function Powers(r: Five): (p: seq<Five>)
    ensures |p| == 4
  {
    var p2 := Store32(Mul26(r, r));
    [r, p2, Store32(Mul26(p2, r)), Store32(Mul26(p2, p2))]
  }

  ghost predicate ArePowers(p: seq<Five>, r: int) {
    |p| == 4 && forall i :: 0 <= i < 4 ==> IsKey(p[i], r, i + 1)
  }

  lemma StoreExact(h: Five)
    requires Reduced(h)
    ensures Store32(h) == h
  {}

  lemma PowerProduct(a: Five, i: nat, b: Five, j: nat, r: int)
    requires IsKey(a, r, i) && IsKey(b, r, j)
    ensures IsKey(Store32(Mul26(a, b)), r, i + j)
  {
    hide Mul26, Cong, Value, Store32;
    Mul26Correct(a, b);
    StoreExact(Mul26(a, b));
    CongMul(Value(a), Pow(r, i), Value(b), Pow(r, j), P);
    PowAdd(r, i, j);
    CongTrans(Value(Mul26(a, b)), Value(a) * Value(b), Pow(r, i + j), P);
  }

  lemma PowersArePowers(k: Five, r: int)
    requires IsKey(k, r, 1)
    ensures ArePowers(Powers(k), r)
  {
    hide IsKey, Store32, Mul26;
    var p := Powers(k);
    PowerProduct(k, 1, k, 1, r);
    PowerProduct(p[1], 2, k, 1, r);
    PowerProduct(p[1], 2, p[1], 2, r);
  }

  function FoldLanes(acc: Vec5, p: seq<Five>): Five
    requires |p| == 4
  {
    Carry26(AddFive(AddFive(AddFive(
      Mul26(Lane(acc, 0), p[3]), Mul26(Lane(acc, 1), p[2])), Mul26(Lane(acc, 2), p[1])), Mul26(Lane(acc, 3), p[0])))
  }

  lemma FoldLanesCorrect(acc: Vec5, p: seq<Five>, r: int)
    requires LanesReduced(acc) && ArePowers(p, r)
    ensures Reduced(FoldLanes(acc, p)) && Cong(Value(FoldLanes(acc, p)), FoldValue(acc, r), P)
  {
    hide Cong, Mul26, AddFive, Carry26, Pow;
    var q0 := WeighLane(acc, 0, p[3], r, 4);
    var q1 := WeighLane(acc, 1, p[2], r, 3);
    var q2 := WeighLane(acc, 2, p[1], r, 2);
    var q3 := WeighLane(acc, 3, p[0], r, 1);
    AddExact(q0, q1);
    var s1 := AddFive(q0, q1);
    AddExact(s1, q2);
    var s2 := AddFive(s1, q2);
    AddExact(s2, q3);
    var s3 := AddFive(s2, q3);
    hide Value;
    CarryReduces(s3);
    FoldSum(acc, q0, q1, q2, q3, r, Value(FoldLanes(acc, p)));
  }

  lemma FoldSum(acc: Vec5, q0: Five, q1: Five, q2: Five, q3: Five, r: int, v: int)
    requires Cong(Value(q0), Value(Lane(acc, 0)) * Pow(r, 4), P) && Cong(Value(q1), Value(Lane(acc, 1)) * Pow(r, 3), P)
    requires Cong(Value(q2), Value(Lane(acc, 2)) * Pow(r, 2), P) && Cong(Value(q3), Value(Lane(acc, 3)) * Pow(r, 1), P)
    requires Cong(v, Value(q0) + Value(q1) + Value(q2) + Value(q3), P)
    ensures Cong(v, FoldValue(acc, r), P)
  {
    hide Cong, Pow, Value;
    var a, b, c, d := Value(q0), Value(q1), Value(q2), Value(q3);
    var e, f := Value(Lane(acc, 0)) * Pow(r, 4), Value(Lane(acc, 1)) * Pow(r, 3);
    var g, h := Value(Lane(acc, 2)) * Pow(r, 2), Value(Lane(acc, 3)) * Pow(r, 1);
    CongAdd(a, e, b, f, P);
    CongAdd(a + b, e + f, c, g, P);
    CongAdd(a + b + c, e + f + g, d, h, P);
    CongTrans(v, a + b + c + d, e + f + g + h, P);
  }

  lemma WeighLane(acc: Vec5, l: nat, k: Five, r: int, e: nat) returns (q: Five)
    requires l < 4 && LanesReduced(acc) && IsKey(k, r, e)
    ensures q == Mul26(Lane(acc, l), k) && Reduced(q) && Small(q)
    ensures Cong(Value(q), Value(Lane(acc, l)) * Pow(r, e), P)
  {
    hide Cong, Mul26, Pow, Value;
    q := Mul26(Lane(acc, l), k);
    Mul26Correct(Lane(acc, l), k);
    CongSame(Value(Lane(acc, l)), P);
    CongMul(Value(Lane(acc, l)), Value(Lane(acc, l)), Value(k), Pow(r, e), P);
    CongTrans(Value(q), Value(Lane(acc, l)) * Value(k), Value(Lane(acc, l)) * Pow(r, e), P);
  }

  lemma UpToFolded(acc: Vec5, p: seq<Five>, r: int, total: seq<byte>, rest: seq<byte>)
    requires |p| == 4 && ArePowers(p, r) && UpTo64(acc, r, total, rest)
    ensures UpTo(FoldLanes(acc, p), r, total, rest)
  {
    hide Cong, Horner, FoldLanes, Value, FoldValue, Reduced, LanesReduced, ArePowers;
    FoldLanesCorrect(acc, p, r);
    HornerEmpty(FoldValue(acc, r), r);
    assert rest[..0] == [] && rest[0..] == rest;
    AbsorbedStep(FoldValue(acc, r), Value(FoldLanes(acc, p)), r, total, rest, 0);
  }

  // --------------------------------------------------------------- the engine

  class FourLaneEngine {
    var acc: Vec5
    const r4u: seq<U32x8>
    const s4u: seq<U32x8>
    const rPow: seq<Five>
    const pad0: u64
    const pad1: u64
    const buf: array<byte>
    var bufLen: nat
    ghost const key: Key
    ghost var absorbed: seq<byte>

    ghost predicate Valid()
      reads this, buf
    {
      && buf.Length == 64 && bufLen < 64
      && ArePowers(rPow, Multiplier(key)) && KeysOf(r4u, s4u, rPow[3])
      && pad0 == PadLow(key) && pad1 == PadHigh(key)
      && UpTo64(acc, Multiplier(key), absorbed, buf[..bufLen])
    }

    constructor (key: Key)
      ensures Valid() && fresh(buf) && this.key == key && absorbed == []
    {
      hide KeyLimbs, Multiplier, Mul26, IsKey, Broadcast, Powers;
      KeyLimbsIsKey(key);
      var r := Multiplier(key);
      var p := Powers(KeyLimbs(key));
      PowersArePowers(KeyLimbs(key), r);
      KeyReduced(p, r);
      KeyWidths(p[3]);
      StoreTimes5(p[3]);
      rPow := p;
      r4u := [Broadcast(p[3].l0), Broadcast(p[3].l1), Broadcast(p[3].l2), Broadcast(p[3].l3), Broadcast(p[3].l4)];
      s4u := [Broadcast(p[3].l1 * 5 % B32), Broadcast(p[3].l2 * 5 % B32),
              Broadcast(p[3].l3 * 5 % B32), Broadcast(p[3].l4 * 5 % B32)];
      pad0, pad1 := PadLow(key), PadHigh(key);
      acc := Vec5(Splat(0), Splat(0), Splat(0), Splat(0), Splat(0));
      buf := new byte[64];
      bufLen := 0;
      this.key := key;
      absorbed := [];
      ZeroLanes(r);
    }

    method ProcessBlock64(blk: seq<byte>, ghost total: seq<byte>, ghost rest: seq<byte>)
      requires |blk| == 64 && blk <= rest
      requires ArePowers(rPow, Multiplier(key)) && KeysOf(r4u, s4u, rPow[3])
      requires UpTo64(acc, Multiplier(key), total, rest)
      modifies this`acc
      ensures acc == BlockStep64(old(acc), r4u, s4u, RawWords(blk))
      ensures UpTo64(acc, Multiplier(key), total, rest[64..])
    {
      hide UpTo64, BlockStep64, KeysOf, Multiplier, IsKey;
      FoldAdvances(acc, r4u, s4u, rPow[3], Multiplier(key), total, rest);
      assert rest[..64] == blk;
      acc := BlockStep64(acc, r4u, s4u, RawWords(blk));
    }

    /** The bulk loop keeps the accumulator in registers until the end. */
    method UpdateBlocks64(msg: seq<byte>, ghost total: seq<byte>, ghost rest: seq<byte>)
      requires |msg| % 64 == 0 && msg <= rest
      requires ArePowers(rPow, Multiplier(key)) && KeysOf(r4u, s4u, rPow[3])
      requires UpTo64(acc, Multiplier(key), total, rest)
      modifies this`acc
      ensures UpTo64(acc, Multiplier(key), total, rest[|msg|..])
    {
      hide UpTo64, BlockStep64, KeysOf, Multiplier, IsKey;
      if |msg| < 64 {
        assert rest[|msg|..] == rest;
        return;
      }
      ghost var r := Multiplier(key);
      var m, h := msg, acc;
      ghost var left := rest;
      while |m| >= 64
        invariant |m| % 64 == 0 && m <= left && left == rest[|msg| - |m|..]
        invariant UpTo64(h, r, total, left)
      {
        FoldAdvances(h, r4u, s4u, rPow[3], r, total, left);
        assert left[..64] == m[..64];
        h := BlockStep64(h, r4u, s4u, RawWords(m[..64]));
        m, left := m[64..], left[64..];
      }
      acc := h;
    }

    method UpdateStream(msg: seq<byte>)
      requires Valid()
      modifies this`acc, this`bufLen, this`absorbed, buf
      ensures Valid() && absorbed == old(absorbed) + msg
    {
      hide UpTo64, BlockStep64, KeysOf, Multiplier, ArePowers, PadLow, PadHigh, RawWords;
      var m := msg;
      ghost var total := absorbed + msg;
      UpTo64Extend(acc, Multiplier(key), absorbed, buf[..bufLen], msg);
      if bufLen > 0 {
        ghost var before := buf[..bufLen];
        var n := CopyAt(buf, bufLen, m);
        bufLen := bufLen + n;
        m := m[n..];
        assert buf[..bufLen] + m == before + msg;
        if bufLen < 64 {
          absorbed := total;
          assert buf[..bufLen] + m == buf[..bufLen];
          return;
        }
        assert (buf[..] + m)[64..] == m && buf[..64] == buf[..];
        ProcessBlock64(buf[..], total, buf[..] + m);
        bufLen := 0;
      } else {
        assert buf[..bufLen] + m == m;
      }
      UpdateAligned(m, total);
      absorbed := total;
    }

    /** The part of UpdateStream that runs with an empty buffer. */
    method UpdateAligned(msg: seq<byte>, ghost total: seq<byte>)
      requires buf.Length == 64 && bufLen == 0
      requires ArePowers(rPow, Multiplier(key)) && KeysOf(r4u, s4u, rPow[3])
      requires UpTo64(acc, Multiplier(key), total, msg)
      modifies this`acc, this`bufLen, buf
      ensures bufLen < 64 && UpTo64(acc, Multiplier(key), total, buf[..bufLen])
    {
      hide UpTo64, BlockStep64, KeysOf, Multiplier, ArePowers, RawWords, Whole64;
      var m := msg;
      if |m| >= 64 {
        var bulkLen := Whole64(|m|);
        UpdateBlocks64(m[..bulkLen], total, m);
        m := m[bulkLen..];
      }
      if |m| > 0 {
        bufLen := CopyAt(buf, 0, m);
        assert buf[..bufLen] == m;
      } else {
        assert buf[..bufLen] == m;
      }
    }

    /** Writes the RFC 8439 tag of everything absorbed. */
    method Finish() returns (out: seq<byte>)
      requires Valid()
      modifies this`bufLen
      ensures out == Tag(key, absorbed)
    {
      hide UpTo64, UpTo, BlockStep, Multiplier, FinishBytes, Tag, LastStep, FoldLanes, KeysOf, IsKey;
      ghost var r := Multiplier(key);
      var h := FoldLanes(acc, rPow);
      UpToFolded(acc, rPow, r, absorbed, buf[..bufLen]);
      var rem := buf[..bufLen];
      while |rem| >= 16
        invariant UpTo(h, r, absorbed, rem)
      {
        BlockAdvances(h, r, rPow[0], absorbed, rem);
        h := BlockStep(h, rem[..16], true, rPow[0]);
        rem := rem[16..];
      }
      if |rem| > 0 {
        LastAdvances(h, r, rPow[0], absorbed, rem);
        h := LastStep(h, rem, rPow[0]);
      } else {
        UpToAll(h, r, absorbed, rem);
      }
      bufLen := 0;
      FinishIsTag(h, key, absorbed);
      out := FinishBytes(h, pad0, pad1);
    }
  }

  /** n &^ 63 */
  function Whole64(n: nat): (k: nat)
    ensures k <= n < k + 64 && k % 64 == 0
  {
    n - n % 64
  }

  lemma KeyReduced(p: seq<Five>, r: int)
    requires ArePowers(p, r)
    ensures |p| == 4 && Reduced(p[3])
  {}

  lemma StoreTimes5(h: Five)
    requires Reduced(h)
    ensures h.l1 * 5 % B32 == 5 * h.l1 && h.l2 * 5 % B32 == 5 * h.l2
         && h.l3 * 5 % B32 == 5 * h.l3 && h.l4 * 5 % B32 == 5 * h.l4
  {}

  lemma ZeroLanes(r: int)
    ensures UpTo64(Vec5(Splat(0), Splat(0), Splat(0), Splat(0), Splat(0)), r, [], [])
  {
    hide Pow;
    var z := Vec5(Splat(0), Splat(0), Splat(0), Splat(0), Splat(0));
    assert forall l :: 0 <= l < 4 ==> Lane(z, l) == Five(0, 0, 0, 0, 0);
    AbsorbedNothing(r);
  }
}
