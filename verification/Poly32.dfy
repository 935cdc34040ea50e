/** The 32-bit limb engine: h stays at or below 4_ffffffff_ffffffff_ffffffff_ffffffff. */
module Poly32 {
  import opened Words
  import opened Bits
  import opened Poly1305Spec
  import opened Buffers
  import opened MonoUtil

  const B96 := 0x1_0000_0000_0000_0000_0000_0000

  datatype Hash = Hash(h0: u32, h1: u32, h2: u32, h3: u32, h4: u32)

  datatype Mult = Mult(r0: u32, r1: u32, r2: u32, r3: u32)

  function Value(h: Hash): int { h.h0 + B32 * h.h1 + B64 * h.h2 + B96 * h.h3 + B128 * h.h4 }

  function MultValue(r: Mult): int { r.r0 + B32 * r.r1 + B64 * r.r2 + B96 * r.r3 }

  /** The documented precondition and postcondition on h. */
  ghost predicate Reduced(h: Hash) { h.h4 <= 4 }

  ghost predicate Clamped(r: Mult) {
    && r.r0 <= 0x0fffffff
    && r.r1 <= 0x0ffffffc && r.r1 % 4 == 0
    && r.r2 <= 0x0ffffffc && r.r2 % 4 == 0
    && r.r3 <= 0x0ffffffc && r.r3 % 4 == 0
  }

  /** The four words of a block. */
  datatype Block4 = Block4(b0: u32, b1: u32, b2: u32, b3: u32)

  function BlockValue(b: Block4): int { b.b0 + B32 * b.b1 + B64 * b.b2 + B96 * b.b3 }

  function Dot4(s: seq<u64>, a0: u32, a1: u32, a2: u32, a3: u32, e: u32): u64
    requires |s| == 4
  {
    Add64(Add64(Add64(Add64(Mul64(s[0], a0), Mul64(s[1], a1)), Mul64(s[2], a2)), Mul64(s[3], a3)), e)
  }

  /** One iteration of poly_blocks; all words wrap at their declared width. */
  function Step(h: Hash, r: Mult, b: Block4, end: u32): Hash {
    var rr0 := Mul32(r.r0 / 4, 5);
    var rr1 := Add32(r.r1 / 4, r.r1);
    var rr2 := Add32(r.r2 / 4, r.r2);
    var rr3 := Add32(r.r3 / 4, r.r3);
    var rr4 := r.r0 % 4;
    var s := [h.h0 + b.b0, h.h1 + b.b1, h.h2 + b.b2, h.h3 + b.b3];
    var s4 := Add32(h.h4, end);
    var x0 := Dot4(s, r.r0, rr3, rr2, rr1, Mul32(s4, rr0));
    var x1 := Dot4(s, r.r1, r.r0, rr3, rr2, Mul32(s4, rr1));
    var x2 := Dot4(s, r.r2, r.r1, r.r0, rr3, Mul32(s4, rr2));
    var x3 := Dot4(s, r.r3, r.r2, r.r1, r.r0, Mul32(s4, rr3));
    Fold(x0, x1, x2, x3, Mul32(s4, rr4))
  }

  /** Partial reduction modulo 2^130 - 5. */
  function Fold(x0: u64, x1: u64, x2: u64, x3: u64, x4: u32): Hash {
    var u5 := Add32(x3 / B32, x4);
    var u0 := Add64(Mul32(u5 / 4, 5), x0 % B32);
    var u1 := Add64(Add64(u0 / B32, x1 % B32), x0 / B32);
    var u2 := Add64(Add64(u1 / B32, x2 % B32), x1 / B32);
    var u3 := Add64(Add64(u2 / B32, x3 % B32), x2 / B32);
    var u4 := Add32(u3 / B32, u5 % 4);
    Hash(u0 % B32, u1 % B32, u2 % B32, u3 % B32, u4)
  }

  // ---------------------------------------------------------------- one step

  lemma DotExact(s: seq<u64>, a0: u32, a1: u32, a2: u32, a3: u32, e: u32)
    requires |s| == 4 && s[0] < 2 * B32 && s[1] < 2 * B32 && s[2] < 2 * B32 && s[3] < 2 * B32
    requires a0 < 0x1400_0000 && a1 < 0x1400_0000 && a2 < 0x1400_0000 && a3 < 0x1400_0000
    requires a0 + a1 + a2 + a3 < 0x4c00_0000 && e < 0x8000_0000
    ensures Dot4(s, a0, a1, a2, a3, e) == s[0] * a0 + s[1] * a1 + s[2] * a2 + s[3] * a3 + e
    ensures s[0] * a0 + s[1] * a1 + s[2] * a2 + s[3] * a3 + e < 0x9800_0001_0000_0000
  {
    hide Mul64, Add64;
    WordProduct(s[0], a0);
    WordProduct(s[1], a1);
    WordProduct(s[2], a2);
    WordProduct(s[3], a3);
    var p0, p1, p2, p3 := Mul64(s[0], a0), Mul64(s[1], a1), Mul64(s[2], a2), Mul64(s[3], a3);
    NoWrap(p0, p1);
    NoWrap(p0 + p1, p2);
    NoWrap(p0 + p1 + p2, p3);
    NoWrap(p0 + p1 + p2 + p3, e);
  }

  lemma WordProduct(s: u64, a: u32)
    requires s < 2 * B32 && a < 0x1400_0000
    ensures Mul64(s, a) == s * a && 0 <= s * a <= 2 * B32 * a
  {
    MulMono(s, 2 * B32, a);
    MulMono(0, s, a);
  }

  lemma FoldExact(x0: u64, x1: u64, x2: u64, x3: u64, x4: u32, u5: int, u0: int, u1: int, u2: int, u3: int)
    requires x0 < 0x9800_0001_0000_0000 && x1 < 0x9800_0001_0000_0000
    requires x2 < 0x9800_0001_0000_0000 && x3 < 0x9800_0001_0000_0000 && x4 <= 15
    requires u5 == x3 / B32 + x4 && u0 == 5 * (u5 / 4) + x0 % B32 && u1 == u0 / B32 + x1 % B32 + x0 / B32
    requires u2 == u1 / B32 + x2 % B32 + x1 / B32 && u3 == u2 / B32 + x3 % B32 + x2 / B32
    ensures u3 / B32 <= 1
    ensures Fold(x0, x1, x2, x3, x4) == Hash(u0 % B32, u1 % B32, u2 % B32, u3 % B32, u3 / B32 + u5 % 4)
  {
    hide Add64, Add32, Mul32;
    SmallSum(x3 / B32, x4);
    FiveTimes(u5 / 4);
    HalfSums(u0 / B32, x1, x0, u1);
    HalfSums(u1 / B32, x2, x1, u2);
    HalfSums(u2 / B32, x3, x2, u3);
    NoWrap(5 * (u5 / 4), x0 % B32);
    NoWrap(u0 / B32, x1 % B32);
    NoWrap(u0 / B32 + x1 % B32, x0 / B32);
    NoWrap(u1 / B32, x2 % B32);
    NoWrap(u1 / B32 + x2 % B32, x1 / B32);
    NoWrap(u2 / B32, x3 % B32);
    NoWrap(u2 / B32 + x3 % B32, x2 / B32);
    SmallSum(u3 / B32, u5 % 4);
  }

  lemma HalfSums(c: int, x: u64, y: u64, u: int)
    requires 0 <= c <= 1 && y < 0x9800_0001_0000_0000 && u == c + x % B32 + y / B32
    ensures 0 <= u / B32 <= 1 && y / B32 <= 0x9800_0000
  {}

  lemma FiveTimes(a: u32)
    requires a <= 0x2600_0004
    ensures Mul32(a, 5) == 5 * a
  {}

  lemma SmallSum(a: u32, b: u32)
    ensures a + b < B32 ==> Add32(a, b) == a + b
  {}

  lemma FoldCorrect(x0: u64, x1: u64, x2: u64, x3: u64, x4: u32)
    requires x0 < 0x9800_0001_0000_0000 && x1 < 0x9800_0001_0000_0000
    requires x2 < 0x9800_0001_0000_0000 && x3 < 0x9800_0001_0000_0000 && x4 <= 15
    ensures Reduced(Fold(x0, x1, x2, x3, x4))
    ensures Cong(Value(Fold(x0, x1, x2, x3, x4)), x0 + B32 * x1 + B64 * x2 + B96 * x3 + B128 * x4, P)
  {
    hide Fold, Cong;
    var u5 := x3 / B32 + x4;
    var u0 := 5 * (u5 / 4) + x0 % B32;
    var u1 := u0 / B32 + x1 % B32 + x0 / B32;
    var u2 := u1 / B32 + x2 % B32 + x1 / B32;
    var u3 := u2 / B32 + x3 % B32 + x2 / B32;
    FoldExact(x0, x1, x2, x3, x4, u5, u0, u1, u2, u3);
    CongBy(Value(Fold(x0, x1, x2, x3, x4)), x0 + B32 * x1 + B64 * x2 + B96 * x3 + B128 * x4, -(u5 / 4), P);
  }

  /** (h + c) * r by columns: the wrapped products use r/4 * 5, the two low bits of r0 aside. */
  lemma Products(s0: int, s1: int, s2: int, s3: int, s4: int, r: Mult) returns (k: int)
    requires Clamped(r)
    ensures (s0 + B32 * s1 + B64 * s2 + B96 * s3 + B128 * s4) * MultValue(r)
         == (s0 * r.r0 + s1 * (r.r3 / 4 * 5) + s2 * (r.r2 / 4 * 5) + s3 * (r.r1 / 4 * 5) + s4 * (r.r0 / 4 * 5))
          + B32 * (s0 * r.r1 + s1 * r.r0 + s2 * (r.r3 / 4 * 5) + s3 * (r.r2 / 4 * 5) + s4 * (r.r1 / 4 * 5))
          + B64 * (s0 * r.r2 + s1 * r.r1 + s2 * r.r0 + s3 * (r.r3 / 4 * 5) + s4 * (r.r2 / 4 * 5))
          + B96 * (s0 * r.r3 + s1 * r.r2 + s2 * r.r1 + s3 * r.r0 + s4 * (r.r3 / 4 * 5))
          + B128 * (s4 * (r.r0 % 4)) + k * P
  {
    var q0, q1, q2, q3, t := r.r0 / 4, r.r1 / 4, r.r2 / 4, r.r3 / 4, r.r0 % 4;
    assert r.r0 == 4 * q0 + t && r.r1 == 4 * q1 && r.r2 == 4 * q2 && r.r3 == 4 * q3;
    var v := (4 * q0 + t) + B32 * (4 * q1) + B64 * (4 * q2) + B96 * (4 * q3);
    Row0(s0, q0, q1, q2, q3, t, v);
    Row1(s1, q0, q1, q2, q3, t, v);
    Row2(s2, q0, q1, q2, q3, t, v);
    Row3(s3, q0, q1, q2, q3, t, v);
    Row4(s4, q0, q1, q2, q3, t, v);
    SumTimes5(s0, s1, s2, s3, s4, v);
    k := s1 * q3 + (s2 * q2 + B32 * (s2 * q3)) + (s3 * q1 + B32 * (s3 * q2) + B64 * (s3 * q3))
       + (s4 * q0 + B32 * (s4 * q1) + B64 * (s4 * q2) + B96 * (s4 * q3));
  }

  /** One row of the product, word j of the multiplicand at its weight. */
  lemma Row0(s: int, q0: int, q1: int, q2: int, q3: int, t: int, v: int)
    requires v == (4 * q0 + t) + B32 * (4 * q1) + B64 * (4 * q2) + B96 * (4 * q3)
    ensures s * v == s * (4 * q0 + t) + B32 * (s * (4 * q1)) + B64 * (s * (4 * q2)) + B96 * (s * (4 * q3))
  {}

  lemma Row1(s: int, q0: int, q1: int, q2: int, q3: int, t: int, v: int)
    requires v == (4 * q0 + t) + B32 * (4 * q1) + B64 * (4 * q2) + B96 * (4 * q3)
    ensures B32 * (s * v) == s * (q3 * 5) + B32 * (s * (4 * q0 + t)) + B64 * (s * (4 * q1)) + B96 * (s * (4 * q2)) + (s * q3) * P
  {
    Row0(s, q0, q1, q2, q3, t, v);
    Scaled(s, q3);
  }

  lemma Row2(s: int, q0: int, q1: int, q2: int, q3: int, t: int, v: int)
    requires v == (4 * q0 + t) + B32 * (4 * q1) + B64 * (4 * q2) + B96 * (4 * q3)
    ensures B64 * (s * v) == s * (q2 * 5) + B32 * (s * (q3 * 5)) + B64 * (s * (4 * q0 + t)) + B96 * (s * (4 * q1))
      + (s * q2 + B32 * (s * q3)) * P
  {
    Row0(s, q0, q1, q2, q3, t, v);
    Scaled(s, q2);
    Scaled(s, q3);
  }

  lemma Row3(s: int, q0: int, q1: int, q2: int, q3: int, t: int, v: int)
    requires v == (4 * q0 + t) + B32 * (4 * q1) + B64 * (4 * q2) + B96 * (4 * q3)
    ensures B96 * (s * v) == s * (q1 * 5) + B32 * (s * (q2 * 5)) + B64 * (s * (q3 * 5)) + B96 * (s * (4 * q0 + t))
      + (s * q1 + B32 * (s * q2) + B64 * (s * q3)) * P
  {
    Row0(s, q0, q1, q2, q3, t, v);
    Scaled(s, q1);
    Scaled(s, q2);
    Scaled(s, q3);
  }

  lemma Row4(s: int, q0: int, q1: int, q2: int, q3: int, t: int, v: int)
    requires v == (4 * q0 + t) + B32 * (4 * q1) + B64 * (4 * q2) + B96 * (4 * q3)
    ensures B128 * (s * v) == s * (q0 * 5) + B32 * (s * (q1 * 5)) + B64 * (s * (q2 * 5)) + B96 * (s * (q3 * 5)) + B128 * (s * t)
      + (s * q0 + B32 * (s * q1) + B64 * (s * q2) + B96 * (s * q3)) * P
  {
    Row0(s, q0, q1, q2, q3, t, v);
    Scaled(s, q0);
    Scaled(s, q1);
    Scaled(s, q2);
    Scaled(s, q3);
    assert s * (4 * q0 + t) == 4 * (s * q0) + s * t;
  }

  lemma Scaled(s: int, q: int)
    ensures s * (4 * q) == 4 * (s * q) && s * (q * 5) == 5 * (s * q)
  {}

  lemma SumTimes5(a: int, b: int, c: int, d: int, e: int, v: int)
    ensures (a + B32 * b + B64 * c + B96 * d + B128 * e) * v
         == a * v + B32 * (b * v) + B64 * (c * v) + B96 * (d * v) + B128 * (e * v)
  {}

  lemma StepCorrect(h: Hash, r: Mult, b: Block4, end: u32)
    requires Reduced(h) && Clamped(r) && end <= 1
    ensures Reduced(Step(h, r, b, end))
    ensures Cong(Value(Step(h, r, b, end)), (Value(h) + BlockValue(b) + B128 * end) * MultValue(r), P)
  {
    hide Dot4, Fold, Cong;
    var q0, q1, q2, q3, t := r.r0 / 4 * 5, r.r1 / 4 * 5, r.r2 / 4 * 5, r.r3 / 4 * 5, r.r0 % 4;
    var s := [h.h0 + b.b0, h.h1 + b.b1, h.h2 + b.b2, h.h3 + b.b3];
    var s4 := h.h4 + end;
    ScaledWords(r);
    SmallSum(h.h4, end);
    TopProducts(s4, q0, q1, q2, q3, t);
    hide Add32, Mul32;
    DotExact(s, r.r0, q3, q2, q1, s4 * q0);
    DotExact(s, r.r1, r.r0, q3, q2, s4 * q1);
    DotExact(s, r.r2, r.r1, r.r0, q3, s4 * q2);
    DotExact(s, r.r3, r.r2, r.r1, r.r0, s4 * q3);
    var x0, x1 := Dot4(s, r.r0, q3, q2, q1, s4 * q0), Dot4(s, r.r1, r.r0, q3, q2, s4 * q1);
    var x2, x3 := Dot4(s, r.r2, r.r1, r.r0, q3, s4 * q2), Dot4(s, r.r3, r.r2, r.r1, r.r0, s4 * q3);
    assert Step(h, r, b, end) == Fold(x0, x1, x2, x3, s4 * t);
    FoldCorrect(x0, x1, x2, x3, s4 * t);
    var k := Products(s[0], s[1], s[2], s[3], s4, r);
    var n := x0 + B32 * x1 + B64 * x2 + B96 * x3 + B128 * (s4 * t);
    var v := s[0] + B32 * s[1] + B64 * s[2] + B96 * s[3] + B128 * s4;
    assert v == Value(h) + BlockValue(b) + B128 * end;
    CongBy(v * MultValue(r), n, k, P);
    CongVia(Value(Step(h, r, b, end)), n, v * MultValue(r), P);
  }

  lemma ScaledWords(r: Mult)
    requires Clamped(r)
    ensures Mul32(r.r0 / 4, 5) == r.r0 / 4 * 5 < 0x1400_0000
    ensures Add32(r.r1 / 4, r.r1) == r.r1 / 4 * 5 < 0x1400_0000
    ensures Add32(r.r2 / 4, r.r2) == r.r2 / 4 * 5 < 0x1400_0000
    ensures Add32(r.r3 / 4, r.r3) == r.r3 / 4 * 5 < 0x1400_0000
    ensures r.r0 / 4 * 5 + r.r1 / 4 * 5 + r.r2 / 4 * 5 + r.r3 / 4 * 5 < 0x5000_0000
  {}

  lemma TopProducts(s4: u32, q0: u32, q1: u32, q2: u32, q3: u32, t: u32)
    requires s4 <= 5 && q0 < 0x1400_0000 && q1 < 0x1400_0000 && q2 < 0x1400_0000 && q3 < 0x1400_0000 && t <= 3
    ensures Mul32(s4, q0) == s4 * q0 < 0x8000_0000 && Mul32(s4, q1) == s4 * q1 < 0x8000_0000
    ensures Mul32(s4, q2) == s4 * q2 < 0x8000_0000 && Mul32(s4, q3) == s4 * q3 < 0x8000_0000
    ensures Mul32(s4, t) == s4 * t <= 15
    ensures 0 <= s4 * q0 && 0 <= s4 * q1 && 0 <= s4 * q2 && 0 <= s4 * q3 && 0 <= s4 * t
  {
    TopProduct(s4, q0);
    TopProduct(s4, q1);
    TopProduct(s4, q2);
    TopProduct(s4, q3);
    MulMono(s4, 5, t);
    MulMono(0, s4, t);
  }

  lemma TopProduct(s4: u32, q: u32)
    requires s4 <= 5 && q < 0x1400_0000
    ensures 0 <= s4 * q < 0x8000_0000 && Mul32(s4, q) == s4 * q
  {
    MulMono(s4, 5, q);
    MulMono(0, s4, q);
  }

  /** poly_blocks: nb_blocks iterations over the input. */
  function Steps(h: Hash, r: Mult, input: seq<byte>, nbBlocks: nat, end: u32): Hash
    requires 16 * nbBlocks <= |input|
  {
    if nbBlocks == 0 then h
    else Step(Steps(h, r, input, nbBlocks - 1, end), r, LoadBlock(input[16 * (nbBlocks - 1)..16 * nbBlocks]), end)
  }

  ghost predicate UpTo(h: Hash, r: int, total: seq<byte>, rest: seq<byte>) {
    Reduced(h) && Absorbed(Value(h), r, total, rest)
  }

  lemma UpToExtend(h: Hash, r: int, total: seq<byte>, rest: seq<byte>, more: seq<byte>)
    requires UpTo(h, r, total, rest)
    ensures UpTo(h, r, total + more, rest + more)
  {
    AbsorbedExtend(Value(h), r, total, rest, more);
  }

  lemma StepIsHorner(h: Hash, r: Mult, b: seq<byte>, end: u32)
    requires Reduced(h) && Clamped(r) && end <= 1 && |b| == 16
    ensures Reduced(Step(h, r, LoadBlock(b), end))
    ensures Cong(Value(Step(h, r, LoadBlock(b), end)), ((Value(h) + LE(b) + B128 * end) * MultValue(r)) % P, P)
  {
    hide Step, Cong, Value, MultValue, Clamped, Reduced;
    StepCorrect(h, r, LoadBlock(b), end);
    FourWords(b);
    var y := (Value(h) + LE(b) + B128 * end) * MultValue(r);
    CongMod(y, P);
    CongVia(Value(Step(h, r, LoadBlock(b), end)), y, y % P, P);
  }

  /** With end == 1, nb_blocks whole blocks are nb_blocks Horner steps. */
  lemma {:induction false} StepsAdvance(h: Hash, r: Mult, total: seq<byte>, rest: seq<byte>, input: seq<byte>, n: nat)
    requires 16 * n <= |input| && input <= rest && Clamped(r) && UpTo(h, MultValue(r), total, rest)
    ensures UpTo(Steps(h, r, input, n, 1), MultValue(r), total, rest[16 * n..])
    decreases n
  {
    hide Step, Cong, Value, MultValue, Clamped, Reduced, Absorbed, LoadBlock;
    if n > 0 {
      StepsAdvance(h, r, total, rest, input, n - 1);
      var g, m := Steps(h, r, input, n - 1, 1), rest[16 * (n - 1)..];
      var b := input[16 * (n - 1)..16 * n];
      assert m[..16] == b && m[16..] == rest[16 * n..];
      StepIsHorner(g, r, b, 1);
      Pow256();
      HornerBlock(Value(g), MultValue(r), b);
      AbsorbedStep(Value(g), Value(Step(g, r, LoadBlock(b), 1)), MultValue(r), total, m, 16);
    }
  }

  /** With end == 0, a padded short block is the last Horner step. */
  lemma LastAdvances(h: Hash, r: Mult, total: seq<byte>, rem: seq<byte>)
    requires 0 < |rem| < 16 && Clamped(r) && UpTo(h, MultValue(r), total, rem)
    ensures Reduced(Steps(h, r, Padded(rem), 1, 0))
    ensures Cong(Value(Steps(h, r, Padded(rem), 1, 0)), Horner(0, MultValue(r), total), P)
  {
    hide Step, Cong, Value, MultValue, Clamped, Reduced, Absorbed, LoadBlock, Padded;
    var b := Padded(rem);
    assert b[0..16] == b && Steps(h, r, b, 0, 0) == h;
    PaddedIsBlock(rem);
    StepIsHorner(h, r, b, 0);
    HornerBlock(Value(h), MultValue(r), rem);
    assert rem[..|rem|] == rem;
    AbsorbedStep(Value(h), Value(Step(h, r, LoadBlock(b), 0)), MultValue(r), total, rem, |rem|);
  }

  // -------------------------------------------------------------- whole words

  function WordAt(b: seq<byte>, i: nat): (w: u32)
    requires 4 * i + 4 <= |b|
    ensures w == LE(b[4 * i..4 * i + 4])
  {
    WordRange(b[4 * i..4 * i + 4]);
    LE(b[4 * i..4 * i + 4])
  }

  function LoadBlock(b: seq<byte>): Block4
    requires |b| >= 16
  {
    Block4(WordAt(b, 0), WordAt(b, 1), WordAt(b, 2), WordAt(b, 3))
  }

  lemma FourWords(b: seq<byte>)
    requires |b| == 16
    ensures LE(b) == WordAt(b, 0) + B32 * WordAt(b, 1) + B64 * WordAt(b, 2) + B96 * WordAt(b, 3)
  {
    hide Val;
    Pow256();
    BlockWords(b);
    ValAppend(256, b[0..4], b[4..8]);
    ValAppend(256, b[8..12], b[12..16]);
    assert b[0..4] + b[4..8] == b[..8] && b[8..12] + b[12..16] == b[8..];
  }

  /** The four clamped words of the key. */
  function KeyMult(key: Key): Mult {
    Mult(LowAnd(WordAt(key, 0), 0x0fffffff), LowAnd(WordAt(key, 1), 0x0ffffffc),
         LowAnd(WordAt(key, 2), 0x0ffffffc), LowAnd(WordAt(key, 3), 0x0ffffffc))
  }

  function LowAnd(x: u32, mask: u32): (r: u32)
    ensures r == And(x, mask) && r <= mask
  {
    AndBelow(x, mask);
    And(x, mask)
  }

  lemma AndKeepsZeros(x: nat, y: nat)
    ensures And(x, 4 * y) % 4 == 0
  {
    assert (4 * y) / 2 == 2 * y && (2 * y) / 2 == y;
    assert And(x, 4 * y) == 2 * And(x / 2, 2 * y) && And(x / 2, 2 * y) == 2 * And(x / 2 / 2, y);
  }

  lemma KeyMultClamped(key: Key)
    ensures Clamped(KeyMult(key)) && MultValue(KeyMult(key)) == Multiplier(key)
  {
    hide Bitwise, Pow, WordAt;
    AndKeepsZeros(WordAt(key, 1), 0x03ffffff);
    AndKeepsZeros(WordAt(key, 2), 0x03ffffff);
    AndKeepsZeros(WordAt(key, 3), 0x03ffffff);
    var w0, w1, w2, w3 := WordAt(key, 0), WordAt(key, 1), WordAt(key, 2), WordAt(key, 3);
    KeyWords(key);
    Pow2Widths();
    BitwiseSplit(AndBit, 32, w0, 0x0fffffff, w1, 0x0ffffffc);
    BitwiseSplit(AndBit, 32, w2, 0x0ffffffc, w3, 0x0ffffffc);
    ClampWords(key);
  }

  lemma KeyWords(key: Key)
    ensures LE(key[..8]) == WordAt(key, 0) + B32 * WordAt(key, 1)
    ensures LE(key[8..16]) == WordAt(key, 2) + B32 * WordAt(key, 3)
  {
    hide Val;
    Pow256();
    ValAppend(256, key[0..4], key[4..8]);
    ValAppend(256, key[8..12], key[12..16]);
    assert key[0..4] + key[4..8] == key[..8] && key[8..12] + key[12..16] == key[8..16];
  }

  // ------------------------------------------------------------------- finish

  /** Adding 5 carries out of bit 130 exactly when h >= P. */
  lemma SubtractCount(h: Hash)
    requires Reduced(h)
    ensures (5 + Value(h)) / (4 * B128) == if Value(h) >= P then 1 else 0
    ensures (Value(h) % B128 + 5 * ((5 + Value(h)) / (4 * B128))) % B128 == Value(h) % P % B128
  {
    var v := Value(h);
    assert 0 <= v < 5 * B128;
    hide Value;
    if v >= P {
      DivModUnique(v, 1, v - P, P);
      DivModUnique(5 + v, 1, v - P, 4 * B128);
      CongBy(v % B128 + 5, v - P, 1 - v / B128 + 3, B128);
    } else {
      DivModUnique(v, 0, v, P);
      DivModUnique(5 + v, 0, 5 + v, 4 * B128);
      ModTwice(v, B128);
    }
  }

  lemma ModTwice(v: int, m: int)
    requires m > 0
    ensures v % m % m == v % m
  {
    DivModUnique(v % m, 0, v % m, m);
  }

  /** The low words of h, the top word, and the carry chain started with 5. */
  lemma TopCarry(h: Hash, w: seq<u32>)
    requires Reduced(h) && w == [h.h0, h.h1, h.h2, h.h3]
    ensures Pow(B32, 4) == B128 && Val(B32, w) == Value(h) % B128
    ensures ((5 + Val(B32, w)) / B128 + h.h4) / 4 == (5 + Value(h)) / (4 * B128)
  {
    var v := h.h0 + B32 * h.h1 + B64 * h.h2 + B96 * h.h3;
    ValFour(h.h0, h.h1, h.h2, h.h3);
    DivModUnique(Value(h), h.h4, v, B128);
    PowAdd(B32, 2, 2);
    assert Pow(B32, 2) == B64;
  }

  lemma StoreWord(mac: seq<byte>, carry: int, i: nat)
    requires |mac| == 4 * i && carry >= 0
    ensures LE(mac + ToLE(carry % B32, 4)) + Pow(B32, i + 1) * (carry / B32) == LE(mac) + Pow(B32, i) * carry
  {
    hide Val, Digits;
    var word := ToLE(carry % B32, 4);
    ValAppend(256, mac, word);
    Pow256();
    PowMul(256, 4, i);
    ValOfDigits(256, carry % B32, 4);
    MulAssoc(Pow(B32, i), B32, carry / B32);
    Distribute(Pow(B32, i), carry % B32, B32 * (carry / B32));
  }

  lemma ChainSum(x: int, w: seq<int>, pad: seq<int>, i: nat, c0: int, carry: int)
    requires i < |w| && i < |pad|
    requires x + Pow(B32, i) * carry == c0 + Val(B32, w[..i]) + Val(B32, pad[..i])
    ensures x + Pow(B32, i) * (carry + w[i] + pad[i]) == c0 + Val(B32, w[..i + 1]) + Val(B32, pad[..i + 1])
  {
    hide Val;
    assert w[..i + 1] == w[..i] + [w[i]] && pad[..i + 1] == pad[..i] + [pad[i]];
    ValSnoc(B32, w[..i], w[i]);
    ValSnoc(B32, pad[..i], pad[i]);
    Distribute(Pow(B32, i), carry, w[i] + pad[i]);
    Distribute(Pow(B32, i), w[i], pad[i]);
    assert carry + w[i] + pad[i] == carry + (w[i] + pad[i]);
  }

  lemma MacIsTag(key: Key, m: seq<byte>, h: Hash, mac: seq<byte>, c0: int, carry: int, w: seq<u32>)
    requires Reduced(h) && Cong(Value(h), Horner(0, Multiplier(key), m), P)
    requires |mac| == 16 && c0 == 5 * ((5 + Value(h)) / (4 * B128)) && Val(B32, w) == Value(h) % B128
    requires LE(mac) + B128 * carry == c0 + Val(B32, w) + LE(key[16..])
    ensures mac == Tag(key, m)
  {
    hide Value, Horner, Val, Digits, Reduced;
    var x := Horner(0, Multiplier(key), m);
    SubtractCount(h);
    HornerRange(0, Multiplier(key), m);
    DivModUnique(x, 0, x, P);
    ValBound(256, mac);
    Pow256();
    var v := Val(B32, w);
    assert x % B128 == (v + c0) % B128;
    assert LE(mac) == (x + LE(key[16..])) % B128 by {
      var pad := LE(key[16..]);
      DivModUnique(v + c0 + pad, carry, LE(mac), B128);
      CongAdd(v + c0, x, pad, pad, B128);
    }
    DigitsOfVal(256, mac);
  }

  lemma KeyPads(key: Key)
    ensures Val(B32, [WordAt(key, 4), WordAt(key, 5), WordAt(key, 6), WordAt(key, 7)]) == LE(key[16..])
  {
    var b := key[16..];
    FourWords(b);
    forall i | 0 <= i < 4 ensures WordAt(b, i) == WordAt(key, 4 + i) { assert b[4 * i..4 * i + 4] == key[4 * (4 + i)..4 * (4 + i) + 4]; }
    hide WordAt, LE;
    ValFour(WordAt(b, 0), WordAt(b, 1), WordAt(b, 2), WordAt(b, 3));
  }

  lemma ValFour(a: u32, b: u32, c: u32, d: u32)
    ensures Val(B32, [a, b, c, d]) == a + B32 * b + B64 * c + B96 * d
  {
    assert Val(B32, [d]) == d;
    ValAppend(B32, [c], [d]);
    ValAppend(B32, [b], [c, d]);
    ValAppend(B32, [a], [b, c, d]);
    assert [c] + [d] == [c, d] && [b] + [c, d] == [b, c, d] && [a] + [b, c, d] == [a, b, c, d];
    assert Val(B32, [a]) == a && Val(B32, [b]) == b && Val(B32, [c]) == c && Pow(B32, 1) == B32;
  }

  class PolyContext {
    const c: array<byte>
    var cIdx: nat
    const r: Mult
    const pad: seq<u32>
    var h: Hash
    ghost const key: Key
    ghost var absorbed: seq<byte>

    ghost predicate Valid()
      reads this, c
    {
      && c.Length == 16 && cIdx < 16
      && Clamped(r) && MultValue(r) == Multiplier(key)
      && |pad| == 4 && Val(B32, pad) == LE(key[16..])
      && UpTo(h, Multiplier(key), absorbed, c[..cIdx])
    }

    constructor (key: Key)
      ensures Valid() && fresh(c) && this.key == key && absorbed == []
    {
      hide KeyMult, Multiplier;
      KeyMultClamped(key);
      KeyPads(key);
      r := KeyMult(key);
      pad := [WordAt(key, 4), WordAt(key, 5), WordAt(key, 6), WordAt(key, 7)];
      h := Hash(0, 0, 0, 0, 0);
      c := new byte[16];
      cIdx := 0;
      this.key := key;
      absorbed := [];
      AbsorbedNothing(Multiplier(key));
    }

    method PolyBlocks(input: seq<byte>, nbBlocks: nat, end: u32)
      requires 16 * nbBlocks <= |input|
      modifies this`h
      ensures h == Steps(old(h), r, input, nbBlocks, end)
    {
      hide Step, LoadBlock;
      var i := 0;
      while i < nbBlocks
        invariant 0 <= i <= nbBlocks && h == Steps(old(h), r, input, i, end)
      {
        h := Step(h, r, LoadBlock(input[16 * i..16 * (i + 1)]), end);
        i := i + 1;
      }
    }

    method Update(message: seq<byte>)
      requires Valid() && |message| < B64
      modifies this`cIdx, this`h, this`absorbed, c
      ensures Valid() && absorbed == old(absorbed) + message
    {
      hide UpTo, Multiplier, Clamped, MultValue, Gap, Val, Steps;
      if message == [] {
        assert absorbed + message == absorbed;
        return;
      }
      ghost var total := absorbed + message;
      UpToExtend(h, Multiplier(key), absorbed, c[..cIdx], message);
      GapAligns(cIdx, 16);
      var aligned := if Gap(cIdx, 16) <= |message| then Gap(cIdx, 16) else |message|;
      ghost var before := c[..cIdx];
      var n := CopyAt(c, cIdx, message[..aligned]);
      assert n == aligned && message[..aligned][..n] == message[..aligned];
      cIdx := cIdx + n;
      var rest := message[aligned..];
      assert c[..cIdx] + rest == before + message;
      if cIdx == 16 {
        assert (c[..] + rest)[16..] == rest && c[..16] == c[..];
        StepsAdvance(h, r, total, c[..] + rest, c[..], 1);
        PolyBlocks(c[..], 1, 1);
        cIdx := 0;
        assert c[..cIdx] + rest == rest;
      }
      FillRest(rest, total);
      absorbed := total;
    }

    /** Whole blocks straight from the message, then what is left into the
        buffer, which never completes a block. */
    method FillRest(message: seq<byte>, ghost total: seq<byte>)
      requires c.Length == 16 && cIdx < 16 && (cIdx > 0 ==> message == [])
      requires Clamped(r) && MultValue(r) == Multiplier(key)
      requires UpTo(h, Multiplier(key), total, c[..cIdx] + message)
      modifies this`cIdx, this`h, c
      ensures cIdx < 16 && UpTo(h, Multiplier(key), total, c[..cIdx])
    {
      hide UpTo, Multiplier, Clamped, MultValue, Steps;
      var nbBlocks := |message| / 16;
      ghost var before := c[..cIdx];
      assert cIdx == 0 ==> before + message == message;
      if cIdx == 0 { StepsAdvance(h, r, total, message, message, nbBlocks); }
      assert nbBlocks == 0 ==> Steps(h, r, message, nbBlocks, 1) == h by { NoSteps(h, r, message); }
      PolyBlocks(message, nbBlocks, 1);
      var left := message[16 * nbBlocks..];
      var n := CopyAt(c, cIdx, left);
      cIdx := cIdx + n;
      assert c[..cIdx] == before + left;
      assert before + left == if before == [] then left else before + message;
    }

    /** Writes the RFC 8439 tag of everything absorbed. */
    method Final() returns (mac: seq<byte>)
      requires Valid()
      modifies this`h, c
      ensures mac == Tag(key, absorbed)
    {
      hide UpTo, Multiplier, Clamped, MultValue, Steps, Val, Tag, Reduced, Cong, Value, Horner, Absorbed;
      if cIdx != 0 {
        ghost var rem := c[..cIdx];
        var tail := [1] + seq(15 - cIdx, i => 0);
        var n := CopyAt(c, cIdx, tail);
        assert tail[..n] == tail && c[..] == c[..cIdx + n];
        assert c[..] == Padded(rem);
        LastAdvances(h, r, absorbed, rem);
        PolyBlocks(c[..], 1, 0);
      } else {
        UpToAll(h, Multiplier(key), absorbed, c[..cIdx]);
      }
      var g := h;
      var w := [g.h0, g.h1, g.h2, g.h3];
      EmptyVal(w, pad);
      var c0 := FinalCarry(g, w);
      SubtractCount(g);
      TopCarry(g, w);
      ghost var carry;
      mac, carry := AddPad(w, c0);
      MacIsTag(key, absorbed, g, mac, c0, carry, w);
    }

    /** Five times the number of subtractions of 2^130 - 5 that h still needs. */
    method FinalCarry(g: Hash, w: seq<u32>) returns (carry: u64)
      requires Reduced(g) && w == [g.h0, g.h1, g.h2, g.h3]
      ensures carry == 5 * ((5 + Value(g)) / (4 * B128)) && carry <= 5
    {
      hide Val, Value;
      EmptyVal(w, pad);
      carry := 5;
      var i := 0;
      while i < 4
        invariant 0 <= i <= 4 && carry <= 5
        invariant Pow(B32, i) > 0 && carry == (5 + Val(B32, w[..i])) / Pow(B32, i)
      {
        CarryChain(B32, 5, w, i);
        carry := (carry + w[i]) / B32;
        i := i + 1;
      }
      assert w[..4] == w;
      TopCarry(g, w);
      SubtractCount(g);
      carry := (carry + g.h4) / 4 * 5;
    }

    /** c0 + h + pad, four words with carry. */
    method AddPad(w: seq<u32>, c0: u64) returns (mac: seq<byte>, ghost carry: int)
      requires |w| == |pad| == 4 && c0 <= 5
      ensures |mac| == 16 && LE(mac) + B128 * carry == c0 + Val(B32, w) + Val(B32, pad)
    {
      hide Val;
      EmptyVal(w, pad);
      var c: u64 := c0;
      mac := [];
      var i := 0;
      while i < 4
        invariant 0 <= i <= 4 && |mac| == 4 * i && c <= 7
        invariant LE(mac) + Pow(B32, i) * c == c0 + Val(B32, w[..i]) + Val(B32, pad[..i])
      {
        ChainSum(LE(mac), w, pad, i, c0, c);
        c := c + w[i] + pad[i];
        StoreWord(mac, c, i);
        mac := mac + ToLE(c % B32, 4);
        c := c / B32;
        i := i + 1;
      }
      assert w[..4] == w && pad[..4] == pad;
      carry := c;
    }
  }

  lemma EmptyVal(w: seq<int>, pad: seq<int>)
    ensures Val(B32, w[..0]) == 0 && Val(B32, pad[..0]) == 0 && LE([]) == 0 && Pow(B32, 0) == 1
  {}

  lemma NoSteps(h: Hash, r: Mult, m: seq<byte>)
    ensures Steps(h, r, m, 0, 1) == h
  {}

  lemma UpToAll(h: Hash, r: int, total: seq<byte>, rest: seq<byte>)
    requires UpTo(h, r, total, rest) && rest == []
    ensures Reduced(h) && Cong(Value(h), Horner(0, r, total), P)
  {
    AbsorbedAll(Value(h), r, total);
  }
}
