/** Inversion of an X25519 scalar: Montgomery ladder over the bits of L - 2,
    then a multiple of L that clears the cofactor. */
module ScalarInverse {
  import opened Words
  import opened Bits
  import opened WordBytes
  import opened ScalarWords

  const ONE_MONTGOMERY: seq<u32> :=
    [0x8d98951d, 0xd6ec3174, 0x737dcf70, 0xc6ef5bf4, 0xfffffffe, 0xffffffff, 0xffffffff, 0x0fffffff]

  /** The bytes of L - 2: the first half is spelt out, and byte 31. */
  const LOW_HALF: seq<byte> :=
    [0xeb, 0xd3, 0xf5, 0x5c, 0x1a, 0x63, 0x12, 0x58, 0xd6, 0x9c, 0xf7, 0xa2, 0xde, 0xf9, 0xde, 0x14]

  const L_MINUS_2: seq<byte> := LOW_HALF + seq(15, i => 0) + [0x10]

  // ------------------------------------------------------------- the scalar

  /** Clears the low three bits and the top one, sets the one below it. */
  function TrimScalar(in_: seq<byte>): (out: seq<byte>)
    requires |in_| == 32
    ensures |out| == 32
  {
    TrimBytes(in_[0], in_[31]);
    in_[0 := And(in_[0], 248)][31 := BitOr(And(in_[31], 127), 64)]
  }

  lemma TrimBytes(low: byte, high: byte)
    ensures And(low, 248) == low - low % 8
    ensures BitOr(And(high, 127), 64) == 64 + high % 64
  {
    hide And, BitOr, Bitwise;
    SmallPowers();
    hide Pow;
    AndSplit(3, 8, low % 8, low / 8, 31);
    AndMask(low / 8, 5);
    AndMask(high, 7);
    var x := high % 128;
    OrSplit(6, 64, x % 64, x / 64, 1);
    OrOne();
  }

  lemma SmallPowers()
    ensures Pow(2, 3) == 8 && Pow(2, 5) == 32 && Pow(2, 6) == 64 && Pow(2, 7) == 128
  {}

  lemma OrOne()
    ensures BitOr(0, 1) == 1 && BitOr(1, 1) == 1
  {}

  lemma Pow256To31()
    ensures Pow(256, 31) == TOP_BYTE
    ensures Pow(256, 32) == R
  {
    assert Pow(256, 4) == B32;
    PowAdd(256, 4, 4);
    PowAdd(256, 8, 8);
    PowAdd(256, 16, 8);
    PowAdd(256, 24, 4);
    PowAdd(256, 28, 3);
    PowAdd(256, 31, 1);
  }

  /** A trimmed scalar is a multiple of 8 in [2^254, 2^255) that agrees with the
      input everywhere else. */
  lemma TrimMeaning(in_: seq<byte>)
    requires |in_| == 32
    ensures LE(TrimScalar(in_)) % 8 == 0 && R / 4 <= LE(TrimScalar(in_)) < R / 2
    ensures LE(TrimScalar(in_)) == R / 4 + LE(in_) % (R / 4) - LE(in_) % 8
  {
    hide Val, And, BitOr;
    var out := TrimScalar(in_);
    TrimBytes(in_[0], in_[31]);
    var mid := in_[1..31];
    assert in_ == [in_[0]] + mid + [in_[31]] && out == [out[0]] + mid + [out[31]];
    ThreeParts(in_[0], mid, in_[31]);
    ThreeParts(out[0], mid, out[31]);
    ValBound(256, mid);
    Pow256To31();
    PowAdd(256, 1, 30);
    TrimArithmetic(in_[0], LE(mid), in_[31], TOP_BYTE, TOP_BYTE / 8);
  }

  const TOP_BYTE := 0x100_0000_0000_0000_0000_0000_0000_0000_0000_0000_0000_0000_0000_0000_0000_0000

  lemma TrimArithmetic(low: byte, mid: int, high: byte, top: int, eighth: int)
    requires 0 <= mid && 256 * mid + 256 <= top && top == 8 * eighth
    ensures var x, y := low + 256 * mid + top * high, low - low % 8 + 256 * mid + top * (64 + high % 64);
      y % 8 == 0 && 64 * top <= y < 128 * top && y == 64 * top + x % (64 * top) - x % 8
  {
    var q, h := high / 64, high % 64;
    TrimProducts(top, eighth, q, h);
    assert high == 64 * q + h;
    MulMono(h, 63, top);
    MulMono(0, h, top);
    LowBits8(low, mid, eighth * high);
    LowBits8(low - low % 8, mid, eighth * (64 + h));
    DivModUnique(low + 256 * mid + top * high, q, low + 256 * mid + top * h, 64 * top);
  }

  lemma TrimProducts(top: int, eighth: int, q: int, h: int)
    requires top == 8 * eighth
    ensures top * (64 * q + h) == q * (64 * top) + top * h == 8 * (eighth * (64 * q + h))
    ensures top * (64 + h) == 64 * top + top * h == 8 * (eighth * (64 + h))
  {}

  lemma LowBits8(low: nat, mid: int, above: int)
    ensures (low + 256 * mid + 8 * above) % 8 == low % 8
  {
    DivModUnique(low + 256 * mid + 8 * above, low / 8 + 32 * mid + above, low % 8, 8);
  }

  lemma ThreeParts(low: byte, mid: seq<byte>, high: byte)
    requires |mid| == 30
    ensures LE([low] + mid + [high]) == low + 256 * LE(mid) + Pow(256, 31) * high
  {
    ValSnoc(256, [low] + mid, high);
    assert ([low] + mid)[1..] == mid;
  }

  /** Bit i of a scalar; zero below the scalar. */
  function ScalarBit(s: seq<byte>, i: int): (bit: int)
    requires i / 8 < |s|
  {
    if i < 0 then 0 else PowPositive(2, i % 8); s[i / 8] / Pow(2, i % 8) % 2
  }

  lemma ScalarBitMeaning(s: seq<byte>, i: nat)
    requires i / 8 < |s|
    ensures Pow(2, i) > 0 && ScalarBit(s, i) == LE(s) / Pow(2, i) % 2
  {
    BitOfBytes(s, i);
  }

  // -------------------------------------------------------------- the ladder

  /** m stands for x in Montgomery form. */
  ghost predicate Montgomery(m: int, x: int) { 0 <= m < L && Cong(m, x * R, L) }

  lemma MontgomeryProduct(m: int, x: int, n: int, y: int)
    requires Montgomery(m, x) && Montgomery(n, y)
    ensures Montgomery((m * n * R_INVERSE) % L, x * y)
  {
    hide Cong;
    ConstantRelations();
    ProductOfResidues(m, x, n, y, R, R_INVERSE, K, L);
    ModRange(m * n * R_INVERSE, L);
    CongMod(m * n * R_INVERSE, L);
    CongTrans((m * n * R_INVERSE) % L, m * n * R_INVERSE, x * y * R, L);
  }

  lemma ProductOfResidues(m: int, x: int, n: int, y: int, r: int, inverse: int, k: int, l: int)
    requires l > 0 && r * inverse == k * l + 1 && Cong(m, x * r, l) && Cong(n, y * r, l)
    ensures Cong(m * n * inverse, x * y * r, l)
  {
    hide Cong;
    CongMul(m, x * r, n, y * r, l);
    CongSame(inverse, l);
    CongMul(m * n, x * r * (y * r), inverse, inverse, l);
    Regroup(x, y, r, inverse);
    Distribute(x * y * r, k * l, 1);
    MulAssoc(x * y * r, k, l);
    CongBy(x * r * (y * r) * inverse, x * y * r, x * y * r * k, l);
    CongTrans(m * n * inverse, x * r * (y * r) * inverse, x * y * r, l);
  }

  lemma Regroup(x: int, y: int, r: int, i: int)
    ensures x * r * (y * r) * i == x * y * r * (r * i)
  {}

  lemma TimesInverse(z: int, w: int, c: int)
    requires z == w * R + c * L && R * R_INVERSE == K * L + 1
    ensures z * R_INVERSE == w + (w * K + c * R_INVERSE) * L
  {}

  lemma MontgomeryOut(m: int, x: int)
    requires Montgomery(m, x)
    ensures (m * R_INVERSE) % L == x % L
  {
    hide Cong;
    var k := CongWitness(m, x * R, L);
    ConstantRelations();
    TimesInverse(m, x, k);
    CongBy(m * R_INVERSE, x, x * K + k * R_INVERSE, L);
    SameRemainder(m * R_INVERSE, x);
  }

  lemma SameRemainder(a: int, b: int)
    requires Cong(a, b, L)
    ensures a % L == b % L
  {}

  method ZeroWords(p: array<u32>)
    modifies p
    ensures p[..] == Zeros(p.Length)
  {
    var i := 0;
    while i < p.Length
      invariant 0 <= i <= p.Length && forall j :: 0 <= j < i ==> p[j] == 0
    {
      p[i] := 0;
      i := i + 1;
    }
  }

  /** m := m * b / 2^256 modulo L, through the 512-bit product. */
  method MontgomeryMultiply(m: array<u32>, b: seq<u32>, product: array<u32>)
    requires m.Length == 8 && |b| == 8 && product.Length == 16 && m != product
    requires Num(m[..]) < L && Num(b) < L
    modifies m, product
    ensures Num(m[..]) == (Num(old(m[..])) * Num(b) * R_INVERSE) % L
  {
    hide Num;
    ghost var x, y := Num(m[..]), Num(b);
    ZeroWords(product);
    assert product[..8] == Zeros(8);
    NumZeros(8);
    WordsRange(m[..]);
    WordsRange(b);
    Multiply(product, m[..], b);
    assert product[..16] == product[..];
    MulMono(x, L, y);
    Redc(m, product[..]);
  }

  lemma PowSquare(s: int, e: nat)
    ensures Pow(s, 2 * e) == Pow(s, e) * Pow(s, e) && Pow(s, 2 * e + 1) == Pow(s, e) * Pow(s, e) * s
  {
    PowAdd(s, e, e);
    PowAdd(s, 2 * e, 1);
    assert Pow(s, 1) == s;
  }

  lemma NextBit(x: int, i: nat)
    requires x >= 0
    ensures Pow(2, i) > 0 && Pow(2, i + 1) > 0 && x / Pow(2, i + 1) >= 0
    ensures x / Pow(2, i) == 2 * (x / Pow(2, i + 1)) + x / Pow(2, i) % 2
  {
    PowPositive(2, i);
    PowPositive(2, i + 1);
    DivDiv(x, Pow(2, i), 2);
    MulComm(2, Pow(2, i));
    assert Pow(2, i + 1) == 2 * Pow(2, i);
    ScaledQuotient(x, Pow(2, i + 1));
  }

  lemma ScaledQuotient(x: int, p: int)
    requires x >= 0 && p > 0
    ensures x / p >= 0
  {
    var q := x / p;
    assert x == p * q + x % p;
    MulMono(q, -1, p);
  }

  lemma ExponentBits()
    ensures LE(L_MINUS_2) == L - 2
    ensures Pow(2, 253) > 0 && (L - 2) / Pow(2, 253) == 0
  {
    hide Val;
    ExponentValue();
    Pow2Widths();
    PowAdd(2, 64, 64);
    PowAdd(2, 128, 64);
    PowAdd(2, 64, 61);
    PowAdd(2, 128, 125);
    assert Pow(2, 61) == 0x2000_0000_0000_0000 by { PowAdd(2, 32, 29); PowAdd(2, 16, 13); }
  }

  lemma ExponentValue()
    ensures LE(L_MINUS_2) == L - 2
  {
    hide Val;
    LowHalfValue();
    ValZeros(seq(15, i => 0));
    ValAppend(256, LOW_HALF, seq(15, i => 0));
    ValSnoc(256, LOW_HALF + seq(15, i => 0), 0x10);
    Pow256To31();
  }

  lemma LowHalfValue()
    ensures LE(LOW_HALF) == 0x14de_f9de_a2f7_9cd6_5812_631a_5cf5_d3eb
  {
    hide Val;
    assert LOW_HALF[0..] == LOW_HALF && LOW_HALF[16..] == [] && LE([]) == 0 by { EmptyNumbers(); }
    NextEight(LOW_HALF, 8, 0x14de_f9de_a2f7_9cd6);
    NextEight(LOW_HALF, 0, 0x5812_631a_5cf5_d3eb);
  }

  lemma NextEight(s: seq<int>, k: nat, w: int)
    requires k + 8 <= |s|
    requires w == s[k] + 0x100 * s[k + 1] + 0x1_0000 * s[k + 2] + 0x100_0000 * s[k + 3]
      + 0x1_0000_0000 * s[k + 4] + 0x100_0000_0000 * s[k + 5] + 0x1_0000_0000_0000 * s[k + 6]
      + 0x100_0000_0000_0000 * s[k + 7]
    ensures Val(256, s[k..]) == w + B64 * Val(256, s[k + 8..])
  {
    hide Val;
    NextDigit(256, s, k);
    NextDigit(256, s, k + 1);
    NextDigit(256, s, k + 2);
    NextDigit(256, s, k + 3);
    NextDigit(256, s, k + 4);
    NextDigit(256, s, k + 5);
    NextDigit(256, s, k + 6);
    NextDigit(256, s, k + 7);
  }

  lemma OneInMontgomeryForm()
    ensures Montgomery(Num(ONE_MONTGOMERY), 1)
  {
    assert Num(ONE_MONTGOMERY) == R - 15 * L;
    CongBy(Num(ONE_MONTGOMERY), R, -15, L);
  }

  /** m_inv := scalar^(L - 2), in Montgomery form. */
  method Ladder(m_inv: array<u32>, m_scl: seq<u32>, product: array<u32>, ghost s: int)
    requires m_inv.Length == 8 && product.Length == 16 && m_inv != product && |m_scl| == 8
    requires Montgomery(Num(m_scl), s) && m_inv[..] == ONE_MONTGOMERY
    modifies m_inv, product
    ensures L >= 2 && Montgomery(Num(m_inv[..]), Pow(s, L - 2))
  {
    hide Num, Val, Pow, Montgomery;
    ghost var x := L - 2;
    ExponentBits();
    OneInMontgomeryForm();
    assert Pow(s, 0) == 1 by { PowZero(s); }
    var i := 252;
    while i >= 0
      invariant -1 <= i <= 252 && Pow(2, i + 1) > 0 && x / Pow(2, i + 1) >= 0
      invariant Montgomery(Num(m_inv[..]), Pow(s, x / Pow(2, i + 1)))
    {
      ghost var e := x / Pow(2, i + 1);
      NextBit(x, i);
      PowSquare(s, e);
      ScalarBitMeaning(L_MINUS_2, i);
      MontgomeryRange(Num(m_inv[..]), Pow(s, e));
      MontgomeryRange(Num(m_scl), s);
      MontgomeryProduct(Num(m_inv[..]), Pow(s, e), Num(m_inv[..]), Pow(s, e));
      MontgomeryMultiply(m_inv, m_inv[..], product);
      if ScalarBit(L_MINUS_2, i) != 0 {
        MontgomeryRange(Num(m_inv[..]), Pow(s, e) * Pow(s, e));
        MontgomeryProduct(Num(m_inv[..]), Pow(s, e) * Pow(s, e), Num(m_scl), s);
        MontgomeryMultiply(m_inv, m_scl, product);
      }
      i := i - 1;
    }
    assert x / Pow(2, 0) == x by { PowZero(2); }
  }

  lemma PowZero(b: int)
    ensures Pow(b, 0) == 1
  {}

  lemma MontgomeryRange(m: int, x: int)
    requires Montgomery(m, x)
    ensures 0 <= m < L
  {}

  // ------------------------------------------------------ clearing the cofactor

  /** s := s + L * (x mod 8), in place. */
  method AddXL(s: array<byte>, x: byte)
    requires s.Length == 32 && LE(s[..]) + L * (x % 8) < R
    modifies s
    ensures LE(s[..]) == LE(old(s[..])) + L * (x % 8)
  {
    hide Val, Digits;
    var mod8 := x % 8;
    ghost var before := s[..];
    var carry: u64 := 0;
    var i := 0;
    assert s[..0] == [] && before[..0] == [] && L_WORDS[..0] == [] && LE([]) == 0 && Num([]) == 0 by { EmptyNumbers(); }
    while i < 8
      invariant 0 <= i <= 8 && carry < 9
      invariant s[4 * i..] == before[4 * i..]
      invariant LE(s[..4 * i]) + Pow(256, 4 * i) * carry == LE(before[..4 * i]) + mod8 * Num(L_WORDS[..i])
    {
      ghost var out := s[..4 * i];
      assert s[4 * i..4 * i + 4] == s[4 * i..][..4] == before[4 * i..4 * i + 4];
      WordOf(s[4 * i..4 * i + 4]);
      AddXLWord(out, carry, before, mod8, i);
      ghost var x := carry + LE(before[4 * i..4 * i + 4]) + L_WORDS[i] * mod8;
      carry := carry + LE(s[4 * i..4 * i + 4]) + L_WORDS[i] * mod8;
      Store32(s, 4 * i, carry % B32);
      carry := carry / B32;
      i := i + 1;
    }
    assert s[..32] == s[..] && before[..32] == before && L_WORDS[..8] == L_WORDS;
    LWords();
    Pow256To31();
    ValBound(256, s[..]);
  }

  lemma EmptyNumbers()
    ensures LE([]) == 0 && Num([]) == 0
  {}

  lemma WordOf(b: seq<byte>)
    requires |b| == 4
    ensures 0 <= LE(b) < B32
  {
    ValBound(256, b);
    assert Pow(256, 4) == B32;
  }

  lemma AddXLWord(out: seq<byte>, carry: int, before: seq<byte>, mod8: int, i: nat)
    requires |out| == 4 * i && |before| == 32 && i < 8
    requires LE(out) + Pow(256, 4 * i) * carry == LE(before[..4 * i]) + mod8 * Num(L_WORDS[..i])
    ensures var x := carry + LE(before[4 * i..4 * i + 4]) + L_WORDS[i] * mod8;
      LE(out + ToLE(x % B32, 4)) + Pow(256, 4 * i + 4) * (x / B32)
        == LE(before[..4 * i + 4]) + mod8 * Num(L_WORDS[..i + 1])
  {
    hide Val, Digits;
    var w := LE(before[4 * i..4 * i + 4]);
    var x := carry + w + L_WORDS[i] * mod8;
    ValAppend(256, out, ToLE(x % B32, 4));
    assert Pow(256, 4) == B32;
    ValOfDigits(256, x % B32, 4);
    DivModUnique(x % B32, 0, x % B32, B32);
    ValAppend(256, before[..4 * i], before[4 * i..4 * i + 4]);
    assert before[..4 * i] + before[4 * i..4 * i + 4] == before[..4 * i + 4];
    NumSnoc(L_WORDS, i);
    PowMul(256, 4, i);
    PowAdd(256, 4 * i, 4);
    AddXLRows(Pow(256, 4 * i), x, carry, w, L_WORDS[i], mod8, Num(L_WORDS[..i]));
  }

  lemma AddXLRows(p: int, x: int, carry: int, w: int, l: int, mod8: int, low: int)
    requires x == carry + w + l * mod8
    ensures p * (x % B32) + p * B32 * (x / B32) == p * carry + p * w + (mod8 * (low + p * l) - mod8 * low)
  {
    assert x == B32 * (x / B32) + x % B32;
    MulAssoc(p, B32, x / B32);
    Distribute(p, x % B32, B32 * (x / B32));
    Distribute(p, carry + w, l * mod8);
    Distribute(p, carry, w);
    Distribute(mod8, low, p * l);
  }

  /** Adding 3 v L to v clears the cofactor: L is 5 modulo 8. */
  lemma CofactorCleared(v: int, low: int)
    requires 0 <= v < L && low == v % 256
    ensures (v + L * ((low * 3) % 256 % 8)) % 8 == 0
    ensures 0 <= v + L * ((low * 3) % 256 % 8) < 8 * L <= R
  {
    LowByteTimesThree(v, low);
    FiveTimes(v, (low * 3) % 256 % 8, L, L / 8);
  }

  lemma LowByteTimesThree(v: int, low: int)
    requires low == v % 256
    ensures (low * 3) % 256 % 8 == (3 * (v % 8)) % 8
  {
    var c, d, z := low / 8, low % 8, low * 3 / 256;
    DivModUnique(v, 32 * (v / 256) + c, d, 8);
    DivModUnique(low * 3 - 256 * z, 3 * c - 32 * z + 3 * d / 8, 3 * d % 8, 8);
  }

  lemma FiveTimes(v: int, j: int, l: int, q: int)
    requires l == 8 * q + 5 && j == (3 * (v % 8)) % 8
    ensures (v + l * j) % 8 == 0
  {
    var b := v % 8;
    ByThree(b);
    var e := (b + 5 * j) / 8;
    SumTimes(8 * q, 5, j);
    MulAssoc(8, q, j);
    DivModUnique(v + l * j, v / 8 + q * j + e, 0, 8);
  }

  lemma ByThree(b: int)
    requires 0 <= b < 8
    ensures (b + 5 * ((3 * b) % 8)) % 8 == 0
  {}

  /** What the blinded inverse of a private key must be: the one multiple of 8
      below 8 L in the class of scalar^(L - 2) modulo L. */
  ghost predicate IsClearedInverse(c: int, s: int) {
    && 0 <= c < 8 * L && c % 8 == 0
    && Cong(c, Pow(s, L - 2), L)
  }

  lemma ClearedInverseUnique(c: int, d: int, s: int)
    requires IsClearedInverse(c, s) && IsClearedInverse(d, s)
    ensures c == d
  {
    hide Pow, Cong;
    CongVia2(c, Pow(s, L - 2), d);
    var k := CongWitness(c, d, L);
    assert L % 8 == 5;
    assert k * L == c - d;
    assert -8 < k < 8;
  }

  lemma CongVia2(a: int, b: int, c: int)
    requires Cong(a, b, L) && Cong(c, b, L)
    ensures Cong(a, c, L)
  {}

  /** The scalar that crypto_x25519_inverse hands to the curve multiplication. */
  method ClearedInverse(privateKey: seq<byte>) returns (scalar: array<byte>)
    requires |privateKey| == 32
    ensures fresh(scalar) && scalar.Length == 32
    ensures IsClearedInverse(LE(scalar[..]), LE(TrimScalar(privateKey)))
  {
    hide Num, Val, Pow, Montgomery, TrimScalar, Cong, Store, Load;
    ghost var s := LE(TrimScalar(privateKey));
    var m_inv := new u32[8](i requires 0 <= i < 8 => ONE_MONTGOMERY[i]);
    assert m_inv[..] == ONE_MONTGOMERY;
    var m_scl := ToMontgomery(TrimScalar(privateKey));
    var product := new u32[16](i => 0);
    Ladder(m_inv, m_scl, product, s);
    ghost var power := Pow(s, L - 2);
    MontgomeryRange(Num(m_inv[..]), power);
    ghost var inv := m_inv[..];
    var wide := m_inv[..] + Zeros(8);
    NumZeros(8);
    ValAppendNum(m_inv[..], Zeros(8));
    Redc(m_inv, wide);
    MontgomeryOut(Num(inv), power);
    ghost var v := power % L;
    assert Num(m_inv[..]) == v;
    var bytes := StoreWords(m_inv[..]);
    scalar := new byte[32](i requires 0 <= i < 32 => bytes[i]);
    assert scalar[..] == bytes;
    ClearCofactor(scalar, power);
  }

  method ClearCofactor(scalar: array<byte>, ghost power: int)
    requires scalar.Length == 32 && LE(scalar[..]) == power % L
    modifies scalar
    ensures 0 <= LE(scalar[..]) < 8 * L && LE(scalar[..]) % 8 == 0 && Cong(LE(scalar[..]), power, L)
  {
    hide Val, Cong;
    ghost var v := power % L;
    LowByte(scalar[..]);
    ModRange(power, L);
    CofactorCleared(v, scalar[0]);
    var x := (3 * scalar[0] as int) % 256;
    AddXL(scalar, x);
    CongBy(LE(scalar[..]), v, x % 8, L);
    CongMod(power, L);
    CongTrans(LE(scalar[..]), v, power, L);
  }

  lemma LowByte(s: seq<byte>)
    requires |s| == 32
    ensures s[0] == LE(s) % 256
  {
    DivModUnique(LE(s), LE(s[1..]), s[0], 256);
  }

  lemma ValAppendNum(a: seq<int>, b: seq<int>)
    ensures Num(a + b) == Num(a) + Pow(B32, |a|) * Num(b)
  {
    ValAppend(B32, a, b);
  }

  /** store32_le_buf of 8 words. */
  function StoreWords(w: seq<u32>): (s: seq<byte>)
    requires |w| == 8
    ensures |s| == 32 && LE(s) == Num(w)
  {
    assert Pow(256, 4) == B32;
    StoreLength(w, 4);
    StoreValue(w, 4);
    Store(w, 4)
  }

  /** load32_le_buf of 32 bytes. */
  function LoadWords(s: seq<byte>): (w: seq<u32>)
    requires |s| == 32
    ensures |w| == 8 && Num(w) == LE(s)
  {
    assert Pow(256, 4) == B32;
    LoadLength(s, 4);
    LoadValue(s, 4);
    Load(s, 4)
  }

  /** scalar * 2^256 modulo L. */
  method ToMontgomery(scalar: seq<byte>) returns (m_scl: seq<u32>)
    requires |scalar| == 32
    ensures |m_scl| == 8 && Montgomery(Num(m_scl), LE(scalar))
  {
    hide Num, Val, Pow, Store, Load;
    var tmp := Zeros(8) + LoadWords(scalar);
    NumZeros(8);
    ValAppendNum(Zeros(8), LoadWords(scalar));
    Pow8();
    var reduced := ModL(tmp);
    var bytes := StoreWords(reduced);
    m_scl := LoadWords(bytes);
    ModRange(Num(tmp), L);
    CongMod(Num(tmp), L);
    MulComm(R, LE(scalar));
  }
}
