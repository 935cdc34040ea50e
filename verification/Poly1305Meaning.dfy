/** The authenticator as section 2.5 of RFC 8439 describes it: clamped bytes and a polynomial. */
module Poly1305Meaning {
  import opened Words
  import opened Bits
  import opened Poly1305Spec

  // ----------------------------------------------------------------- clamping

  /** Bytes 3, 7, 11 and 15 lose their top four bits, bytes 4, 8 and 12 their bottom two. */
  function ClampedByte(b: byte, i: nat): byte {
    if i % 4 == 3 then b % 16 else if i % 4 == 0 && i > 0 then b - b % 4 else b
  }

  function MaskByte(i: nat): byte { if i % 4 == 3 then 0x0F else if i % 4 == 0 && i > 0 then 0xFC else 0xFF }

  lemma MultiplierIsClamped(key: Key)
    ensures Multiplier(key) == LE(seq(16, i requires 0 <= i < 16 => ClampedByte(key[i], i)))
  {
    hide And, Val, ClampedByte, MaskByte;
    var masks := seq(16, i requires 0 <= i < 16 => MaskByte(i));
    MaskValue(masks);
    AndByBytes(key[..16], masks);
    var bytes := seq(16, i requires 0 <= i < 16 => ClampedByte(key[i], i));
    forall i | 0 <= i < 16 ensures AndBytes(key[..16], masks)[i] == bytes[i] {
      ByteClamped(key[i], i);
    }
    assert AndBytes(key[..16], masks) == bytes;
  }

  function AndBytes(a: seq<byte>, b: seq<byte>): (c: seq<byte>)
    requires |a| == |b|
    ensures |c| == |a| && forall i :: 0 <= i < |a| ==> c[i] == And(a[i], b[i])
  {
    hide And;
    ByteAnds();
    seq(|a|, i requires 0 <= i < |a| => And(a[i], b[i]))
  }

  lemma ByteAnds()
    ensures forall a: byte, b: byte :: 0 <= And(a, b) <= a
  {
    hide And;
    forall a: byte, b: byte ensures 0 <= And(a, b) <= a { AndBelow(a, b); }
  }

  lemma {:induction false} AndByBytes(a: seq<byte>, b: seq<byte>)
    requires |a| == |b|
    ensures LE(a) >= 0 && LE(b) >= 0 && And(LE(a), LE(b)) == LE(AndBytes(a, b))
    decreases |a|
  {
    hide And, AndBytes;
    if a == [] {
      AndBelow(0, 0);
    } else {
      AndByBytes(a[1..], b[1..]);
      AndTail(a, b);
      SplitAnd(a[0], b[0], LE(a[1..]), LE(b[1..]));
    }
  }

  lemma AndTail(a: seq<byte>, b: seq<byte>)
    requires |a| == |b| && a != []
    ensures AndBytes(a, b) == [And(a[0], b[0])] + AndBytes(a[1..], b[1..])
  {
    hide And;
  }

  lemma MaskValue(masks: seq<byte>)
    requires |masks| == 16 && forall i :: 0 <= i < 16 ==> masks[i] == MaskByte(i)
    ensures LE(masks) == CLAMP
  {
    hide Val, MaskByte;
    MaskWord(masks, 0);
    MaskWord(masks, 4);
    MaskWord(masks, 8);
    MaskWord(masks, 12);
    assert masks[16..] == [] && masks[0..] == masks;
    ValEmpty(256);
  }

  lemma MaskWord(masks: seq<byte>, k: nat)
    requires |masks| == 16 && (forall i :: 0 <= i < 16 ==> masks[i] == MaskByte(i)) && k < 16 && k % 4 == 0
    ensures Val(256, masks[k..]) == (if k == 0 then 0x0FFF_FFFF else 0x0FFF_FFFC) + B32 * Val(256, masks[k + 4..])
  {
    NextFour(masks, k);
    hide Val;
  }

  lemma NextFour(s: seq<int>, k: nat)
    requires k + 4 <= |s|
    ensures Val(256, s[k..]) == s[k] + 0x100 * s[k + 1] + 0x1_0000 * s[k + 2] + 0x100_0000 * s[k + 3] + B32 * Val(256, s[k + 4..])
  {
    hide Val;
    NextDigit(256, s, k);
    NextDigit(256, s, k + 1);
    NextDigit(256, s, k + 2);
    NextDigit(256, s, k + 3);
  }

  lemma ByteClamped(b: byte, i: nat)
    ensures And(b, MaskByte(i)) == ClampedByte(b, i)
  {
    hide And, Pow;
    MaskPowers();
    Pow2Widths();
    AndMask(b, 8);
    AndMask(b, 4);
    TopSix(b);
  }

  lemma MaskPowers()
    ensures Pow(2, 2) == 4 && Pow(2, 4) == 16 && Pow(2, 6) == 64
  {
    PowAdd(2, 2, 2);
    PowAdd(2, 4, 2);
  }

  lemma TopSix(b: byte)
    ensures And(b, 0xFC) == b - b % 4
  {
    hide And, Pow;
    MaskPowers();
    AndSplit(2, 4, b % 4, b / 4, 63);
    AndMask(b / 4, 6);
  }

  // ------------------------------------------------------------- polynomial

  /** Number of blocks, the last one possibly short. */
  function BlockCount(n: nat): nat { (n + 15) / 16 }

  /** Block i of n, as a number, times r^(n - i), all added up. */
  ghost function Polynomial(r: int, m: seq<byte>): int
    decreases |m|
  {
    if m == [] then 0
    else if |m| < 16 then Block(m) * Pow(r, 1)
    else Block(m[..16]) * Pow(r, BlockCount(|m|)) + Polynomial(r, m[16..])
  }

  lemma {:induction false} HornerIsPolynomial(h: int, r: int, m: seq<byte>)
    ensures Cong(Horner(h, r, m), h * Pow(r, BlockCount(|m|)) + Polynomial(r, m), P)
    decreases |m|
  {
    hide Cong, Block, Pow, Horner, Polynomial;
    PowSmall(r);
    if m == [] {
      HornerEmpty(h, r);
      NoBlocks(r);
      CongSame(h, P);
    } else if |m| < 16 {
      HornerBlock(h, r, m);
      ShortBlock(r, m);
      CongMod((h + Block(m)) * r, P);
      Distributes(h, Block(m), r);
    } else {
      var b, n, tail := Block(m[..16]), BlockCount(|m|), m[16..];
      var x := ((h + b) * r) % P;
      HornerHead(h, r, m);
      FirstBlock(r, m);
      HornerIsPolynomial(x, r, tail);
      PolynomialStep(x, h + b, r, n, Polynomial(r, tail));
      Distributes(h, b, Pow(r, n));
      CongTrans(Horner(h, r, m), x * Pow(r, n - 1) + Polynomial(r, tail), (h + b) * Pow(r, n) + Polynomial(r, tail), P);
    }
  }

  lemma NoBlocks(r: int)
    ensures Polynomial(r, []) == 0
  {}

  lemma ShortBlock(r: int, m: seq<byte>)
    requires 0 < |m| < 16
    ensures Polynomial(r, m) == Block(m) * Pow(r, 1) && BlockCount(|m|) == 1
  {}

  lemma FirstBlock(r: int, m: seq<byte>)
    requires |m| >= 16
    ensures Polynomial(r, m) == Block(m[..16]) * Pow(r, BlockCount(|m|)) + Polynomial(r, m[16..])
    ensures BlockCount(|m[16..]|) == BlockCount(|m|) - 1
  {
    hide Pow, Block;
  }

  lemma PolynomialStep(x: int, y: int, r: int, n: nat, rest: int)
    requires n > 0 && x == (y * r) % P
    ensures Cong(x * Pow(r, n - 1) + rest, y * Pow(r, n) + rest, P)
  {
    hide Cong, Pow;
    CongMod(y * r, P);
    CongSame(Pow(r, n - 1), P);
    CongMul(x, y * r, Pow(r, n - 1), Pow(r, n - 1), P);
    CongSame(rest, P);
    CongAdd(x * Pow(r, n - 1), y * r * Pow(r, n - 1), rest, rest, P);
    PowUp(r, n);
    Regrouped(y, r, Pow(r, n - 1));
  }

  lemma PowSmall(r: int)
    ensures Pow(r, 0) == 1 && Pow(r, 1) == r
  {}

  lemma PowUp(r: int, n: nat)
    requires n > 0
    ensures Pow(r, n) == r * Pow(r, n - 1)
  {}

  lemma Regrouped(x: int, r: int, p: int)
    ensures x * r * p == x * (r * p)
  {}

  lemma Distributes(a: int, b: int, r: int)
    ensures (a + b) * r == a * r + b * r
  {}

  /** The tag: the residue of the polynomial plus the second key half, the low 128 bits, little-endian. */
  lemma TagIsPolynomial(key: Key, m: seq<byte>)
    ensures LE(Tag(key, m)) == (Polynomial(Multiplier(key), m) % P + LE(key[16..])) % B128
  {
    hide Val, Digits, Horner, Multiplier;
    var r := Multiplier(key);
    HornerIsPolynomial(0, r, m);
    HornerRange(0, r, m);
    DivModUnique(Horner(0, r, m), 0, Horner(0, r, m), P);
    ValBound(256, key[16..]);
    Pow256();
    var x := (Horner(0, r, m) + LE(key[16..])) % B128;
    ValOfDigits(256, x, 16);
    DivModUnique(x, 0, x, B128);
  }
}
