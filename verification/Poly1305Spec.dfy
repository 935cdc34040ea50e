/** The one-time authenticator of section 2.5 of RFC 8439. */
module Poly1305Spec {
  import opened Words
  import opened Bits

  const P := 0x3_ffffffff_ffffffff_ffffffff_fffffffb
  const CLAMP := 0x0ffffffc_0ffffffc_0ffffffc_0fffffff

  type Key = k: seq<byte> | |k| == 32 witness seq(32, i => 0)

  /** The multiplier: the first half of the key with 22 bits cleared. */
  function Multiplier(key: Key): (r: nat)
  {
    ValBound(256, key[..16]);
    And(LE(key[..16]), CLAMP)
  }

  /** A block of up to 16 bytes, with a one bit just above its last byte. */
  function Block(b: seq<byte>): int { LE(b) + Pow(256, |b|) }

  /** h := (h + block) * r, over the blocks of m from the left. */
  function Horner(h: int, r: int, m: seq<byte>): int
    decreases |m|
  {
    if m == [] then h
    else if |m| < 16 then ((h + Block(m)) * r) % P
    else Horner(((h + Block(m[..16])) * r) % P, r, m[16..])
  }

  function Tag(key: Key, m: seq<byte>): (tag: seq<byte>)
    ensures |tag| == 16
  {
    ToLE((Horner(0, Multiplier(key), m) + LE(key[16..])) % B128, 16)
  }

  lemma HornerEmpty(x: int, r: int)
    ensures Horner(x, r, []) == x
  {}

  /** The first step. */
  lemma HornerHead(h: int, r: int, m: seq<byte>)
    requires m != []
    ensures var b := if |m| < 16 then m else m[..16];
      Horner(h, r, m) == Horner(((h + Block(b)) * r) % P, r, m[|b|..])
  {}

  lemma {:induction false} HornerAppend(h: int, r: int, a: seq<byte>, b: seq<byte>)
    requires |a| % 16 == 0
    ensures Horner(h, r, a + b) == Horner(Horner(h, r, a), r, b)
    decreases |a|
  {
    if a == [] {
      assert a + b == b;
    } else {
      assert (a + b)[..16] == a[..16] && (a + b)[16..] == a[16..] + b;
      HornerAppend(((h + Block(a[..16])) * r) % P, r, a[16..], b);
    }
  }

  lemma HornerBlock(h: int, r: int, m: seq<byte>)
    requires 0 < |m| <= 16
    ensures Horner(h, r, m) == ((h + Block(m)) * r) % P
  {
    if |m| == 16 { assert m[..16] == m && m[16..] == []; }
  }

  /** One more block at the end. */
  lemma HornerSnoc(h: int, r: int, a: seq<byte>, b: seq<byte>)
    requires |a| % 16 == 0 && 0 < |b| <= 16
    ensures Horner(h, r, a + b) == ((Horner(h, r, a) + Block(b)) * r) % P
  {
    HornerAppend(h, r, a, b);
    HornerBlock(Horner(h, r, a), r, b);
  }

  lemma {:induction false} HornerRange(h: int, r: int, m: seq<byte>)
    requires 0 <= h < P
    ensures 0 <= Horner(h, r, m) < P
    decreases |m|
  {
    if |m| >= 16 { HornerRange(((h + Block(m[..16])) * r) % P, r, m[16..]); }
  }

  /** A 16-byte block as its two 64-bit words. */
  lemma BlockWords(b: seq<byte>)
    requires |b| == 16
    ensures 0 <= LE(b[..8]) < B64 && 0 <= LE(b[8..]) < B64
    ensures LE(b) == LE(b[..8]) + B64 * LE(b[8..]) && Pow(256, 16) == B128
  {
    ValBound(256, b[..8]);
    ValBound(256, b[8..]);
    ValAppend(256, b[..8], b[8..]);
    assert b[..8] + b[8..] == b;
    Pow256();
  }

  /** Padding a short block with a one byte and zeros writes the same number. */
  lemma PaddedBlock(b: seq<byte>, pad: seq<byte>)
    requires |b| < 16 && |pad| == 15 - |b| && forall i :: 0 <= i < |pad| ==> pad[i] == 0
    ensures LE(b + [1] + pad) == Block(b)
  {
    ValAppend(256, b + [1], pad);
    ValSnoc(256, b, 1);
    ValZeros(pad);
  }

  /** Clamping the two 64-bit words separately clamps the whole multiplier. */
  lemma ClampWords(key: Key)
    ensures 0 <= LE(key[..8]) < B64 && 0 <= LE(key[8..16]) < B64
    ensures And(LE(key[..8]), 0x0ffffffc_0fffffff) <= 0x0ffffffc_0fffffff
    ensures And(LE(key[8..16]), 0x0ffffffc_0ffffffc) <= 0x0ffffffc_0ffffffc
    ensures And(LE(key[..8]), 0x0ffffffc_0fffffff) + B64 * And(LE(key[8..16]), 0x0ffffffc_0ffffffc)
         == Multiplier(key)
  {
    hide Bitwise, Pow;
    assert key[..16][..8] == key[..8] && key[..16][8..] == key[8..16];
    BlockWords(key[..16]);
    AndBelow(LE(key[..8]), 0x0ffffffc_0fffffff);
    AndBelow(LE(key[8..16]), 0x0ffffffc_0ffffffc);
    Pow2Widths();
    BitwiseSplit(AndBit, 64, LE(key[..8]), 0x0ffffffc_0fffffff, LE(key[8..16]), 0x0ffffffc_0ffffffc);
  }

  /** The second half of the key as two words. */
  function PadLow(key: Key): (x: u64) { WordRange(key[16..24]); LE(key[16..24]) }

  function PadHigh(key: Key): (x: u64) { WordRange(key[24..]); LE(key[24..]) }

  /** Adding the pad to the two low words of a residue, with carry, gives the tag. */
  lemma TagFromWords(key: Key, m: seq<byte>, u0: u64, u1: u64)
    requires u0 + B64 * u1 == Horner(0, Multiplier(key), m) % B128
    ensures WithPad(u0, u1, PadLow(key), PadHigh(key)) == Tag(key, m)
  {
    hide Horner, Digits, Val;
    var p0, p1 := PadLow(key), PadHigh(key);
    assert key[16..][..8] == key[16..24] && key[16..][8..] == key[24..];
    BlockWords(key[16..]);
    var x := Horner(0, Multiplier(key), m);
    var s0 := u0 + p0;
    var t1 := (u1 + p1 + s0 / B64) % B64;
    AddWords(x, u0, u1, p0, p1);
    Pow256();
    DigitsAppend(256, s0 % B64, 8, t1, 8);
  }

  lemma AddWords(x: int, u0: u64, u1: u64, p0: u64, p1: u64)
    requires x % B128 == u0 + B64 * u1
    ensures (x + p0 + B64 * p1) % B128 == (u0 + p0) % B64 + B64 * ((u1 + p1 + (u0 + p0) / B64) % B64)
  {
    var t := u1 + p1 + (u0 + p0) / B64;
    DivModUnique(x + p0 + B64 * p1, x / B128 + t / B64, (u0 + p0) % B64 + B64 * (t % B64), B128);
  }

  /** bits.Add64 on both words, then two little-endian stores. */
  function WithPad(u0: u64, u1: u64, p0: u64, p1: u64): seq<byte> {
    ToLE(Add64(u0, p0), 8) + ToLE((u1 + p1 + (u0 + p0) / B64) % B64, 8)
  }

  // ------------------------------------------------- progress through a message

  /** The number v stands for the blocks of `total` before its suffix `rest`. */
  ghost predicate Absorbed(v: int, r: int, total: seq<byte>, rest: seq<byte>) {
    && |rest| <= |total| && (|total| - |rest|) % 16 == 0
    && rest == total[|total| - |rest|..]
    && Cong(v, Horner(0, r, total[..|total| - |rest|]), P)
  }

  lemma AbsorbedNothing(r: int)
    ensures Absorbed(0, r, [], [])
  {}

  lemma AbsorbedExtend(v: int, r: int, total: seq<byte>, rest: seq<byte>, more: seq<byte>)
    requires Absorbed(v, r, total, rest)
    ensures Absorbed(v, r, total + more, rest + more)
  {
    assert (total + more)[..|total| - |rest|] == total[..|total| - |rest|];
  }

  /** Horner steps over the next k bytes: whole blocks, or everything that is left. */
  lemma AbsorbedStep(v: int, v': int, r: int, total: seq<byte>, rest: seq<byte>, k: nat)
    requires Absorbed(v, r, total, rest) && k <= |rest| && Cong(v', Horner(v, r, rest[..k]), P)
    ensures k % 16 == 0 ==> Absorbed(v', r, total, rest[k..])
    ensures k == |rest| ==> Cong(v', Horner(0, r, total), P)
  {
    hide Horner, Block, Cong;
    var a, b := total[..|total| - |rest|], rest[..k];
    var h := Horner(0, r, a);
    HornerAppend(0, r, a, b);
    assert a + b == total[..|total| - |rest| + k];
    if k == |rest| { assert total[..|total|] == total; }
    if b == [] {
      HornerEmpty(v, r);
      HornerEmpty(h, r);
      CongTrans(v', v, h, P);
    } else {
      HornerHead(v, r, b);
      HornerHead(h, r, b);
      SameStep(v, h, Block(if |b| < 16 then b else b[..16]), r);
    }
  }

  /** From congruent numbers one step leads to the same residue. */
  lemma SameStep(v: int, h: int, b: int, r: int)
    requires Cong(v, h, P)
    ensures ((v + b) * r) % P == ((h + b) * r) % P
  {
    CongSame(b, P);
    CongSame(r, P);
    CongAdd(v, h, b, b, P);
    CongMul(v + b, h + b, r, r, P);
  }

  lemma AbsorbedAll(v: int, r: int, total: seq<byte>)
    requires Absorbed(v, r, total, [])
    ensures Cong(v, Horner(0, r, total), P)
  {
    assert total[..|total|] == total;
  }

  /** The last, short block as 16 bytes. */
  function Padded(rem: seq<byte>): (b: seq<byte>)
    requires |rem| < 16
    ensures |b| == 16
  {
    rem + [1] + seq(15 - |rem|, i => 0)
  }

  lemma PaddedIsBlock(rem: seq<byte>)
    requires |rem| < 16
    ensures LE(Padded(rem)) == Block(rem)
  {
    PaddedBlock(rem, seq(15 - |rem|, i => 0));
  }
}
