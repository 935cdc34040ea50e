/** Decoding as Go's unicode/utf8 documents it. */
module Utf8 {
  import opened Words

  const RUNE_ERROR: u32 := 0xFFFD

  /** Length announced by a first byte; 1 for ASCII and for bytes that start nothing. */
  function Size(b: byte): nat {
    if 0xC2 <= b <= 0xDF then 2 else if 0xE0 <= b <= 0xEF then 3 else if 0xF0 <= b <= 0xF4 then 4 else 1
  }

  /** Accepted second bytes. */
  predicate Second(b0: byte, b1: byte) {
    if b0 == 0xE0 then 0xA0 <= b1 <= 0xBF
    else if b0 == 0xED then 0x80 <= b1 <= 0x9F
    else if b0 == 0xF0 then 0x90 <= b1 <= 0xBF
    else if b0 == 0xF4 then 0x80 <= b1 <= 0x8F
    else 0x80 <= b1 <= 0xBF
  }

  predicate Continuation(b: byte) { 0x80 <= b <= 0xBF }

  predicate RuneStart(b: byte) { !Continuation(b) }

  /** False only for a proper, so far valid, part of a longer sequence. */
  predicate FullRune(p: seq<byte>) {
    && p != []
    && (|p| >= Size(p[0]) || (|p| > 1 && !Second(p[0], p[1])) || (|p| > 2 && !Continuation(p[2])))
  }

  datatype Decoded = Decoded(rune: u32, size: nat)

  function DecodeRune(p: seq<byte>): (d: Decoded)
    ensures d.size <= |p| && (p != [] ==> d.size > 0)
  {
    if p == [] then Decoded(RUNE_ERROR, 0)
    else if Size(p[0]) == 1 then Decoded(if p[0] < 0x80 then p[0] else RUNE_ERROR, 1)
    else if |p| < Size(p[0]) || !Second(p[0], p[1]) then Decoded(RUNE_ERROR, 1)
    else if Size(p[0]) == 2 then Decoded(p[0] as int % 0x20 * 0x40 + p[1] as int % 0x40, 2)
    else if !Continuation(p[2]) then Decoded(RUNE_ERROR, 1)
    else if Size(p[0]) == 3 then Decoded(p[0] as int % 0x10 * 0x1000 + p[1] as int % 0x40 * 0x40 + p[2] as int % 0x40, 3)
    else if !Continuation(p[3]) then Decoded(RUNE_ERROR, 1)
    else Decoded(p[0] as int % 8 * 0x4_0000 + p[1] as int % 0x40 * 0x1000 + p[2] as int % 0x40 * 0x40 + p[3] as int % 0x40, 4)
  }

  /** The beginning of a sequence that may still become valid. */
  predicate Partial(p: seq<byte>) { p != [] && !FullRune(p) }

  /** One whole valid sequence of more than one byte. */
  predicate Complete(p: seq<byte>) { |p| > 1 && DecodeRune(p).size == |p| }

  /** A full rune decodes the same whatever follows. */
  lemma DecodeStable(p: seq<byte>, q: seq<byte>)
    requires FullRune(p)
    ensures FullRune(p + q) && DecodeRune(p + q) == DecodeRune(p)
  {}

  lemma PartialShape(p: seq<byte>)
    requires Partial(p)
    ensures |p| < Size(p[0]) <= 4 && p[0] >= 0xC2 && RuneStart(p[0]) && DecodeRune(p) == Decoded(RUNE_ERROR, 1)
    ensures |p| > 1 ==> Continuation(p[1]) && Partial(p[..|p| - 1])
    ensures |p| > 2 ==> Continuation(p[2])
  {}

  /** One more byte after a part: still a part, complete, or an error of one byte. */
  lemma PartialNext(p: seq<byte>, b: byte)
    requires Partial(p)
    ensures !(Partial(p + [b]) && Complete(p + [b]))
    ensures Complete(p + [b]) ==> FullRune(p + [b]) && |p + [b]| == Size(p[0])
    ensures Partial(p + [b]) ==> |p + [b]| < 4
    ensures !Partial(p + [b]) && !Complete(p + [b]) ==> DecodeRune(p + [b]) == Decoded(RUNE_ERROR, 1)
  {}

  // ---------------------------------------------------------------- encoding

  /** The Unicode scalar values: code points without surrogates. */
  predicate Scalar(r: nat) { r <= 0x10FFFF && !(0xD800 <= r <= 0xDFFF) }

  /** The bytes of a scalar value, by its range (section 3 of RFC 3629). */
  function Encode(r: nat): (p: seq<byte>)
    requires Scalar(r)
    ensures 1 <= |p| <= 4
  {
    if r < 0x80 then [r]
    else if r < 0x800 then [0xC0 + r / 0x40, 0x80 + r % 0x40]
    else if r < 0x1_0000 then [0xE0 + r / 0x1000, 0x80 + r / 0x40 % 0x40, 0x80 + r % 0x40]
    else [0xF0 + r / 0x4_0000, 0x80 + r / 0x1000 % 0x40, 0x80 + r / 0x40 % 0x40, 0x80 + r % 0x40]
  }

  /** Every scalar value decodes to itself, whatever follows. */
  lemma DecodeEncoded(r: nat, rest: seq<byte>)
    requires Scalar(r)
    ensures FullRune(Encode(r) + rest) && DecodeRune(Encode(r) + rest) == Decoded(r, |Encode(r)|)
  {
    DecodesAlone(r);
    hide DecodeRune, FullRune, Encode;
    DecodeStable(Encode(r), rest);
  }

  lemma DecodesAlone(r: nat)
    requires Scalar(r)
    ensures FullRune(Encode(r)) && DecodeRune(Encode(r)) == Decoded(r, |Encode(r)|)
  {
    if r >= 0x1_0000 { DecodesFour(r); } else if r >= 0x800 { DecodesThree(r); } else if r >= 0x80 { DecodesTwo(r); }
  }

  lemma DecodesTwo(r: nat)
    requires 0x80 <= r < 0x800
    ensures FullRune(Encode(r)) && DecodeRune(Encode(r)) == Decoded(r, 2)
  {
    var a, b := r / 0x40, r % 0x40;
    assert r == 0x40 * a + b && 2 <= a < 0x20;
    LowPart(0xC0, a, 0x20);
    LowPart(0x80, b, 0x40);
  }

  lemma DecodesThree(r: nat)
    requires 0x800 <= r < 0x1_0000 && Scalar(r)
    ensures FullRune(Encode(r)) && DecodeRune(Encode(r)) == Decoded(r, 3)
  {
    var a, b, c := Places(r);
    LowPart(0xE0, b, 0x10);
    LowPart(0x80, a % 0x40, 0x40);
    LowPart(0x80, r % 0x40, 0x40);
  }

  lemma DecodesFour(r: nat)
    requires 0x1_0000 <= r <= 0x10FFFF
    ensures FullRune(Encode(r)) && DecodeRune(Encode(r)) == Decoded(r, 4)
  {
    var a, b, c := Places(r);
    LowPart(0xF0, c, 8);
    LowPart(0x80, b % 0x40, 0x40);
    LowPart(0x80, a % 0x40, 0x40);
    LowPart(0x80, r % 0x40, 0x40);
  }

  /** The digits of r to base 64. */
  lemma Places(r: nat) returns (a: nat, b: nat, c: nat)
    ensures a == r / 0x40 && b == r / 0x1000 && c == r / 0x4_0000
    ensures r == 0x40 * a + r % 0x40 && a == 0x40 * b + a % 0x40 && b == 0x40 * c + b % 0x40
  {
    a, b, c := r / 0x40, r / 0x1000, r / 0x4_0000;
    DivDiv(r, 0x40, 0x40);
    DivDiv(r, 0x1000, 0x40);
  }

  lemma LowPart(base: nat, x: nat, m: nat)
    requires 0 <= x < m && base % m == 0
    ensures (base + x) % m == x
  {
    ModPlusMultiple(x, base / m, m);
    DivModUnique(x, 0, x, m);
    assert base == base / m * m;
  }

  /** What decodes without an error is the encoding of its rune. */
  lemma EncodeDecoded(p: seq<byte>)
    requires p != [] && (DecodeRune(p).size > 1 || p[0] < 0x80)
    ensures Scalar(DecodeRune(p).rune) && p[..DecodeRune(p).size] == Encode(DecodeRune(p).rune)
  {
    var d := DecodeRune(p);
    if d.size == 1 {
      assert p[..1] == [p[0]];
    } else if d.size == 2 {
      TwoBytes(p[0], p[1]);
      assert p[..2] == [p[0], p[1]];
    } else if d.size == 3 {
      ThreeBytes(p[0], p[1], p[2]);
      assert p[..3] == [p[0], p[1], p[2]];
    } else {
      FourBytes(p[0], p[1], p[2], p[3]);
      assert p[..4] == [p[0], p[1], p[2], p[3]];
    }
  }

  lemma TwoBytes(a: byte, b: byte)
    requires 0xC2 <= a <= 0xDF && Continuation(b)
    ensures var r := a as int % 0x20 * 0x40 + b as int % 0x40;
      0x80 <= r < 0x800 && 0xC0 + r / 0x40 == a && 0x80 + r % 0x40 == b
  {
    LowPart(0xC0, a - 0xC0, 0x20);
    LowPart(0x80, b - 0x80, 0x40);
    FromPlaces(0, 0, a - 0xC0, b - 0x80);
  }

  lemma ThreeBytes(a: byte, b: byte, c: byte)
    requires 0xE0 <= a <= 0xEF && Second(a, b) && Continuation(c)
    ensures var r := a as int % 0x10 * 0x1000 + b as int % 0x40 * 0x40 + c as int % 0x40;
      0x800 <= r < 0x1_0000 && Scalar(r) && 0xE0 + r / 0x1000 == a && 0x80 + r / 0x40 % 0x40 == b && 0x80 + r % 0x40 == c
  {
    LowPart(0xE0, a - 0xE0, 0x10);
    LowPart(0x80, b - 0x80, 0x40);
    LowPart(0x80, c - 0x80, 0x40);
    FromPlaces(0, a - 0xE0, b - 0x80, c - 0x80);
  }

  lemma FourBytes(a: byte, b: byte, c: byte, d: byte)
    requires 0xF0 <= a <= 0xF4 && Second(a, b) && Continuation(c) && Continuation(d)
    ensures var r := a as int % 8 * 0x4_0000 + b as int % 0x40 * 0x1000 + c as int % 0x40 * 0x40 + d as int % 0x40;
      && 0x1_0000 <= r && Scalar(r) && 0xF0 + r / 0x4_0000 == a && 0x80 + r / 0x1000 % 0x40 == b
      && 0x80 + r / 0x40 % 0x40 == c && 0x80 + r % 0x40 == d
  {
    LowPart(0xF0, a - 0xF0, 8);
    LowPart(0x80, b - 0x80, 0x40);
    LowPart(0x80, c - 0x80, 0x40);
    LowPart(0x80, d - 0x80, 0x40);
    FromPlaces(a - 0xF0, b - 0x80, c - 0x80, d - 0x80);
  }

  lemma FromPlaces(a: nat, b: nat, c: nat, d: nat)
    requires b < 0x40 && c < 0x40 && d < 0x40
    ensures var r := a * 0x4_0000 + b * 0x1000 + c * 0x40 + d;
      && r % 0x40 == d && r / 0x40 == a * 0x1000 + b * 0x40 + c && r / 0x40 % 0x40 == c
      && r / 0x1000 == a * 0x40 + b && r / 0x1000 % 0x40 == b && r / 0x4_0000 == a
  {
    var r := a * 0x4_0000 + b * 0x1000 + c * 0x40 + d;
    DivModUnique(r, a * 0x1000 + b * 0x40 + c, d, 0x40);
    DivModUnique(a * 0x1000 + b * 0x40 + c, a * 0x40 + b, c, 0x40);
    DivModUnique(r, a * 0x40 + b, c * 0x40 + d, 0x1000);
    DivModUnique(a * 0x40 + b, a, b, 0x40);
    DivModUnique(r, a, b * 0x1000 + c * 0x40 + d, 0x4_0000);
  }

  /** Bytes that complete a part: the least ones that are accepted. */
  function Completion(p: seq<byte>): (q: seq<byte>)
    requires Partial(p)
  {
    PartialShape(p);
    if |p| == 1 then [if p[0] == 0xE0 then 0xA0 else if p[0] == 0xF0 then 0x90 else 0x80] + Trail(Size(p[0]) - 2)
    else Trail(Size(p[0]) - |p|)
  }

  function Trail(n: nat): (q: seq<byte>)
    ensures |q| == n && forall i :: 0 <= i < n ==> q[i] == 0x80
  {
    seq(n, i => 0x80)
  }

  /** What may still become valid is exactly a proper beginning of some scalar value's encoding. */
  lemma PartialIsBeginning(p: seq<byte>)
    ensures Partial(p) <==> p != [] && exists r: nat :: Scalar(r) && p < Encode(r)
  {
    if Partial(p) {
      var e := p + Completion(p);
      PartialShape(p);
      CompletionCompletes(p);
      hide DecodeRune;
      EncodeDecoded(e);
      var r := DecodeRune(e).rune;
      assert e[..|e|] == e && e[..|p|] == p;
      assert Scalar(r) && p < Encode(r);
    }
    if p != [] && exists r: nat :: Scalar(r) && p < Encode(r) {
      var r: nat :| Scalar(r) && p < Encode(r);
      BeginningIsPartial(p, r);
    }
  }

  lemma CompletionCompletes(p: seq<byte>)
    requires Partial(p)
    ensures var e := p + Completion(p); e != [] && DecodeRune(e).size == |e| && |p| < |e|
  {
    PartialShape(p);
  }

  lemma BeginningIsPartial(p: seq<byte>, r: nat)
    requires Scalar(r) && p != [] && p < Encode(r)
    ensures Partial(p)
  {
    DecodesAlone(r);
    var e := Encode(r);
    hide Encode;
    assert forall i :: 0 <= i < |p| ==> p[i] == e[i];
  }
}
