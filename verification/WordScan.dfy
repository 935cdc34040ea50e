/** Testing eight bytes at once for printable ASCII. */
module WordScan {
  import opened Words
  import opened Bits

  /** 0 exactly when no byte is below a space or above 0x7F. */
  function TextTest(w: u64): nat {
    BitOr(And((w - 0x2020_2020_2020_2020) % B64, 0x8080_8080_8080_8080), And(w, 0x8080_8080_8080_8080))
  }

  /** The same byte n times, as a number. */
  function Repeat(b: byte, n: nat): nat { if n == 0 then 0 else b + 256 * Repeat(b, n - 1) }

  /** The word less 0x20 in each byte, with borrows. */
  function LessSpaces(s: seq<byte>): nat {
    PowPositive(256, |s|);
    (LE(s) - Repeat(0x20, |s|)) % Pow(256, |s|)
  }

  lemma TopBit(b: byte)
    ensures And(b, 0x80) == if b < 0x80 then 0 else 0x80
  {
    assert Pow(2, 4) == 16;
    PowAdd(2, 4, 3);
    var low := b % 0x80;
    AndSplit(7, 0x80, low, b / 0x80, 1);
    hide Pow;
    assert And(0, 1) == 0 && And(1, 1) == 1;
  }

  /** The high bit of the lowest byte, apart from the others. */
  lemma HighBitStep(low: byte, high: nat, n: nat)
    ensures And(low + 256 * high, Repeat(0x80, n + 1)) == And(low, 0x80) + 256 * And(high, Repeat(0x80, n))
  {
    hide And, Pow;
    Pow2Widths();
    SplitAnd(low, 0x80, high, Repeat(0x80, n));
  }

  lemma {:induction false} HighBits(s: seq<byte>)
    ensures LE(s) >= 0
    ensures And(LE(s), Repeat(0x80, |s|)) == 0 <==> forall i :: 0 <= i < |s| ==> s[i] < 0x80
    decreases |s|
  {
    if s == [] {
      BitwiseZero(AndBit);
    } else {
      hide And;
      HighBits(s[1..]);
      HighBitStep(s[0], LE(s[1..]), |s| - 1);
      TopBit(s[0]);
      FirstAndRest(s, 0, 0x80);
    }
  }

  lemma FirstAndRest(s: seq<byte>, lo: nat, hi: nat)
    requires s != []
    ensures (forall i :: 0 <= i < |s| ==> lo <= s[i] < hi)
      <==> lo <= s[0] < hi && (forall i :: 0 <= i < |s| - 1 ==> lo <= s[1..][i] < hi)
  {
    if lo <= s[0] < hi && (forall i :: 0 <= i < |s| - 1 ==> lo <= s[1..][i] < hi) {
      forall i | 0 <= i < |s| ensures lo <= s[i] < hi {
        if i > 0 { assert s[i] == s[1..][i - 1]; }
      }
    }
  }

  /** One byte of the subtraction: no borrow when the byte is at least a space. */
  lemma LessSpacesStep(s: seq<byte>)
    requires s != []
    ensures s[0] >= 0x20 ==> LessSpaces(s) == s[0] - 0x20 + 256 * LessSpaces(s[1..])
    ensures s[0] < 0x20 ==> LessSpaces(s) % 256 == s[0] + 0xE0
  {
    hide Repeat, LE;
    var n := |s| - 1;
    var p := Pow(256, n);
    PowPositive(256, n);
    LowByte(s[0] as int - 0x20, LE(s[1..]) - Repeat(0x20, n), p);
    Unfold(s);
  }

  lemma Unfold(s: seq<byte>)
    requires s != []
    ensures LE(s) - Repeat(0x20, |s|) == s[0] - 0x20 + 256 * (LE(s[1..]) - Repeat(0x20, |s| - 1))
  {}

  lemma LowByte(d: int, x: int, p: int)
    requires p > 0 && -0x20 <= d < 256
    ensures d >= 0 ==> (d + 256 * x) % (256 * p) == d + 256 * (x % p)
    ensures d < 0 ==> (d + 256 * x) % (256 * p) % 256 == d + 256
  {
    var q, r := x / p, x % p;
    assert x == p * q + r;
    assert 256 * x == (256 * p) * q + 256 * r;
    if d >= 0 {
      DivModUnique(d + 256 * x, q, d + 256 * r, 256 * p);
    } else {
      var m := (d + 256 * x) % (256 * p);
      var k := (d + 256 * x) / (256 * p);
      assert d + 256 * x == (256 * p) * k + m;
      assert (256 * p) * k == 256 * (p * k);
      DivModUnique(m, x - 1 - p * k, d + 256, 256);
    }
  }

  lemma {:induction false} LowBytes(s: seq<byte>)
    requires forall i :: 0 <= i < |s| ==> s[i] < 0x80
    ensures And(LessSpaces(s), Repeat(0x80, |s|)) == 0 <==> forall i :: 0 <= i < |s| ==> 0x20 <= s[i] < 0x80
    decreases |s|
  {
    hide And, LessSpaces, Repeat, LE;
    if s == [] {
      NoBytes();
    } else {
      LessSpacesStep(s);
      FirstAndRest(s, 0x20, 0x80);
      if s[0] >= 0x20 {
        LowBytes(s[1..]);
        HighBitStep(s[0] - 0x20, LessSpaces(s[1..]), |s| - 1);
        TopBit(s[0] - 0x20);
      } else {
        HighBitStep(s[0] + 0xE0, LessSpaces(s) / 256, |s| - 1);
        TopBit(s[0] + 0xE0);
      }
    }
  }

  lemma NoBytes()
    ensures And(LessSpaces([]), Repeat(0x80, 0)) == 0
  {
    AndBelow(LessSpaces([]), 0);
  }

  lemma EightTimes(b: byte)
    ensures Repeat(b, 8) == b * 0x0101_0101_0101_0101
  {
    assert Repeat(b, 1) == b;
    assert Repeat(b, 2) == b * 0x0101;
    assert Repeat(b, 3) == b * 0x01_0101;
    assert Repeat(b, 4) == b * 0x0101_0101;
    assert Repeat(b, 5) == b * 0x01_0101_0101;
    assert Repeat(b, 6) == b * 0x0101_0101_0101;
    assert Repeat(b, 7) == b * 0x01_0101_0101_0101;
  }

  /** The test passes exactly when all eight bytes are printable, borrows notwithstanding. */
  lemma TextTestIsExact(s: seq<byte>)
    requires |s| == 8
    ensures 0 <= LE(s) < B64
    ensures TextTest(LE(s)) == 0 <==> forall i :: 0 <= i < 8 ==> 0x20 <= s[i] < 0x80
  {
    hide And, BitOr, Val, Repeat, Pow;
    ValBound(256, s);
    Pow256();
    EightTimes(0x20);
    EightTimes(0x80);
    HighBits(s);
    var low := And(LessSpaces(s), 0x8080_8080_8080_8080);
    OrIsZero(low, And(LE(s), 0x8080_8080_8080_8080));
    if forall i :: 0 <= i < |s| ==> s[i] < 0x80 { LowBytes(s); }
  }
}
