/** What the ChaCha20 block is made of, in the terms of section 2 of RFC 8439. */
module ChaCha20Layout {
  import opened Words
  import opened Bits
  import opened WordBytes
  import opened ChaCha20

  // ----------------------------------------------------------- initial state

  const SIGMA: string := "expand 32-byte k"

  /** The four constant words spell the sixteen ASCII characters. */
  lemma ConstantsAreAscii()
    ensures |SIGMA| == 16 && |Store(CONSTANTS, 4)| == 16
    ensures forall i :: 0 <= i < 16 ==> Store(CONSTANTS, 4)[i] == SIGMA[i] as int
  {
    StoreLength(CONSTANTS, 4);
    ConstantWord(0);
    ConstantWord(1);
    ConstantWord(2);
    ConstantWord(3);
    StoreFour(CONSTANTS);
  }

  lemma ConstantWord(k: nat)
    requires k < 4
    ensures ToLE(CONSTANTS[k], 4) == [SIGMA[4 * k] as int, SIGMA[4 * k + 1] as int, SIGMA[4 * k + 2] as int, SIGMA[4 * k + 3] as int]
  {
    var b: seq<byte> := [SIGMA[4 * k] as int, SIGMA[4 * k + 1] as int, SIGMA[4 * k + 2] as int, SIGMA[4 * k + 3] as int];
    FourBytes(b);
    assert LE(b) == CONSTANTS[k];
    DigitsOfVal(256, b);
  }

  lemma FourBytes(b: seq<int>)
    requires |b| == 4
    ensures Val(256, b) == b[0] + 0x100 * b[1] + 0x1_0000 * b[2] + 0x100_0000 * b[3]
  {
    NextDigit(256, b, 0);
    NextDigit(256, b, 1);
    NextDigit(256, b, 2);
    NextDigit(256, b, 3);
    assert b[0..] == b && b[4..] == [];
  }

  /** The sixteen words written out: the constant, the key, the counter and the nonce. */
  lemma InitialLayout(key: Key, counter: u32, nonce: Nonce)
    ensures Serialize(Initial(key, counter, nonce)) == Store(CONSTANTS, 4) + key + ToLE(counter, 4) + nonce
  {
    hide Load, Store, Digits;
    LoadLength(key, 4);
    LoadLength(nonce, 4);
    StoreLoad(key, 4);
    StoreLoad(nonce, 4);
    StoreAppend(CONSTANTS, Load32(key), 4);
    StoreAppend(CONSTANTS + Load32(key), [counter], 4);
    StoreAppend(CONSTANTS + Load32(key) + [counter], Load32(nonce), 4);
    StoreOneWord(counter);
  }

  lemma StoreOneWord(x: u32)
    ensures Store([x], 4) == ToLE(x, 4)
  {
    hide Digits;
    var w: seq<u32> := [x];
    assert w[..0] == [] && w[..1] == w;
    StoreEmpty();
    StoreSnoc(w, 0);
  }

  // -------------------------------------------------------------- rounds

  /** Section 2.3: rounds are column rounds and diagonal rounds in turn, columns first. */
  function Alternating(s: State, n: nat): State
    decreases n
  {
    if n == 0 then s
    else if n % 2 == 1 then ColumnRound(Alternating(s, n - 1)) else DiagonalRound(Alternating(s, n - 1))
  }

  lemma {:induction false} RoundsAlternate(s: State, n: nat)
    ensures Rounds(s, n) == Alternating(s, 2 * n)
    decreases n
  {
    hide ColumnRound, DiagonalRound;
    if n > 0 {
      RoundsAlternate(s, n - 1);
      assert Alternating(s, 2 * n) == DiagonalRound(Alternating(s, 2 * n - 1));
      assert Alternating(s, 2 * n - 1) == ColumnRound(Alternating(s, 2 * (n - 1)));
    }
  }

  /** A block is the state after twenty rounds, added to the initial state word by word. */
  lemma BlockIsTwentyRounds(key: Key, counter: u32, nonce: Nonce, i: nat)
    requires i < 16
    ensures var s := Initial(key, counter, nonce);
      Block(key, counter, nonce)[4 * i..4 * i + 4] == ToLE((Alternating(s, 20)[i] + s[i]) % B32, 4)
  {
    hide Rounds, Alternating, Initial, Store, Digits;
    var s := Initial(key, counter, nonce);
    RoundsAlternate(s, 10);
    StoredWord(AddStates(Rounds(s, 10), s), i);
  }

  lemma StoredWord(w: seq<u32>, i: nat)
    requires i < |w|
    ensures |Store(w, 4)| == 4 * |w| && Store(w, 4)[4 * i..4 * i + 4] == ToLE(w[i], 4)
  {
    hide Store, Digits;
    StoreLength(w, 4);
    StoreLength(w[..i], 4);
    StoreSnoc(w, i);
    StoreAppend(w[..i + 1], w[i + 1..], 4);
    assert w[..i + 1] + w[i + 1..] == w;
  }

  /** The subkey of XChaCha20 is the first and last row of a block before the addition, the
      sixteen bytes read as counter and nonce. */
  lemma SubkeyIsOuterRows(key: Key, counter: u32, nonce: Nonce, i: nat)
    requires i < 4
    ensures var s := Alternating(Initial(key, counter, nonce), 20);
      var k := HChaCha(key, ToLE(counter, 4) + nonce);
      k[4 * i..4 * i + 4] == ToLE(s[i], 4) && k[16 + 4 * i..16 + 4 * i + 4] == ToLE(s[12 + i], 4)
  {
    hide Rounds, Alternating, Store, Digits, Load;
    var b := ToLE(counter, 4);
    LoadAppend(b, nonce, 4);
    LoadOneWord(counter);
    var t := CONSTANTS + Load32(key) + Load32(b + nonce);
    assert t == Initial(key, counter, nonce);
    RoundsAlternate(t, 10);
    var s := Rounds(t, 10);
    StoredWord(s[..4] + s[12..], i);
    StoredWord(s[..4] + s[12..], 4 + i);
  }

  lemma LoadOneWord(x: u32)
    ensures Load(ToLE(x, 4), 4) == [x]
  {
    hide Load, Store, Digits;
    StoreOneWord(x);
    LoadStore([x], 4);
  }

  // ------------------------------------------------------------- quarter round

  /** The quarter round undone, step by step from the last: rotations by 7, 8, 12 and 16 to the right. */
  function QuarterUndone(q: Quad): Quad {
    var b1 := Xor32(Rotl32(q.b, 25), q.c);
    var c1 := (q.c - q.d) % B32;
    var d1 := Xor32(Rotl32(q.d, 24), q.a);
    var a1 := (q.a - b1) % B32;
    var b0 := Xor32(Rotl32(b1, 20), c1);
    var c0 := (c1 - d1) % B32;
    var d0 := Xor32(Rotl32(d1, 16), a1);
    var a0 := (a1 - b0) % B32;
    Quad(a0, b0, c0, d0)
  }

  lemma QuarterIsInvertible(q: Quad)
    ensures QuarterUndone(Quarter(q)) == q
  {
    hide Rotl32, Xor32, Add32;
    var a1 := Add32(q.a, q.b);
    var d1 := Rotl32(Xor32(q.d, a1), 16);
    var c1 := Add32(q.c, d1);
    var b1 := Rotl32(Xor32(q.b, c1), 12);
    var a2 := Add32(a1, b1);
    var d2 := Rotl32(Xor32(d1, a2), 8);
    var c2 := Add32(c1, d2);
    var b2 := Rotl32(Xor32(b1, c2), 7);
    XorUndone(b1, c2, 7);
    XorUndone(d1, a2, 8);
    XorUndone(q.b, c1, 12);
    XorUndone(q.d, a1, 16);
    AddUndone(c1, d2);
    AddUndone(a1, b1);
    AddUndone(q.c, d1);
    AddUndone(q.a, q.b);
  }

  lemma AddUndone(x: u32, y: u32)
    ensures (Add32(x, y) - y) % B32 == x
  {
    DivModUnique(Add32(x, y) - y, if x + y >= B32 then -1 else 0, x, B32);
  }

  lemma XorUndone(x: u32, y: u32, k: nat)
    requires k <= 32
    ensures Xor32(Rotl32(Rotl32(Xor32(x, y), k), 32 - k), y) == x
  {
    hide Xor, Rotl32;
    RotateBack(Xor32(x, y), k);
    XorTwice(x, y);
  }

  lemma RotateBack(x: u32, k: nat)
    requires k <= 32
    ensures Rotl32(Rotl32(x, k), 32 - k) == x
  {
    hide Pow;
    var u, v := Pow(2, k), Pow(2, 32 - k);
    RotlFits(x, k);
    Pow2Widths();
    PowAdd(2, k, 32 - k);
    RotationValue(x, k, u, v);
    var r := Rotl32(x, k);
    RotationValue(r, 32 - k, v, u);
    DivModUnique(r, x % v, x / v, u);
    assert x == v * (x / v) + x % v;
  }

  lemma RotationValue(x: u32, k: nat, u: int, v: int)
    requires k <= 32 && u == Pow(2, k) && v == Pow(2, 32 - k)
    ensures u > 0 && v > 0 && Rotl32(x, k) == x / v + u * (x % v) && 0 <= x / v < u
  {
    hide Pow;
    RotlFits(x, k);
    Pow2Widths();
    PowAdd(2, k, 32 - k);
    ShiftOut(x, u, v);
  }

  /** One bit through the quarter round. */
  lemma OneBitThrough()
    ensures Quarter(Quad(0, 0, 0, 1)) == Quad(0x10000000, 0x80800808, 0x01010010, 0x01000010)
  {
    hide Xor32, Rotl32;
    Turns();
    Meetings();
  }

  lemma Meetings()
    ensures Xor32(1, 0) == 1 && Xor32(0, 0x1_0000) == 0x1_0000
    ensures Xor32(0x1_0000, 0x1000_0000) == 0x1001_0000 && Xor32(0x1000_0000, 0x0101_0010) == 0x1101_0010
  {
    hide Xor, Pow;
    Powers();
    XorComm(1, 0);
    XorZero(1);
    XorZero(0x1_0000);
    Apart(28, 0x1000_0000, 0x1_0000, 1);
    Apart(28, 0x1000_0000, 0x0101_0010, 1);
    XorComm(0x1000_0000, 0x0101_0010);
  }

  lemma Turns()
    ensures Rotl32(1, 16) == 0x1_0000 && Rotl32(0x1_0000, 12) == 0x1000_0000
    ensures Rotl32(0x1001_0000, 8) == 0x0100_0010 && Rotl32(0x1101_0010, 7) == 0x8080_0808
  {
    hide Rotl32, Pow;
    Powers();
    RotationValue(1, 16, 0x1_0000, 0x1_0000);
    RotationValue(0x1_0000, 12, 0x1000, 0x10_0000);
    RotationValue(0x1001_0000, 8, 0x100, 0x100_0000);
    RotationValue(0x1101_0010, 7, 0x80, 0x200_0000);
  }

  /** Words whose bits do not meet add up. */
  lemma Apart(k: nat, unit: int, low: nat, high: nat)
    requires unit == Pow(2, k) && low < unit
    ensures unit * high >= 0 && Xor(low, unit * high) == low + unit * high
  {
    hide Bitwise, Pow;
    SplitAt(XorBit, k, unit, low, 0, 0, high, 0, unit * high);
    XorComm(low, 0);
    XorZero(low);
    XorZero(high);
  }

  lemma Powers()
    ensures Pow(2, 16) == 0x1_0000 && Pow(2, 12) == 0x1000 && Pow(2, 20) == 0x10_0000 && Pow(2, 8) == 0x100
    ensures Pow(2, 24) == 0x100_0000 && Pow(2, 7) == 0x80 && Pow(2, 25) == 0x200_0000 && Pow(2, 28) == 0x1000_0000
  {
    assert Pow(2, 4) == 16 && Pow(2, 1) == 2 && Pow(2, 3) == 8;
    PowAdd(2, 4, 4);
    PowAdd(2, 4, 3);
    PowAdd(2, 8, 4);
    PowAdd(2, 8, 8);
    PowAdd(2, 16, 4);
    PowAdd(2, 16, 8);
    PowAdd(2, 24, 1);
    PowAdd(2, 24, 4);
  }
}
