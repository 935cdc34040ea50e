/** Signed sliding windows, read left to right, and the double scalar
    multiplication that consumes their digits. */
module SlidingWindow {
  import opened Words
  import opened Bits
  import opened ScalarInverse
  import opened ScalarWords

  // -------------------------------------------------------- lowest set bit

  lemma {:induction false} AndComplement(y: nat, m: nat)
    requires y < Pow(2, m)
    ensures And(y, Pow(2, m) - 1 - y) == 0
    decreases m
  {
    if m == 0 {
      AndBelow(0, 0);
    } else {
      var p := Pow(2, m - 1);
      AndComplement(y / 2, m - 1);
      var low := 1 - y % 2;
      assert Pow(2, m) - 1 - y == low + 2 * (p - 1 - y / 2);
      hide Bitwise;
      BitwiseDouble(AndBit, y % 2, y / 2, low, p - 1 - y / 2);
    }
  }

  /** x & (~x + 1) on words of n bits is the lowest set bit. */
  lemma LowestBit(n: nat, s: nat, odd: int)
    requires s < n && 0 < odd < Pow(2, n - s) && odd % 2 == 1
    ensures Pow(2, s) * odd >= 0 && Pow(2, n) - Pow(2, s) * odd >= 0
    ensures And(Pow(2, s) * odd, Pow(2, n) - Pow(2, s) * odd) == Pow(2, s)
  {
    hide Bitwise;
    var p, q := Pow(2, s), Pow(2, n - s);
    PowPositive(2, s);
    PowAdd(2, s, n - s);
    MulMono(0, odd, p);
    MulMono(odd, q, p);
    Distribute(p, odd, q - odd);
    SplitAt(AndBit, s, p, 0, 0, odd, q - odd, p * odd, p * (q - odd));
    BitwiseZero(AndBit);
    OddAndNegated(odd, n - s);
  }

  lemma OddAndNegated(odd: nat, m: nat)
    requires m > 0 && 0 < odd < Pow(2, m) && odd % 2 == 1
    ensures And(odd, Pow(2, m) - odd) == 1
  {
    var p := Pow(2, m - 1);
    var y := odd / 2;
    AndComplement(y, m - 1);
    assert Pow(2, m) - odd == 1 + 2 * (p - 1 - y);
    hide Bitwise;
    BitwiseDouble(AndBit, 1, y, 1, p - 1 - y);
  }

  /** Testing one bit of a mask. */
  lemma AndPowerOfTwo(s: nat, mask: nat)
    ensures Pow(2, s) > 0 && And(Pow(2, s), mask) == Pow(2, s) * (mask / Pow(2, s) % 2)
  {
    PowPositive(2, s);
    var p, y := Pow(2, s), mask / Pow(2, s);
    assert mask == p * y + mask % p;
    ScaledQuotient(mask, p);
    AndOne(y);
    AndBelow(0, mask % p);
    hide Bitwise;
    SplitAt(AndBit, s, p, 0, mask % p, 1, y, p, p * y);
  }

  /** The trailing zeros of v, as the source reads them off three masks. */
  function TrailingZeros(v: int): nat
    requires -B32 < v < B32
  {
    var u := v % B32;
    var lsb := And(u, (0xffffffff - u + 1) % B32);
    (if And(lsb, 0xAA) != 0 then 1 else 0) + (if And(lsb, 0xCC) != 0 then 2 else 0)
      + if And(lsb, 0xF0) != 0 then 4 else 0
  }

  lemma TrailingZerosMeaning(v: int, s: nat, odd: int)
    requires s < 8 && v == Pow(2, s) * odd && odd % 2 == 1 && -0x80 <= odd <= 0x80
    ensures -B32 < v < B32 && TrailingZeros(v) == s
  {
    hide And, Pow;
    SmallBits();
    var p := Pow(2, s);
    SmallProduct(v, p, odd);
    LowestBitOfWord(v, s, p, odd);
    AndPowerOfTwo(s, 0xAA);
    AndPowerOfTwo(s, 0xCC);
    AndPowerOfTwo(s, 0xF0);
    MaskBits(s, p);
  }

  lemma LowestBitOfWord(v: int, s: nat, p: int, odd: int)
    requires s < 8 && p == Pow(2, s) && v == p * odd && odd % 2 == 1 && -0x80 <= odd <= 0x80 && -B32 < v < B32
    ensures var u: nat := v % B32; And(u, (0xffffffff - u + 1) % B32) == p
  {
    hide And, Pow;
    var q := Pow(2, 32 - s);
    UpperPower(s);
    var o := if odd > 0 then odd else odd + q;
    assert odd != 0 && o % 2 == 1 && 0 < o < q;
    LowestBit(32, s, o);
    NegativeWord(v, p, odd, q);
    Negated(p * o);
  }

  lemma UpperPower(s: nat)
    requires s < 8
    ensures Pow(2, s) > 0 && Pow(2, s) * Pow(2, 32 - s) == B32 == Pow(2, 32)
    ensures Pow(2, 32 - s) >= 0x100_0000 && Pow(2, 32 - s) % 2 == 0
  {
    Pow2Widths();
    PowPositive(2, s);
    PowAdd(2, s, 32 - s);
    LargeBits(s);
    EvenPower(32 - s);
  }

  lemma Negated(u: int)
    requires 0 < u < B32
    ensures (0xffffffff - u + 1) % B32 == B32 - u
  {}

  lemma NegativeWord(v: int, p: int, odd: int, q: int)
    requires v == p * odd && p * q == B32 && p > 0 && 0 < (if odd > 0 then odd else odd + q) < q
    ensures v % B32 == (p * if odd > 0 then odd else odd + q) && 0 < v % B32 < B32
  {
    var o := if odd > 0 then odd else odd + q;
    Distribute(p, odd, q);
    MulMono(1, o, p);
    MulMono(o, q - 1, p);
    DivModUnique(v, if odd > 0 then 0 else -1, p * o, B32);
  }

  lemma SmallBits()
    ensures Pow(2, 0) == 1 && Pow(2, 1) == 2 && Pow(2, 2) == 4 && Pow(2, 3) == 8
    ensures Pow(2, 4) == 16 && Pow(2, 5) == 32 && Pow(2, 6) == 64 && Pow(2, 7) == 128
  {}

  lemma LargeBits(s: nat)
    requires s < 8
    ensures Pow(2, 32 - s) >= 0x100_0000
  {
    Pow2Widths();
    SmallBits();
    PowAdd(2, 16, 8);
    PowAdd(2, 24, 8 - s);
    PowPositive(2, 8 - s);
  }

  lemma EvenPower(n: nat)
    requires n > 0
    ensures Pow(2, n) % 2 == 0
  {}

  lemma SmallProduct(v: int, p: int, odd: int)
    requires v == p * odd && 1 <= p <= 128 && -0x80 <= odd <= 0x80
    ensures -0x4000 <= v <= 0x4000
  {
    var o := if odd < 0 then -odd else odd;
    MulMono(p, 128, o);
    MulMono(0, p, o);
    assert v == p * o || v == -(p * o);
  }

  lemma MaskBits(s: nat, p: int)
    requires s < 8 && p == [1, 2, 4, 8, 16, 32, 64, 128][s]
    ensures (if p * (0xAA / p % 2) != 0 then 1 else 0) + (if p * (0xCC / p % 2) != 0 then 2 else 0)
      + (if p * (0xF0 / p % 2) != 0 then 4 else 0) == s
  {}

  function Abs(x: int): nat { if x < 0 then -x else x }

  lemma {:induction false} OddPart(v: int) returns (s: nat, odd: int)
    requires v != 0
    ensures v == Pow(2, s) * odd && odd % 2 == 1 && Pow(2, s) <= Abs(v) && Abs(odd) <= Abs(v)
    decreases Abs(v)
  {
    if v % 2 == 1 {
      s, odd := 0, v;
    } else {
      var t, o := OddPart(v / 2);
      s, odd := t + 1, o;
      MulAssoc(2, Pow(2, t), odd);
    }
  }

  lemma {:induction false} PowMonotone(m: nat, n: nat)
    ensures m < n ==> Pow(2, m) < Pow(2, n)
    decreases m + n
  {
    PowPositive(2, m);
    PowPositive(2, n);
    if m < n { PowMonotone(m, n - 1); }
  }

  // -------------------------------------------------- what is left to encode

  /** The part of n at and below position c once everything above is encoded:
      a set bit c counts with a negative sign. */
  ghost function Remaining(n: int, c: int): int
    requires c >= -1
  {
    PowPositive(2, c + 1);
    n % Pow(2, c + 1) - BitAt(n, c) * Pow(2, c + 1)
  }

  ghost function BitAt(n: int, i: int): (b: int)
    ensures 0 <= b <= 1
  {
    if i < 0 then 0 else PowPositive(2, i); n / Pow(2, i) % 2
  }

  lemma ModNext(n: int, k: nat)
    ensures Pow(2, k) > 0 && Pow(2, k + 1) > 0
    ensures n % Pow(2, k + 1) == n % Pow(2, k) + Pow(2, k) * BitAt(n, k)
  {
    PowPositive(2, k);
    PowPositive(2, k + 1);
    DivDiv(n, Pow(2, k), 2);
    MulComm(Pow(2, k), 2);
  }

  /** Two equal bits leave nothing to encode at this position. */
  lemma RemainingSkips(n: int, c: nat)
    requires BitAt(n, c) == BitAt(n, c - 1)
    ensures Remaining(n, c) == Remaining(n, c - 1)
  {
    RemainingBelow(n, c);
    RemainingAt(n, c);
  }

  /** The window of w bits that starts at bit a, with the signed top bit and the borrowed bit below. */
  ghost function Window(n: int, a: nat, w: nat): int
    requires w > 0
  {
    PowPositive(2, a);
    PowPositive(2, w - 1);
    n / Pow(2, a) % Pow(2, w - 1) + BitAt(n, a - 1) - BitAt(n, a + w - 1) * Pow(2, w - 1)
  }

  lemma RemainingTakesWindow(n: int, a: nat, w: nat)
    requires w > 0
    ensures Remaining(n, a + w - 1) == Pow(2, a) * Window(n, a, w) + Remaining(n, a - 1)
  {
    hide Pow, Remaining, Window, BitAt;
    var i, p, q := a + w - 1, Pow(2, a), Pow(2, w - 1);
    RemainingBelow(n, i);
    RemainingAt(n, a);
    WindowAt(n, a, w);
    PowAdd(2, a, w - 1);
    WindowSum(n, p, q, Pow(2, i), BitAt(n, a - 1), BitAt(n, i), Remaining(n, i), Remaining(n, a - 1), Window(n, a, w));
  }

  lemma WindowSum(n: int, p: int, q: int, m: int, b: int, t: int, above: int, below: int, window: int)
    requires p > 0 && q > 0 && m > 0 && m == p * q
    requires above == n % m - t * m && below == n % p - b * p && window == n / p % q + b - t * q
    ensures above == p * window + below
  {
    DivDiv(n, p, q);
    WindowProduct(p, q, n / p % q, b, t);
  }

  lemma RemainingBelow(n: int, k: nat)
    ensures Pow(2, k) > 0 && Remaining(n, k) == n % Pow(2, k) - BitAt(n, k) * Pow(2, k)
  {
    ModNext(n, k);
    assert Pow(2, k + 1) == 2 * Pow(2, k);
    SignedTop(n % Pow(2, k), BitAt(n, k), Pow(2, k));
  }

  lemma RemainingAt(n: int, a: nat)
    ensures Pow(2, a) > 0 && Remaining(n, a - 1) == n % Pow(2, a) - BitAt(n, a - 1) * Pow(2, a)
  {
    PowPositive(2, a);
  }

  lemma WindowAt(n: int, a: nat, w: nat)
    requires w > 0
    ensures Pow(2, a) > 0 && Pow(2, w - 1) > 0
    ensures Window(n, a, w)
      == n / Pow(2, a) % Pow(2, w - 1) + BitAt(n, a - 1) - BitAt(n, a + w - 1) * Pow(2, w - 1)
  {
    PowPositive(2, a);
    PowPositive(2, w - 1);
  }

  lemma SignedTop(x: int, t: int, p: int)
    ensures x + p * t - t * (2 * p) == x - t * p
  {}

  lemma WindowProduct(p: int, q: int, x: int, b: int, t: int)
    ensures p * (x + b - t * q) == p * x + b * p - t * (p * q)
  {}

  /** Bit j of the window's own bits. */
  lemma WindowBit(n: int, a: nat, j: nat)
    ensures Pow(2, a) > 0 && Pow(2, j) > 0 && Pow(2, j + 1) > 0
    ensures n / Pow(2, a) % Pow(2, j + 1) == n / Pow(2, a) % Pow(2, j) + BitAt(n, a + j) * Pow(2, j)
  {
    PowPositive(2, a);
    PowPositive(2, j);
    PowAdd(2, a, j);
    DivDiv(n, Pow(2, a), Pow(2, j));
    ModNext(n / Pow(2, a), j);
    MulComm(BitAt(n, a + j), Pow(2, j));
  }

  /** A window that begins with two different bits is not zero and fits its width. */
  lemma WindowRange(n: int, a: nat, w: nat)
    requires w > 0 && BitAt(n, a + w - 1) != BitAt(n, a + w - 2)
    ensures Window(n, a, w) != 0 && Abs(Window(n, a, w)) <= Pow(2, w - 1)
  {
    var q := Pow(2, w - 1);
    PowPositive(2, a);
    PowPositive(2, w - 1);
    var x, b, t := n / Pow(2, a) % q, BitAt(n, a - 1), BitAt(n, a + w - 1);
    if w > 1 {
      PowPositive(2, w - 2);
      WindowBit(n, a, w - 2);
      var r := Pow(2, w - 2);
      assert q == 2 * r;
      var u := BitAt(n, a + w - 2);
      assert x == n / Pow(2, a) % r + u * r;
      assert if u == 1 then u * r == r else u * r == 0;
    }
    assert if t == 1 then t * q == q else t * q == 0;
  }

  lemma RemainingAll(n: int, c: nat)
    requires 0 <= n < Pow(2, c)
    ensures Remaining(n, c) == n
  {
    PowPositive(2, c);
    DivModUnique(n, 0, n, Pow(2, c));
    RemainingBelow(n, c);
  }

  lemma RemainingNothing(n: int)
    ensures Remaining(n, -1) == 0
  {}

  lemma BitOfScalar(s: seq<byte>, i: int)
    requires |s| == 32 && i < 256
    ensures ScalarBit(s, i) == BitAt(LE(s), i)
  {
    if i >= 0 { ScalarBitMeaning(s, i); }
  }

  lemma TopBitClear(n: int, i: nat)
    requires 0 <= n < Pow(2, i + 1) && BitAt(n, i) == 0
    ensures n < Pow(2, i)
  {
    PowPositive(2, i);
    ModNext(n, i);
    DivModUnique(n, 0, n, Pow(2, i + 1));
  }

  // ----------------------------------------------------------- the recoder

  /** A digit the tables can serve: odd and below half the window. */
  predicate IsDigit(d: int, width: nat) {
    d % 2 == 1 && width > 0 && Abs(d) < Pow(2, width - 1)
  }

  class SlideContext {
    var nextIndex: int
    var nextDigit: int
    var nextCheck: byte

    /** next_check is unsigned: position -1 is stored as 255. */
    function Check(): (c: int)
      reads this
      ensures c >= -1
    {
      if nextCheck == 255 then -1 else nextCheck
    }

    /** Ready for position i of the countdown. */
    ghost predicate Valid(width: nat, i: int)
      reads this
    {
      && Check() <= i && -1 <= i <= 253
      && (nextIndex == -1 || Check() < nextIndex <= 253)
      && IsDigit(nextDigit, width)
    }

    /** What positions i and below still contribute to scalar n. */
    ghost function Owed(n: int, i: int): int
      reads this
    {
      (if 0 <= nextIndex <= i then nextDigit * Pow(2, nextIndex) else 0) + Remaining(n, Check())
    }

    constructor (scalar: seq<byte>, ghost width: nat)
      requires |scalar| == 32 && LE(scalar) < Pow(2, 253) && 2 <= width
      ensures 1 <= nextCheck <= 253
      ensures forall i :: nextCheck <= i <= 253 ==> Valid(width, i) && Owed(LE(scalar), i) == LE(scalar)
    {
      hide Val, Pow, Remaining, BitAt;
      ValBound(256, scalar);
      var i := 252;
      while i > 0 && ScalarBit(scalar, i) == 0
        invariant 0 <= i <= 252 && 0 <= LE(scalar) < Pow(2, i + 1)
      {
        BitOfScalar(scalar, i);
        TopBitClear(LE(scalar), i);
        i := i - 1;
      }
      nextCheck := i + 1;
      nextIndex := -1;
      nextDigit := -1;
      RemainingAll(LE(scalar), i + 1);
      MinusOne(width);
    }

    /** Two equal bits: nothing to encode, the check moves down by one. */
    method SkipBit(width: nat, i: int, scalar: seq<byte>)
      requires |scalar| == 32 && 0 <= i && Valid(width, i) && i == nextCheck
      requires ScalarBit(scalar, i) == ScalarBit(scalar, i - 1)
      modifies this
      ensures Valid(width, i - 1)
      ensures Owed(LE(scalar), i) == old(Owed(LE(scalar), i))
    {
      hide Val, Pow, Remaining, BitAt, IsDigit, ScalarBit;
      BitOfScalar(scalar, i);
      BitOfScalar(scalar, i - 1);
      RemainingSkips(LE(scalar), i);
      nextCheck := (nextCheck as int - 1) % 256;
    }

    /** Two different bits: records the digit of the window that starts here. */
    method TakeWindow(width: nat, i: int, scalar: seq<byte>)
      requires |scalar| == 32 && 2 <= width <= 5 && 0 <= i && Valid(width, i) && i == nextCheck
      requires ScalarBit(scalar, i) != ScalarBit(scalar, i - 1)
      modifies this
      ensures Valid(width, i - 1)
      ensures Owed(LE(scalar), i) == old(Owed(LE(scalar), i))
    {
      hide Val, Pow, Remaining, BitAt, IsDigit, TrailingZeros, Window, ScalarBit;
      BitOfScalar(scalar, i);
      BitOfScalar(scalar, i - 1);
      var w := if width <= i + 1 then width else i + 1;
      var v := WindowValue(scalar, i, w);
      WindowDigit(LE(scalar), i, w, width, v);
      var s := TrailingZeros(v);
      nextIndex := i - (w - 1) + s;
      nextDigit := v / Pow(2, s);
      nextCheck := (nextCheck as int - w) % 256;
    }

    /** The digit at position i, counting down from any i >= next_check. */
    method Step(width: nat, i: int, scalar: seq<byte>) returns (digit: int)
      requires |scalar| == 32 && 2 <= width <= 5 && 0 <= i && Valid(width, i)
      modifies this
      ensures digit == 0 || IsDigit(digit, width)
      ensures Valid(width, i - 1)
      ensures old(Owed(LE(scalar), i)) == digit * Pow(2, i) + Owed(LE(scalar), i - 1)
    {
      hide Val, Pow, Remaining, IsDigit, ScalarBit;
      if i == nextCheck {
        if ScalarBit(scalar, i) == ScalarBit(scalar, i - 1) {
          SkipBit(width, i, scalar);
        } else {
          TakeWindow(width, i, scalar);
        }
      }
      digit := if i == nextIndex then nextDigit else 0;
    }

    lemma NothingOwed(width: nat, n: int)
      requires Valid(width, -1)
      ensures Owed(n, -1) == 0
    {
      RemainingNothing(n);
    }
  }

  lemma MinusOne(width: nat)
    requires 2 <= width
    ensures IsDigit(-1, width)
  {
    PowPositive(2, width - 2);
  }

  /** The signed value of the window of w bits whose top is bit i. */
  method WindowValue(scalar: seq<byte>, i: nat, w: nat) returns (v: int)
    requires |scalar| == 32 && 0 < w <= i + 1 && i < 256
    ensures v == Window(LE(scalar), i - w + 1, w)
  {
    hide Val, Pow, BitAt, Window;
    ghost var n, a := LE(scalar), i - w + 1;
    WindowAt(n, a, w);
    ghost var x, top := n / Pow(2, a), BitAt(n, i) * Pow(2, w - 1);
    BitOfScalar(scalar, i);
    v := -(ScalarBit(scalar, i) * Pow(2, w - 1));
    var j := 0;
    PowZero(2);
    while j < w - 1
      invariant 0 <= j <= w - 1 && Pow(2, j) > 0
      invariant v == x % Pow(2, j) - top
    {
      BitOfScalar(scalar, a + j);
      WindowBit(n, a, j);
      v := v + ScalarBit(scalar, i - (w - 1) + j) * Pow(2, j);
      j := j + 1;
    }
    BitOfScalar(scalar, i - w);
    v := v + ScalarBit(scalar, i - w);
  }

  /** The window's digit is odd, small, and sits at a position inside the window. */
  lemma WindowDigit(n: int, i: nat, w: nat, width: nat, v: int)
    requires 0 < w <= i + 1 && w <= width <= 5 && (w < width ==> w == i + 1) && 2 <= width
    requires BitAt(n, i) != BitAt(n, i - 1) && v == Window(n, i - w + 1, w)
    ensures -B32 < v < B32
    ensures var s, a := TrailingZeros(v), i - w + 1;
      && s < w && Pow(2, s) > 0 && IsDigit(v / Pow(2, s), width)
      && Remaining(n, i) == v / Pow(2, s) * Pow(2, a + s) + Remaining(n, i - w)
  {
    hide Remaining, BitAt, TrailingZeros, Window;
    var a := i - w + 1;
    WindowRange(n, a, w);
    var s, odd := OddPart(v);
    WindowPowers();
    if s >= w { PowMonotone(w - 1, s); }
    TrailingZerosMeaning(v, s, odd);
    PowPositive(2, s);
    DivModUnique(v, odd, 0, Pow(2, s));
    OddDigit(v, s, odd, w, width);
    RemainingTakesWindow(n, a, w);
    PowAdd(2, a, s);
    MulAssoc(Pow(2, a), Pow(2, s), odd);
    MulComm(odd, Pow(2, a + s));
  }

  lemma WindowPowers()
    ensures Pow(2, 0) == 1 && Pow(2, 1) == 2 && Pow(2, 2) == 4 && Pow(2, 3) == 8 && Pow(2, 4) == 16
  {}

  lemma OddDigit(v: int, s: nat, odd: int, w: nat, width: nat)
    requires v == Pow(2, s) * odd && odd % 2 == 1 && 0 < w <= width <= 5 && 2 <= width
    requires Abs(v) <= Pow(2, w - 1) && Abs(odd) <= Abs(v)
    ensures IsDigit(odd, width)
  {
    WindowPowers();
  }

  // ------------------------------------------------ what the digits are for

  /** a * A + b * B for the two points of a signature check. */
  datatype Combination = Combination(a: int, b: int)

  function Double(p: Combination): Combination { Combination(2 * p.a, 2 * p.b) }

  function Plus(p: Combination, q: Combination): Combination { Combination(p.a + q.a, p.b + q.b) }

  function Minus(p: Combination, q: Combination): Combination { Combination(p.a - q.a, p.b - q.b) }

  const P_W_WIDTH := 3
  const B_W_WIDTH := 5

  /** b_window: the first eight odd multiples of the base point. */
  const B_WINDOW: seq<Combination> := seq(8, k => Combination(0, 2 * k + 1))

  /** The first odd multiples of point A, by repeated addition of 2 A. */
  method OddMultiples() returns (lut: seq<Combination>)
    ensures |lut| == 2 && forall k :: 0 <= k < 2 ==> lut[k] == Combination(2 * k + 1, 0)
  {
    var a2 := Double(Combination(1, 0));
    lut := [Combination(1, 0)];
    var i := 1;
    while i < 2
      invariant 1 <= i <= 2 && |lut| == i
      invariant forall k :: 0 <= k < i ==> lut[k] == Combination(2 * k + 1, 0)
    {
      lut := lut + [Plus(a2, lut[i - 1])];
      i := i + 1;
    }
  }

  /** Adds digit times the table's point, by a lookup of the odd multiple. */
  function AddDigitOf(sum: Combination, digit: int, table: seq<Combination>): (r: Combination)
    requires digit == 0 || (digit % 2 == 1 && Abs(digit) < 2 * |table|)
  {
    if digit > 0 then Plus(sum, table[digit / 2])
    else if digit < 0 then Minus(sum, table[-digit / 2])
    else sum
  }

  lemma DigitInTable(digit: int, width: nat)
    requires 2 <= width <= 5 && (digit == 0 || IsDigit(digit, width))
    ensures width == P_W_WIDTH && digit != 0 ==> digit % 2 == 1 && Abs(digit) < 4
    ensures width == B_W_WIDTH && digit != 0 ==> digit % 2 == 1 && Abs(digit) < 16
  {
    WindowPowers();
  }

  /** The loop of the signature check: h * A + s * B for any scalars below 2^253. */
  method DoubleScalarMultiply(h: seq<byte>, s: seq<byte>) returns (sum: Combination)
    requires |h| == 32 && LE(h) < Pow(2, 253) && |s| == 32 && LE(s) < Pow(2, 253)
    ensures sum == Combination(LE(h), LE(s))
  {
    hide Val, Pow, IsDigit, SlideContext.Valid, SlideContext.Owed, Summed;
    var lutA := OddMultiples();
    var hSlide := new SlideContext(h, P_W_WIDTH);
    var sSlide := new SlideContext(s, B_W_WIDTH);
    var i: int := if hSlide.nextCheck >= sSlide.nextCheck then hSlide.nextCheck else sSlide.nextCheck;
    sum := Combination(0, 0);
    SummedNothing(i, LE(h));
    SummedNothing(i, LE(s));
    while i >= 0
      invariant -1 <= i <= 253 && hSlide.Valid(P_W_WIDTH, i) && sSlide.Valid(B_W_WIDTH, i)
      invariant Summed(sum.a, i, hSlide.Owed(LE(h), i), LE(h))
      invariant Summed(sum.b, i, sSlide.Owed(LE(s), i), LE(s))
    {
      ghost var before, hOwed, sOwed := sum, hSlide.Owed(LE(h), i), sSlide.Owed(LE(s), i);
      sum := Double(sum);
      var hDigit := hSlide.Step(P_W_WIDTH, i, h);
      var sDigit := sSlide.Step(B_W_WIDTH, i, s);
      DigitInTable(hDigit, P_W_WIDTH);
      DigitInTable(sDigit, B_W_WIDTH);
      HornerDigit(before.a, i, hDigit, hOwed, hSlide.Owed(LE(h), i - 1), LE(h));
      HornerDigit(before.b, i, sDigit, sOwed, sSlide.Owed(LE(s), i - 1), LE(s));
      sum := AddDigitOf(sum, hDigit, lutA);
      sum := AddDigitOf(sum, sDigit, B_WINDOW);
      i := i - 1;
    }
    hSlide.NothingOwed(P_W_WIDTH, LE(h));
    sSlide.NothingOwed(B_W_WIDTH, LE(s));
    SummedAll(sum.a, LE(h));
    SummedAll(sum.b, LE(s));
  }

  /** The digits read so far, scaled to position i, and what is still owed make up n. */
  ghost predicate Summed(sum: int, i: int, owed: int, n: int)
    requires i >= -1
  {
    sum * Pow(2, i + 1) + owed == n
  }

  lemma SummedNothing(i: nat, n: int)
    ensures Summed(0, i, n, n)
  {}

  lemma SummedAll(sum: int, n: int)
    requires Summed(sum, -1, 0, n)
    ensures sum == n
  {
    PowZero(2);
  }

  lemma HornerDigit(sum: int, i: nat, digit: int, owed: int, rest: int, n: int)
    requires Summed(sum, i, owed, n) && owed == digit * Pow(2, i) + rest
    ensures Summed(2 * sum + digit, i - 1, rest, n)
  {
    SumTimes(2 * sum, digit, Pow(2, i));
    assert Pow(2, i + 1) == 2 * Pow(2, i);
    MulAssoc(sum, 2, Pow(2, i));
  }
}
