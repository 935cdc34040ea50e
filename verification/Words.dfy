/** Machine words as bounded integers, little-endian digit strings, and
    arithmetic modulo a fixed number. */
module Words {

  type byte = x: int | 0 <= x < 0x100
  type u32 = x: int | 0 <= x < 0x1_0000_0000
  type u64 = x: int | 0 <= x < 0x1_0000_0000_0000_0000

  const B32 := 0x1_0000_0000
  const B64 := 0x1_0000_0000_0000_0000
  const B128 := 0x1_0000_0000_0000_0000_0000_0000_0000_0000

  /** Wrapping addition of two words of the given width. */
  function Add32(a: u32, b: u32): u32 { (a + b) % B32 }

  function Add64(a: u64, b: u64): u64 { (a + b) % B64 }

  function Mul32(a: u32, b: u32): u32 { (a * b) % B32 }

  function Mul64(a: u64, b: u64): u64 { (a * b) % B64 }

  /** Left shift, losing the bits that leave the word. */
  function Shl64(a: u64, k: nat): u64 { (a * Pow(2, k)) % B64 }

  /** The bitwise OR of a word below `unit` and a word that is a multiple of
      `unit` (a power of two): no bit is set in both, so OR adds. */
  function Or(low: nat, high: nat, unit: nat): nat
    requires unit > 0 && low < unit && high % unit == 0
  {
    low + high
  }

  // ---------------------------------------------------------------- powers

  function Pow(b: int, e: nat): int { if e == 0 then 1 else b * Pow(b, e - 1) }

  lemma {:induction false} PowAdd(b: int, m: nat, n: nat)
    ensures Pow(b, m + n) == Pow(b, m) * Pow(b, n)
  {
    if m > 0 {
      PowAdd(b, m - 1, n);
      MulAssoc(b, Pow(b, m - 1), Pow(b, n));
    }
  }

  lemma {:induction false} PowPositive(b: int, e: nat)
    requires b > 0
    ensures Pow(b, e) > 0
  {
    if e > 0 { PowPositive(b, e - 1); }
  }

  lemma {:induction false} PowMul(b: int, m: nat, n: nat)
    ensures Pow(Pow(b, m), n) == Pow(b, m * n)
  {
    if n > 0 {
      PowMul(b, m, n - 1);
      assert m * n == m + m * (n - 1);
      PowAdd(b, m, m * (n - 1));
    }
  }

  lemma MulAssoc(a: int, b: int, c: int)
    ensures a * (b * c) == (a * b) * c
  {}

  // ------------------------------------------------------ division with rest

  lemma ModRange(x: int, m: int)
    requires m > 0
    ensures 0 <= x % m < m
  {}

  lemma MulMono(a: int, b: int, c: int)
    ensures a <= b && 0 <= c ==> a * c <= b * c
  {}

  lemma DivModUnique(x: int, q: int, r: int, m: int)
    requires 0 <= r < m && x == q * m + r
    ensures x / m == q && x % m == r
  {
    var d := q - x / m;
    assert x == m * (x / m) + x % m;
    assert d * m == x % m - r;
    MulMono(1, d, m);
    MulMono(d, -1, m);
  }

  lemma ModPlusMultiple(x: int, k: int, m: int)
    requires m > 0
    ensures (x + k * m) % m == x % m && (x + k * m) / m == x / m + k
  {
    assert x == m * (x / m) + x % m;
    DivModUnique(x + k * m, x / m + k, x % m, m);
  }

  /** Shifting left by a power of two and cutting the word leaves a shifted remainder. */
  lemma ShiftOut(x: int, u: int, v: int)
    requires u > 0 && v > 0
    ensures u * v > 0 && (x * u) % (u * v) == u * (x % v) && u * (x % v) % u == 0
  {
    var q, t := x / v, x % v;
    assert x == v * q + t;
    MulMono(t, v - 1, u);
    assert x * u == q * (u * v) + u * t by { MulAssoc(u, v, q); }
    DivModUnique(x * u, q, u * t, u * v);
    DivModUnique(u * t, t, 0, u);
  }

  /** Division splits along a product of two divisors. */
  lemma DivDiv(x: int, a: int, b: int)
    requires a > 0 && b > 0
    ensures a * b > 0
    ensures x / (a * b) == x / a / b && x % (a * b) == x % a + a * (x / a % b)
  {
    var y, r := x / a, x % a;
    var q, t := y / b, y % b;
    assert x == a * y + r && y == b * q + t;
    MulMono(t, b - 1, a);
    MulAssoc(a, b, q);
    DivModUnique(x, q, r + a * t, a * b);
  }

  // ------------------------------------------------------------- congruence

  ghost predicate Cong(a: int, b: int, m: int)
    requires m > 0
  {
    a % m == b % m
  }

  lemma CongBy(a: int, b: int, k: int, m: int)
    requires m > 0 && a == b + k * m
    ensures Cong(a, b, m)
  {
    ModPlusMultiple(b, k, m);
  }

  lemma CongWitness(a: int, b: int, m: int) returns (k: int)
    requires m > 0 && Cong(a, b, m)
    ensures a == b + k * m
  {
    k := a / m - b / m;
    assert a == m * (a / m) + a % m && b == m * (b / m) + b % m;
  }

  lemma CongVia(a: int, b: int, c: int, m: int)
    requires m > 0 && Cong(a, b, m) && Cong(c, b, m)
    ensures Cong(a, c, m)
  {}

  lemma CongTrans(a: int, b: int, c: int, m: int)
    requires m > 0 && Cong(a, b, m) && Cong(b, c, m)
    ensures Cong(a, c, m)
  {}

  lemma CongSame(a: int, m: int)
    requires m > 0
    ensures Cong(a, a, m)
  {}

  lemma CongAdd(a: int, b: int, c: int, d: int, m: int)
    requires m > 0 && Cong(a, b, m) && Cong(c, d, m)
    ensures Cong(a + c, b + d, m)
  {
    var j := CongWitness(a, b, m);
    var k := CongWitness(c, d, m);
    CongBy(a + c, b + d, j + k, m);
  }

  lemma ExpandProduct(b: int, j: int, d: int, k: int, m: int)
    ensures (b + j * m) * (d + k * m) == b * d + (b * k + j * d + j * k * m) * m
  {}

  lemma Distribute(a: int, b: int, c: int)
    ensures a * (b + c) == a * b + a * c
  {}

  lemma CongMul(a: int, b: int, c: int, d: int, m: int)
    requires m > 0 && Cong(a, b, m) && Cong(c, d, m)
    ensures Cong(a * c, b * d, m)
  {
    var j := CongWitness(a, b, m);
    var k := CongWitness(c, d, m);
    ExpandProduct(b, j, d, k, m);
    CongBy(a * c, b * d, b * k + j * d + j * k * m, m);
  }

  lemma CongMod(a: int, m: int)
    requires m > 0
    ensures Cong(a % m, a, m)
  {
    DivModUnique(a % m, 0, a % m, m);
  }

  lemma {:induction false} CongPow(a: int, b: int, e: nat, m: int)
    requires m > 0 && Cong(a, b, m)
    ensures Cong(Pow(a, e), Pow(b, e), m)
  {
    if e > 0 {
      CongPow(a, b, e - 1, m);
      CongMul(a, b, Pow(a, e - 1), Pow(b, e - 1), m);
    }
  }

  // --------------------------------------------- little-endian digit strings

  ghost predicate AreDigits(b: int, s: seq<int>) { forall i :: 0 <= i < |s| ==> 0 <= s[i] < b }

  /** The number written by `s` in base `b`, least significant digit first. */
  function Val(b: int, s: seq<int>): int { if s == [] then 0 else s[0] + b * Val(b, s[1..]) }

  function Digits(b: int, x: int, n: nat): (s: seq<int>)
    requires b > 0
    ensures |s| == n
    decreases n
  {
    if n == 0 then [] else [x % b] + Digits(b, x / b, n - 1)
  }

  lemma {:induction false} DigitsAreDigits(b: int, x: int, n: nat)
    requires b > 0
    ensures AreDigits(b, Digits(b, x, n))
    decreases n
  {
    if n > 0 {
      ModRange(x, b);
      DigitsAreDigits(b, x / b, n - 1);
    }
  }

  lemma {:induction false} ValAppend(b: int, s: seq<int>, t: seq<int>)
    ensures Val(b, s + t) == Val(b, s) + Pow(b, |s|) * Val(b, t)
  {
    if s == [] {
      assert s + t == t;
    } else {
      assert (s + t)[1..] == s[1..] + t;
      ValAppend(b, s[1..], t);
      MulAssoc(b, Pow(b, |s| - 1), Val(b, t));
    }
  }

  lemma ValSnoc(b: int, s: seq<int>, d: int)
    ensures Val(b, s + [d]) == Val(b, s) + Pow(b, |s|) * d
  {
    ValAppend(b, s, [d]);
  }

  lemma DigitStep(d: int, v: int, p: int, b: int)
    requires 0 <= d < b && 0 <= v < p
    ensures 0 <= d + b * v < b * p
  {
    MulMono(v, p - 1, b);
  }

  lemma {:induction false} ValBound(b: int, s: seq<int>)
    requires b > 0 && AreDigits(b, s)
    ensures 0 <= Val(b, s) < Pow(b, |s|)
  {
    if s != [] {
      ValBound(b, s[1..]);
      DigitStep(s[0], Val(b, s[1..]), Pow(b, |s| - 1), b);
    }
  }

  lemma {:induction false} ValOfDigits(b: int, x: int, n: nat)
    requires b > 0
    ensures Pow(b, n) > 0 && Val(b, Digits(b, x, n)) == x % Pow(b, n)
    decreases n
  {
    PowPositive(b, n);
    if n > 0 {
      PowPositive(b, n - 1);
      ValOfDigits(b, x / b, n - 1);
      assert Digits(b, x, n)[1..] == Digits(b, x / b, n - 1);
      DivDiv(x, b, Pow(b, n - 1));
    }
  }

  lemma {:induction false} DigitsOfVal(b: int, s: seq<int>)
    requires b > 0 && AreDigits(b, s)
    ensures Digits(b, Val(b, s), |s|) == s
  {
    if s != [] {
      DivModUnique(Val(b, s), Val(b, s[1..]), s[0], b);
      DigitsOfVal(b, s[1..]);
    }
  }

  lemma ValInjective(b: int, s: seq<int>, t: seq<int>)
    requires b > 0 && AreDigits(b, s) && AreDigits(b, t) && |s| == |t| && Val(b, s) == Val(b, t)
    ensures s == t
  {
    DigitsOfVal(b, s);
    DigitsOfVal(b, t);
  }

  lemma DigitsAppend(b: int, x: int, m: nat, y: int, n: nat)
    requires b > 0 && 0 <= x < Pow(b, m) && 0 <= y < Pow(b, n)
    ensures Digits(b, x + Pow(b, m) * y, m + n) == Digits(b, x, m) + Digits(b, y, n)
  {
    var s, t := Digits(b, x, m), Digits(b, y, n);
    DigitsAreDigits(b, x, m);
    DigitsAreDigits(b, y, n);
    ValOfDigits(b, x, m);
    ValOfDigits(b, y, n);
    DivModUnique(x, 0, x, Pow(b, m));
    DivModUnique(y, 0, y, Pow(b, n));
    ValAppend(b, s, t);
    DigitsOfVal(b, s + t);
  }

  /** Digit i of a number, read off by division. */
  lemma {:induction false} ValDigit(b: int, s: seq<int>, i: nat)
    requires b > 0 && AreDigits(b, s) && i < |s|
    ensures Pow(b, i) > 0 && Val(b, s) / Pow(b, i) % b == s[i]
  {
    PowPositive(b, i);
    ValBound(b, s);
    DivModUnique(Val(b, s), Val(b, s[1..]), s[0], b);
    if i > 0 {
      PowPositive(b, i - 1);
      ValDigit(b, s[1..], i - 1);
      DivDiv(Val(b, s), b, Pow(b, i - 1));
    }
  }

  /** A carry chain: dividing step by step divides the whole number. */
  lemma CarryChain(b: int, c: int, w: seq<int>, i: nat)
    requires b > 0 && i < |w|
    ensures Pow(b, i) > 0 && Pow(b, i + 1) > 0
    ensures ((c + Val(b, w[..i])) / Pow(b, i) + w[i]) / b == (c + Val(b, w[..i + 1])) / Pow(b, i + 1)
  {
    hide Val;
    PowPositive(b, i);
    PowPositive(b, i + 1);
    assert w[..i + 1] == w[..i] + [w[i]];
    ValSnoc(b, w[..i], w[i]);
    var x, p := c + Val(b, w[..i]), Pow(b, i);
    ModPlusMultiple(x, w[i], p);
    DivDiv(x + p * w[i], p, b);
    MulComm(p, b);
  }

  /** A carry chain that also writes its digits: digits and carry still add up. */
  lemma AddChain(b: int, out: seq<int>, carry: int, x: int)
    requires b > 0
    ensures Val(b, out + [(carry + x) % b]) + Pow(b, |out| + 1) * ((carry + x) / b)
         == Val(b, out) + Pow(b, |out|) * carry + Pow(b, |out|) * x
  {
    hide Val;
    var p, y := Pow(b, |out|), carry + x;
    ValSnoc(b, out, y % b);
    MulAssoc(p, b, y / b);
    MulComm(p, b);
    Distribute(p, y % b, b * (y / b));
    Distribute(p, carry, x);
    assert y == b * (y / b) + y % b;
  }

  lemma MulComm(a: int, b: int)
    ensures a * b == b * a
  {}

  /** Bytes as a number, and back. */
  function LE(s: seq<byte>): int { Val(256, s) }

  function ToLE(x: int, n: nat): (s: seq<byte>) ensures |s| == n { DigitsAreDigits(256, x, n); Digits(256, x, n) }

  lemma {:induction false} ValZeros(z: seq<byte>)
    requires forall i :: 0 <= i < |z| ==> z[i] == 0
    ensures LE(z) == 0
  {
    if z != [] { ValZeros(z[1..]); }
  }

  lemma ValEmpty(b: int)
    ensures Val(b, []) == 0
  {}

  lemma NextDigit(b: int, s: seq<int>, k: nat)
    requires k < |s|
    ensures Val(b, s[k..]) == s[k] + b * Val(b, s[k + 1..])
  {
    assert s[k..][1..] == s[k + 1..];
  }

  function Zeros(n: nat): (z: seq<byte>) ensures |z| == n { seq(n, i => 0) }

  lemma Pow256()
    ensures Pow(256, 8) == B64 && Pow(256, 16) == B128 && Pow(256, 4) == B32
  {
    assert Pow(256, 4) == B32;
    PowAdd(256, 4, 4);
    PowAdd(256, 8, 8);
  }

  lemma WordRange(b: seq<byte>)
    ensures |b| == 8 ==> 0 <= LE(b) < B64
    ensures |b| == 4 ==> 0 <= LE(b) < B32
  {
    ValBound(256, b);
    Pow256();
  }

  lemma NoWrap(a: u64, b: u64)
    ensures a + b < B64 ==> Add64(a, b) == a + b
  {}
}
