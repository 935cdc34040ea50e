/** Powers modulo 2^255 - 19 by chains of products: the inverse square root and the inverse. */
module FieldPower {
  import opened Words
  import opened Field25519
  import opened MonoUtil

  /** Limbs fit for another product, of the residue x^e. */
  ghost predicate IsPower(h: Ten, x: int, e: nat) { Carried(h) && Cong(Value(h), Pow(x, e), Q) }

  // ---------------------------------------------------------------- exponents

  ghost function Doubled(e: nat, n: nat): nat { if n == 0 then e else 2 * Doubled(e, n - 1) }

  /** n ones in binary. */
  ghost function Ones(n: nat): nat {
    PowPositive(2, n);
    Pow(2, n) - 1
  }

  /** Shifting k ones by n and filling up with n ones. */
  lemma {:induction false} OnesShifted(k: nat, n: nat)
    ensures Doubled(Ones(k), n) + Ones(n) == Ones(k + n)
    decreases n
  {
    if n > 0 { OnesShifted(k, n - 1); }
  }

  lemma FiveOnes()
    ensures Ones(5) == 31 && Doubled(Ones(250), 2) + 1 == Ones(252) - 2
  {
    OnesShifted(250, 2);
    assert Pow(2, 2) == 4 && Pow(2, 3) == 8;
    assert Doubled(Ones(250), 1) == 2 * Ones(250);
  }

  // ----------------------------------------------------------------- products

  lemma ProductIsPower(h: int, f: int, g: int, x: int, d: nat, e: nat)
    requires Cong(h, f * g, Q) && Cong(f, Pow(x, d), Q) && Cong(g, Pow(x, e), Q)
    ensures Cong(h, Pow(x, d + e), Q)
  {
    hide Cong, Pow;
    CongMul(f, Pow(x, d), g, Pow(x, e), Q);
    PowAdd(x, d, e);
    CongTrans(h, f * g, Pow(x, d + e), Q);
  }

  method Times(h: array<i32>, f: array<i32>, g: array<i32>, ghost x: int, ghost d: nat, ghost e: nat)
    requires h.Length == 10 && f.Length == 10 && g.Length == 10
    requires IsPower(Limbs(f[..]), x, d) && IsPower(Limbs(g[..]), x, e)
    modifies h
    ensures IsPower(Limbs(h[..]), x, d + e)
  {
    hide Value, Carried, Factor, Limbs, Cong, Pow;
    ghost var a, b := Limbs(f[..]), Limbs(g[..]);
    CarriedIsFactor(a);
    CarriedIsFactor(b);
    FeMul(h, f, g);
    ProductIsPower(Value(Limbs(h[..])), Value(a), Value(b), x, d, e);
  }

  method Square(h: array<i32>, f: array<i32>, ghost x: int, ghost e: nat)
    requires h.Length == 10 && f.Length == 10 && IsPower(Limbs(f[..]), x, e)
    modifies h
    ensures IsPower(Limbs(h[..]), x, e + e)
  {
    hide Value, Carried, Factor, Limbs, Cong, Pow;
    ghost var a := Limbs(f[..]);
    CarriedIsFactor(a);
    FeSq(h, f);
    ProductIsPower(Value(Limbs(h[..])), Value(a), Value(a), x, e, e);
  }

  /** h := f^(2^n), one squaring out of place and the others in place. */
  method SquareTimes(h: array<i32>, f: array<i32>, n: nat, ghost x: int, ghost e: nat)
    requires h.Length == 10 && f.Length == 10 && n > 0 && IsPower(Limbs(f[..]), x, e)
    modifies h
    ensures IsPower(Limbs(h[..]), x, Doubled(e, n))
  {
    hide IsPower;
    Square(h, f, x, e);
    assert Doubled(e, 1) == e + e;
    var i := 1;
    while i < n
      invariant 1 <= i <= n && IsPower(Limbs(h[..]), x, Doubled(e, i))
    {
      Square(h, h, x, Doubled(e, i));
      i := i + 1;
    }
  }

  /** x^31 in t0. */
  method FirstFive(t0: array<i32>, t1: array<i32>, x: array<i32>, ghost v: int)
    requires t0.Length == 10 && t1.Length == 10 && x.Length == 10 && t0 != t1 && t0 != x && t1 != x
    requires IsPower(Limbs(x[..]), v, 1)
    modifies t0, t1
    ensures IsPower(Limbs(t0[..]), v, Ones(5))
  {
    hide IsPower, Limbs, Ones;
    Square(t0, x, v, 1);
    Square(t1, t0, v, 2);
    Square(t1, t1, v, 4);
    Times(t1, x, t1, v, 1, 8);
    Times(t0, t0, t1, v, 2, 9);
    Square(t0, t0, v, 11);
    Times(t0, t1, t0, v, 9, 22);
    FiveOnes();
  }

  /** x^(2^50 - 1) in t0. */
  method FirstFifty(t0: array<i32>, t1: array<i32>, t2: array<i32>, ghost v: int)
    requires t0.Length == 10 && t1.Length == 10 && t2.Length == 10 && t0 != t1 && t0 != t2 && t1 != t2
    requires IsPower(Limbs(t0[..]), v, Ones(5))
    modifies t0, t1, t2
    ensures IsPower(Limbs(t0[..]), v, Ones(50))
  {
    hide IsPower, Limbs, Ones, Doubled;
    SquareTimes(t1, t0, 5, v, Ones(5));
    Times(t0, t1, t0, v, Doubled(Ones(5), 5), Ones(5));
    OnesShifted(5, 5);
    SquareTimes(t1, t0, 10, v, Ones(10));
    Times(t1, t1, t0, v, Doubled(Ones(10), 10), Ones(10));
    OnesShifted(10, 10);
    SquareTimes(t2, t1, 20, v, Ones(20));
    Times(t1, t2, t1, v, Doubled(Ones(20), 20), Ones(20));
    OnesShifted(20, 20);
    SquareTimes(t1, t1, 10, v, Ones(40));
    Times(t0, t1, t0, v, Doubled(Ones(40), 10), Ones(10));
    OnesShifted(40, 10);
  }

  /** x^(2^250 - 1) in t0. */
  method FirstQuarter(t0: array<i32>, t1: array<i32>, t2: array<i32>, ghost v: int)
    requires t0.Length == 10 && t1.Length == 10 && t2.Length == 10 && t0 != t1 && t0 != t2 && t1 != t2
    requires IsPower(Limbs(t0[..]), v, Ones(50))
    modifies t0, t1, t2
    ensures IsPower(Limbs(t0[..]), v, Ones(250))
  {
    hide IsPower, Limbs, Ones, Doubled;
    SquareTimes(t1, t0, 50, v, Ones(50));
    Times(t1, t1, t0, v, Doubled(Ones(50), 50), Ones(50));
    OnesShifted(50, 50);
    SquareTimes(t2, t1, 100, v, Ones(100));
    Times(t1, t2, t1, v, Doubled(Ones(100), 100), Ones(100));
    OnesShifted(100, 100);
    SquareTimes(t1, t1, 50, v, Ones(200));
    Times(t0, t1, t0, v, Doubled(Ones(200), 50), Ones(50));
    OnesShifted(200, 50);
  }

  /** (p - 5) / 8 and (p - 1) / 4. */
  const E8 := (Q - 5) / 8
  const E4 := (Q - 1) / 4

  lemma ExponentOnes()
    ensures Ones(252) - 2 == E8 && E8 + E8 + 1 == E4
  {
    Pow2Of252();
  }

  lemma Pow2Of252()
    ensures Pow(2, 252) == (Q + 19) / 8
  {
    assert Pow(2, 4) == 0x10 && Pow(2, 7) == 0x80;
    PowAdd(2, 7, 7);
    PowAdd(2, 14, 14);
    PowAdd(2, 28, 28);
    PowAdd(2, 56, 7);
    PowAdd(2, 63, 63);
    PowAdd(2, 126, 126);
  }

  /** x^((p-5)/8) by 251 squarings and 11 products. */
  method PowerE8(t0: array<i32>, t1: array<i32>, t2: array<i32>, x: array<i32>, ghost v: int)
    requires t0.Length == 10 && t1.Length == 10 && t2.Length == 10 && x.Length == 10
    requires t0 != t1 && t0 != t2 && t1 != t2 && x != t0 && x != t1 && x != t2
    requires IsPower(Limbs(x[..]), v, 1)
    modifies t0, t1, t2
    ensures IsPower(Limbs(t0[..]), v, E8)
  {
    hide IsPower, Limbs, Ones, Doubled;
    FirstFive(t0, t1, x, v);
    FirstFifty(t0, t1, t2, v);
    FirstQuarter(t0, t1, t2, v);
    SquareTimes(t0, t0, 2, v, Ones(250));
    Times(t0, t0, x, v, Doubled(Ones(250), 2), 1);
    FiveOnes();
    ExponentOnes();
  }

  // --------------------------------------------------------- small operations

  const SQRT_M1_LIMBS: seq<i32> :=
    [-32595792, -7943725, 9377950, 3500415, 12389472, -272473, -25146209, -2005654, 326686, 11406482]

  const SQRT_M1 := 0x2b832480_4fc1df0b_2b4d0099_3dfbd7a7_2f431806_ad2fe478_c4ee1b27_4a0ea0b0

  /** The constant is a square root of -1. */
  lemma SqrtM1()
    ensures Carried(Limbs(SQRT_M1_LIMBS)) && Value(Limbs(SQRT_M1_LIMBS)) == SQRT_M1
    ensures Cong(SQRT_M1 * SQRT_M1, -1, Q)
  {
    CongBy(SQRT_M1 * SQRT_M1, -1, 0xecaa2e2f6a2302ccedb31ac05720688238ced2078f3eb0ec9f22e8f621972e5, Q);
  }

  /** h := the constant c, or zero for c = 0. */
  method FeSmall(h: array<i32>, c: i32)
    requires h.Length == 10 && 0 <= c <= 1
    modifies h
    ensures Carried(Limbs(h[..])) && Value(Limbs(h[..])) == c
  {
    h[0] := c;
    forall i | 1 <= i < 10 { h[i] := 0; }
  }

  /** h := -f */
  method FeNeg(h: array<i32>, f: array<i32>)
    requires h.Length == 10 && f.Length == 10 && Carried(Limbs(f[..]))
    modifies h
    ensures Carried(Limbs(h[..])) && Value(Limbs(h[..])) == -old(Value(Limbs(f[..])))
  {
    hide Value, Limbs, Carried;
    ghost var before := f[..];
    BoundedLimbs(before);
    var i := 0;
    while i < 10
      invariant 0 <= i <= 10
      invariant forall k :: 0 <= k < i ==> h[k] == -before[k]
      invariant forall k :: i <= k < 10 ==> f[k] == before[k]
    {
      h[i] := -f[i];
      i := i + 1;
    }
    Negated(before, h[..]);
  }

  lemma BoundedLimbs(f: seq<int>)
    requires |f| == 10 && Carried(Limbs(f))
    ensures forall k :: 0 <= k < 10 ==> -0x4000_0000 <= f[k] <= 0x4000_0000
  {
    CarriedByIndex(f);
  }

  lemma Negated(f: seq<int>, h: seq<int>)
    requires |f| == |h| == 10 && (forall k :: 0 <= k < 10 ==> h[k] == -f[k]) && Carried(Limbs(f))
    ensures Carried(Limbs(h)) && Value(Limbs(h)) == -Value(Limbs(f))
  {}

  /** 1 for equal residues and 0 for different ones, by comparing encodings. */
  method FeIsEqual(f: array<i32>, g: array<i32>) returns (r: int)
    requires f.Length == 10 && g.Length == 10 && Carried(Limbs(f[..])) && Carried(Limbs(g[..]))
    ensures r == if Cong(Value(Limbs(f[..])), Value(Limbs(g[..])), Q) then 1 else 0
  {
    hide Value, Carried, Limbs, Val;
    var fs, gs := new byte[32](i => 0), new byte[32](i => 0);
    FeToBytes(fs, f);
    FeToBytes(gs, g);
    if LE(fs[..]) == LE(gs[..]) { ValInjective(256, fs[..], gs[..]); }
    var isDifferent := Verify32(fs[..], gs[..]);
    r := 1 + isDifferent;
  }

  /** f := g if b is 1, nothing if it is 0. */
  method FeCCopy(f: array<i32>, g: array<i32>, b: int)
    requires f.Length == 10 && g.Length == 10 && 0 <= b <= 1
    modifies f
    ensures f[..] == if b == 1 then old(g[..]) else old(f[..])
  {
    if b == 1 {
      forall i | 0 <= i < 10 { f[i] := g[i]; }
    }
  }

  // ------------------------------------------------------ inverse square root

  /** A square root of 1/v, or of sqrt(-1)/v, told apart by the quartic character. */
  ghost predicate IsInverseRoot(s: int, v: int, square: int) {
    var q := Pow(v, E4);
    && 0 <= square <= 1
    && (square == 1 <==> Cong(q, 1, Q) || Cong(q, -1, Q) || Cong(v, 0, Q))
    && (Cong(q, 1, Q) || Cong(q, -1, Q) ==> Cong(s * s * v, 1, Q))
    && (Cong(q, SQRT_M1, Q) || Cong(q, -SQRT_M1, Q) ==> Cong(s * s * v, SQRT_M1, Q))
    && (Cong(v, 0, Q) ==> Cong(s, 0, Q))
  }

  /** The fourth roots of one are four residues. */
  lemma RootsDiffer()
    ensures !Cong(1, -1, Q) && !Cong(1, -SQRT_M1, Q) && !Cong(SQRT_M1, -1, Q) && !Cong(SQRT_M1, -SQRT_M1, Q)
    ensures !Cong(1, SQRT_M1, Q) && !Cong(-1, -SQRT_M1, Q)
  {}

  lemma Regrouped(t: int, c: int, v: int)
    ensures t * c * (t * c) * v == t * t * v * (c * c)
  {}

  /** The choice between t and t * sqrt(-1), by the four tests. */
  lemma RootChosen(s: int, t: int, v: int, turned: bool, square: int)
    requires Cong(t, Pow(v, E8), Q)
    requires turned <==> Cong(Pow(v, E4), -1, Q) || Cong(Pow(v, E4), -SQRT_M1, Q)
    requires if turned then Cong(s, t * SQRT_M1, Q) else s == t
    requires 0 <= square <= 1
    requires square == 1 <==> Cong(Pow(v, E4), 1, Q) || Cong(Pow(v, E4), -1, Q) || Cong(v, 0, Q)
    ensures IsInverseRoot(s, v, square)
  {
    hide Cong, Pow;
    var q := Pow(v, E4);
    QuarticOf(t, v);
    RootsDiffer();
    SameClass(q, 1, -1);
    SameClass(q, 1, -SQRT_M1);
    SameClass(q, SQRT_M1, -1);
    SameClass(q, SQRT_M1, -SQRT_M1);
    if turned {
      var c := SQRT_M1;
      CongMul(s, t * c, s, t * c, Q);
      CongSame(v, Q);
      CongMul(s * s, t * c * (t * c), v, v, Q);
      Regrouped(t, c, v);
      SqrtM1();
      CongMul(t * t * v, q, c * c, -1, Q);
      CongTrans(s * s * v, t * t * v * (c * c), -q, Q);
      if Cong(q, -1, Q) { Negates(s * s * v, q, 1); }
      if Cong(q, -SQRT_M1, Q) { Negates(s * s * v, q, SQRT_M1); }
    } else {
      if Cong(q, 1, Q) { CongTrans(t * t * v, q, 1, Q); }
      if Cong(q, SQRT_M1, Q) { CongTrans(t * t * v, q, SQRT_M1, Q); }
    }
    if Cong(v, 0, Q) { ZeroRoot(s, t, v); }
  }

  lemma SameClass(q: int, a: int, b: int)
    ensures Cong(q, a, Q) && Cong(q, b, Q) ==> Cong(a, b, Q)
  {}

  lemma Negates(s: int, q: int, a: int)
    requires Cong(s, -q, Q) && Cong(q, -a, Q)
    ensures Cong(s, a, Q)
  {
    hide Cong;
    CongSame(-1, Q);
    CongMul(-1, -1, q, -a, Q);
    CongTrans(s, -q, a, Q);
  }

  lemma QuarticOf(t: int, v: int)
    requires Cong(t, Pow(v, E8), Q)
    ensures Cong(t * t * v, Pow(v, E4), Q)
  {
    hide Cong, Pow;
    CongSame(t * t, Q);
    ProductIsPower(t * t, t, t, v, E8, E8);
    PowOne(v);
    CongSame(v, Q);
    CongSame(t * t * v, Q);
    ExponentOnes();
    ProductIsPower(t * t * v, t * t, v, v, E8 + E8, 1);
  }

  lemma PowOne(v: int)
    ensures Pow(v, 1) == v
  {}

  lemma ZeroRoot(s: int, t: int, v: int)
    requires Cong(t, Pow(v, E8), Q) && Cong(v, 0, Q) && (s == t || Cong(s, t * SQRT_M1, Q))
    ensures Cong(s, 0, Q)
  {
    hide Cong;
    CongPow(v, 0, E8, Q);
    assert Pow(0, E8) == 0 * Pow(0, E8 - 1);
    CongTrans(t, Pow(v, E8), 0, Q);
    CongSame(SQRT_M1, Q);
    CongMul(t, 0, SQRT_M1, SQRT_M1, Q);
    if s != t { CongTrans(s, t * SQRT_M1, 0, Q); }
  }

  /** Is x zero, and is its quartic 1, -1 or -sqrt(-1)? */
  method Tests(x: array<i32>, quartic: array<i32>, check: array<i32>, sqrtm1: array<i32>)
      returns (z0: int, p1: int, m1: int, ms: int)
    requires x.Length == 10 && quartic.Length == 10 && check.Length == 10 && sqrtm1.Length == 10
    requires check != x && check != quartic && check != sqrtm1
    requires Carried(Limbs(x[..])) && Carried(Limbs(quartic[..])) && sqrtm1[..] == SQRT_M1_LIMBS
    modifies check
    ensures 0 <= z0 <= 1 && 0 <= p1 <= 1 && 0 <= m1 <= 1 && 0 <= ms <= 1
    ensures z0 == 1 <==> Cong(Value(Limbs(x[..])), 0, Q)
    ensures p1 == 1 <==> Cong(Value(Limbs(quartic[..])), 1, Q)
    ensures m1 == 1 <==> Cong(Value(Limbs(quartic[..])), -1, Q)
    ensures ms == 1 <==> Cong(Value(Limbs(quartic[..])), -SQRT_M1, Q)
  {
    hide Value, Carried, Limbs, Cong;
    SqrtM1();
    FeSmall(check, 0);
    z0 := FeIsEqual(x, check);
    FeSmall(check, 1);
    p1 := FeIsEqual(quartic, check);
    FeNeg(check, check);
    m1 := FeIsEqual(quartic, check);
    FeNeg(check, sqrtm1);
    ms := FeIsEqual(quartic, check);
  }

  /** isr := the inverse square root of x, up to a root of -1; 1 if it is one. */
  method InvSqrt(isr: array<i32>, x: array<i32>) returns (square: int)
    requires isr.Length == 10 && x.Length == 10 && Carried(Limbs(x[..]))
    modifies isr
    ensures Carried(Limbs(isr[..])) && IsInverseRoot(Value(Limbs(isr[..])), old(Value(Limbs(x[..]))), square)
  {
    hide Value, Carried, Limbs, Cong, Pow, IsInverseRoot;
    var t0, t1, t2 := new i32[10](i => 0), new i32[10](i => 0), new i32[10](i => 0);
    var sqrtm1 := new i32[10](i requires 0 <= i < 10 => SQRT_M1_LIMBS[i]);
    assert sqrtm1[..] == SQRT_M1_LIMBS;
    ghost var v := Value(Limbs(x[..]));
    IsFirstPower(Limbs(x[..]));
    PowerE8(t0, t1, t2, x, v);
    var quartic := t1;
    Square(quartic, t0, v, E8);
    Times(quartic, quartic, x, v, E8 + E8, 1);
    ExponentOnes();
    ghost var q := Value(Limbs(quartic[..]));
    var z0, p1, m1, ms := Tests(x, quartic, t2, sqrtm1);
    SameTests(q, v);
    var turned := m1 == 1 || ms == 1;
    ghost var t := Value(Limbs(t0[..]));
    ChooseRoot(isr, t0, sqrtm1, turned);
    square := if p1 == 1 || m1 == 1 || z0 == 1 then 1 else 0;
    RootChosen(Value(Limbs(isr[..])), t, v, turned, square);
  }

  lemma IsFirstPower(h: Ten)
    requires Carried(h)
    ensures IsPower(h, Value(h), 1)
  {
    PowOne(Value(h));
  }

  /** The tests on the computed quartic are tests on the power. */
  lemma SameTests(q: int, v: int)
    requires Cong(q, Pow(v, E4), Q)
    ensures forall a :: Cong(q, a, Q) <==> Cong(Pow(v, E4), a, Q)
  {}

  method ChooseRoot(isr: array<i32>, t0: array<i32>, sqrtm1: array<i32>, turned: bool)
    requires isr.Length == 10 && t0.Length == 10 && sqrtm1.Length == 10 && isr != t0 && isr != sqrtm1
    requires Carried(Limbs(t0[..])) && sqrtm1[..] == SQRT_M1_LIMBS
    modifies isr
    ensures Carried(Limbs(isr[..]))
    ensures var s, t := Value(Limbs(isr[..])), Value(Limbs(t0[..])); if turned then Cong(s, t * SQRT_M1, Q) else s == t
  {
    hide Value, Carried, Limbs, Cong, Factor;
    SqrtM1();
    CarriedIsFactor(Limbs(t0[..]));
    CarriedIsFactor(Limbs(sqrtm1[..]));
    FeMul(isr, t0, sqrtm1);
    FeCCopy(isr, t0, if turned then 0 else 1);
  }

  // ------------------------------------------------------------------ inverse

  /** x times the square of an inverse root of x^2. */
  lemma InverseOfRoot(o: int, s: int, w: int, v: int, square: int)
    requires Cong(w, v * v, Q) && IsInverseRoot(s, w, square) && Cong(o, s * s * v, Q)
    ensures Cong(Pow(v, E4 + E4), 1, Q) || Cong(Pow(v, E4 + E4), -1, Q) ==> Cong(o * v, 1, Q)
    ensures Cong(v, 0, Q) ==> Cong(o, 0, Q)
  {
    hide Cong, Pow;
    CongPow(w, v * v, E4, Q);
    PowOfSquare(v, E4);
    SameResidue(Pow(w, E4), Pow(v, E4 + E4));
    CongSame(v, Q);
    CongMul(o, s * s * v, v, v, Q);
    CongSame(s * s, Q);
    SameResidue(w, v * v);
    CongSame(w, Q);
    CongMul(s * s, s * s, v * v, w, Q);
    assert s * s * v * v == s * s * (v * v);
    CongTrans(o * v, s * s * (v * v), s * s * w, Q);
    if Cong(s * s * w, 1, Q) { CongTrans(o * v, s * s * w, 1, Q); }
    if Cong(v, 0, Q) {
      CongMul(s * s, s * s, v, 0, Q);
      CongTrans(o, s * s * v, 0, Q);
    }
  }

  lemma SameResidue(a: int, b: int)
    requires Cong(a, b, Q)
    ensures forall c :: Cong(a, c, Q) <==> Cong(b, c, Q)
  {}

  lemma {:induction false} PowOfSquare(v: int, e: nat)
    ensures Pow(v * v, e) == Pow(v, e + e)
    decreases e
  {
    if e > 0 {
      PowOfSquare(v, e - 1);
      assert Pow(v, e + e) == v * (v * Pow(v, (e - 1) + (e - 1)));
      MulAssoc(v, v, Pow(v, (e - 1) + (e - 1)));
    }
  }

  /** out := 1/x whenever x^((p-1)/2) is 1 or -1, and 0 for x = 0. */
  method FeInvert(out: array<i32>, x: array<i32>)
    requires out.Length == 10 && x.Length == 10 && Carried(Limbs(x[..]))
    modifies out
    ensures Carried(Limbs(out[..]))
    ensures var o, v := Value(Limbs(out[..])), old(Value(Limbs(x[..])));
      && (Cong(Pow(v, E4 + E4), 1, Q) || Cong(Pow(v, E4 + E4), -1, Q) ==> Cong(o * v, 1, Q))
      && (Cong(v, 0, Q) ==> Cong(o, 0, Q))
  {
    hide Value, Carried, Limbs, Cong, Pow, Factor, IsInverseRoot;
    ghost var v := Value(Limbs(x[..]));
    var tmp := new i32[10](i => 0);
    CarriedIsFactor(Limbs(x[..]));
    FeSq(tmp, x);
    ghost var w := Value(Limbs(tmp[..]));
    var square := InvSqrt(tmp, tmp);
    ghost var s := Value(Limbs(tmp[..]));
    CarriedIsFactor(Limbs(tmp[..]));
    FeSq(tmp, tmp);
    ghost var s2 := Value(Limbs(tmp[..]));
    CarriedIsFactor(Limbs(tmp[..]));
    FeMul(out, tmp, x);
    CongSame(v, Q);
    CongMul(s2, s * s, v, v, Q);
    CongTrans(Value(Limbs(out[..])), s2 * v, s * s * v, Q);
    InverseOfRoot(Value(Limbs(out[..])), s, w, v, square);
  }
}
