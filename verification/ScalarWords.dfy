/** Arithmetic modulo the order L on arrays of 32-bit words: schoolbook
    products, conditional subtraction, Barrett and Montgomery reduction. */
module ScalarWords {
  import opened Words
  import opened Bits

  const L := 0x1000_0000_0000_0000_0000_0000_0000_0000_14de_f9de_a2f7_9cd6_5812_631a_5cf5_d3ed
  const R := 0x1_0000_0000_0000_0000_0000_0000_0000_0000_0000_0000_0000_0000_0000_0000_0000_0000

  const L_WORDS: seq<u32> := [0x5cf5d3ed, 0x5812631a, 0xa2f79cd6, 0x14def9de, 0, 0, 0, 0x10000000]
  const K_WORDS: seq<u32> := [0x12547e1b, 0xd2b51da3, 0xfdba84ff, 0xb1a206f2, 0xffa36bea, 0x14e75438, 0x6fe91836, 0x9db6c6f2]
  const R_WORDS: seq<u32> := [0x0a2c131b, 0xed9ce5a3, 0x086329a7, 0x2106215d, 0xffffffeb, 0xffffffff, 0xffffffff, 0xffffffff, 0xf]

  /** -1/L modulo 2^256, floor(2^512 / L), and 1/2^256 modulo L. */
  const K := 0x9db6c6f2_6fe91836_14e75438_ffa36bea_b1a206f2_fdba84ff_d2b51da3_12547e1b
  const RECIPROCAL := 0xf_ffffffff_ffffffff_ffffffff_ffffffeb_2106215d_086329a7_ed9ce5a3_0a2c131b
  const R_INVERSE := 0x9db6c6f_26fe9183_614e7543_8ffa36be_b7f5c66a_973f754c_c766cca4_3d5f0d24

  function Num(w: seq<int>): int { Val(B32, w) }

  lemma LWords()
    ensures Num(L_WORDS) == L
  {}

  lemma KWords()
    ensures Num(K_WORDS) == K
  {}

  lemma RWords()
    ensures Num(R_WORDS) == RECIPROCAL
  {}

  lemma ConstantRelations()
    ensures K * L + 1 == R_INVERSE * R
    ensures RECIPROCAL * L <= R * R < RECIPROCAL * L + L
  {}

  lemma Pow8()
    ensures Pow(B32, 8) == R && Pow(B32, 16) == R * R
  {
    assert Pow(B32, 2) == B64;
    PowAdd(B32, 2, 2);
    PowAdd(B32, 4, 4);
    PowAdd(B32, 8, 8);
  }

  lemma WordsRange(w: seq<u32>)
    requires |w| == 8
    ensures 0 <= Num(w) < R
  {
    Pow8();
    ValBound(B32, w);
  }

  lemma NumSplit(w: seq<int>, i: nat)
    requires i <= |w|
    ensures Num(w) == Num(w[..i]) + Pow(B32, i) * Num(w[i..])
  {
    ValAppend(B32, w[..i], w[i..]);
    assert w[..i] + w[i..] == w;
  }

  lemma NumSnoc(w: seq<int>, i: nat)
    requires i < |w|
    ensures Num(w[..i + 1]) == Num(w[..i]) + Pow(B32, i) * w[i]
  {
    ValSnoc(B32, w[..i], w[i]);
    assert w[..i + 1] == w[..i] + [w[i]];
  }

  // ---------------------------------------------------------------- products

  /** carry + p + a * b never leaves 64 bits. */
  lemma ProductFits(c: u32, p: u32, a: u32, b: u32)
    ensures 0 <= c + p + a * b < B64
  {
    MulMono(a, B32 - 1, b);
    MulMono(0, a, b);
  }

  /** One digit of a row: out is what the row has written, old what it replaces. */
  lemma RowStep(out: seq<int>, carry: int, old_: seq<int>, a: int, b: seq<int>, j: nat)
    requires j < |old_| && j < |b| && |out| == j
    requires Num(out) + Pow(B32, j) * carry == Num(old_[..j]) + a * Num(b[..j])
    ensures Num(out + [(carry + old_[j] + a * b[j]) % B32]) + Pow(B32, j + 1) * ((carry + old_[j] + a * b[j]) / B32)
         == Num(old_[..j + 1]) + a * Num(b[..j + 1])
  {
    hide Num;
    var p := Pow(B32, j);
    assert carry + old_[j] + a * b[j] == carry + (old_[j] + a * b[j]);
    AddDigit(out, carry, old_[j] + a * b[j]);
    NumSnoc(old_, j);
    NumSnoc(b, j);
    Distribute(p, old_[j], a * b[j]);
    Distribute(a, Num(b[..j]), p * b[j]);
    SwapFactors(p, a, b[j]);
  }

  lemma AddDigit(out: seq<int>, carry: int, x: int)
    ensures Num(out + [(carry + x) % B32]) + Pow(B32, |out| + 1) * ((carry + x) / B32)
         == Num(out) + Pow(B32, |out|) * carry + Pow(B32, |out|) * x
  {
    AddChain(B32, out, carry, x);
  }

  lemma SwapFactors(p: int, a: int, b: int)
    ensures p * (a * b) == a * (p * b)
  {}

  /** p[i..i+n+1] := p[i..i+n] + a * b, the carry replacing the word above. */
  method AddRow(p: array<u32>, i: nat, a: u32, b: seq<u32>, n: nat) returns (carry: u64)
    requires n <= |b| && i + n <= p.Length
    modifies p
    ensures carry < B32
    ensures p[..i] == old(p[..i]) && p[i + n..] == old(p[i + n..])
    ensures Num(p[i..i + n]) + Pow(B32, n) * carry == Num(old(p[i..i + n])) + a * Num(b[..n])
  {
    carry := 0;
    var j := 0;
    ghost var before := p[..];
    assert p[i..i + 0] == [] && before[i..][..0] == [] && b[..0] == [];
    while j < n
      invariant 0 <= j <= n && carry < B32
      invariant p[..i] == before[..i] && forall k :: i + j <= k < p.Length ==> p[k] == before[k]
      invariant Num(p[i..i + j]) + Pow(B32, j) * carry == Num(before[i..][..j]) + a * Num(b[..j])
    {
      hide Num;
      ghost var out := p[i..i + j];
      assert p[i + j] == before[i + j] == before[i..][j];
      ProductFits(carry, p[i + j], a, b[j]);
      RowStep(out, carry, before[i..], a, b, j);
      ghost var x := carry + before[i..][j] + a * b[j];
      carry := carry + p[i + j] + a * b[j];
      p[i + j] := carry % B32;
      assert p[i..i + (j + 1)] == out + [x % B32];
      CarryWord(x);
      carry := carry / B32;
      j := j + 1;
    }
    assert before[i..][..n] == before[i..i + n];
  }

  lemma CarryWord(x: u64)
    ensures 0 <= x / B32 < B32
  {}

  /** p := a * b + p, where p[..|b|] is the old value and the words above are overwritten. */
  method Multiply(p: array<u32>, a: seq<u32>, b: seq<u32>)
    requires p.Length >= |a| + |b| && |b| > 0
    modifies p
    ensures Num(p[..|a| + |b|]) == Num(a) * Num(b) + Num(old(p[..|b|]))
    ensures p[|a| + |b|..] == old(p[|a| + |b|..])
  {
    hide Num;
    var n := |b|;
    var i := 0;
    ghost var before := p[..];
    assert b[..n] == b && a[..0] == [] && Num([]) == 0 by { NumEmpty(); }
    while i < |a|
      invariant 0 <= i <= |a|
      invariant p[i + n..] == before[i + n..]
      invariant Num(p[..i + n]) == Num(a[..i]) * Num(b) + Num(before[..n])
    {
      ghost var mid, old_ := p[..], p[..i + n];
      var carry := AddRow(p, i, a[i], b, n);
      ghost var low, row := p[..i], p[i..i + n];
      p[i + n] := carry;
      ghost var new_ := p[..i + n + 1];
      RowWords(p[..], i, n, low, row, carry);
      Pieces(low, row, carry);
      PrefixOfPrefix(mid, i, i + n);
      MultiplyStep(old_, new_, a, i, b, n, Num(before[..n]));
      assert p[i + n + 1..] == before[i + n + 1..];
      i := i + 1;
    }
    assert a[..|a|] == a;
  }

  /** A stretch of words in three pieces. */
  lemma RowWords(p: seq<u32>, i: nat, n: nat, low: seq<u32>, row: seq<u32>, top: u32)
    requires i + n < |p| && low == p[..i] && row == p[i..i + n] && top == p[i + n]
    ensures p[..i + n + 1] == low + row + [top]
  {}

  lemma PrefixOfPrefix(p: seq<u32>, i: nat, n: nat)
    requires i <= n <= |p|
    ensures p[..n][..i] == p[..i] && p[..n][i..] == p[i..n]
  {}

  lemma Pieces(low: seq<int>, row: seq<int>, top: int)
    ensures var s := low + row + [top];
      s[..|low|] == low && s[|low|..][..|row|] == row && s[|low|..][|row|] == top
  {}

  lemma NumEmpty()
    ensures Num([]) == 0
  {}

  lemma MultiplyStep(old_: seq<int>, new_: seq<int>, a: seq<int>, i: nat, b: seq<int>, n: nat, start: int)
    requires i < |a| && |b| == n && |old_| == i + n && |new_| == i + n + 1 && old_[..i] == new_[..i]
    requires Num(new_[i..][..n]) + Pow(B32, n) * new_[i..][n] == Num(old_[i..]) + a[i] * Num(b)
    requires Num(old_) == Num(a[..i]) * Num(b) + start
    ensures Num(new_) == Num(a[..i + 1]) * Num(b) + start
  {
    hide Num;
    NumSplit(old_, i);
    NumSplit(new_, i);
    NumSnoc(new_[i..], n);
    assert new_[i..][..n + 1] == new_[i..];
    NumSnoc(a, i);
    var p := Pow(B32, i);
    Distribute(p, Num(old_[i..]), a[i] * Num(b));
    MulAssoc(p, a[i], Num(b));
    SumTimes(Num(a[..i]), p * a[i], Num(b));
  }

  lemma SumTimes(a: int, b: int, c: int)
    ensures (a + b) * c == a * c + b * c
  {}

  /** p[..n] := a * b + p[..n] modulo 2^(32 n): the triangle of products below word n. */
  method MultiplyLow(p: array<u32>, a: seq<u32>, b: seq<u32>)
    requires p.Length >= |a| == |b| > 0
    modifies p
    ensures Pow(B32, |a|) > 0 && Cong(Num(p[..|a|]), Num(a) * Num(b) + Num(old(p[..|a|])), Pow(B32, |a|))
    ensures p[|a|..] == old(p[|a|..])
  {
    hide Num, Cong;
    var n := |a|;
    PowPositive(B32, n);
    var i := 0;
    ghost var before := p[..];
    assert a[..0] == [] && Num([]) == 0 by { NumEmpty(); }
    CongSame(Num(before[..n]), Pow(B32, n));
    while i < n
      invariant 0 <= i <= n && p[n..] == before[n..]
      invariant Cong(Num(p[..n]), Num(a[..i]) * Num(b) + Num(before[..n]), Pow(B32, n))
    {
      ghost var mid, old_ := p[..], p[..n];
      var carry := AddRow(p, i, a[i], b, n - i);
      ghost var new_ := p[..n];
      assert old_[..i] == mid[..i] && new_[..i] == p[..i];
      assert new_[i..] == p[i..i + (n - i)] && old_[i..] == mid[i..i + (n - i)];
      assert p[i + (n - i)..] == before[n..];
      MultiplyLowStep(old_, new_, a, i, b, carry, Num(before[..n]));
      i := i + 1;
    }
    assert a[..n] == a;
  }

  lemma MultiplyLowStep(old_: seq<int>, new_: seq<int>, a: seq<int>, i: nat, b: seq<int>, carry: int, start: int)
    requires i < |a| == |b| == |old_| == |new_| && old_[..i] == new_[..i]
    requires Num(new_[i..]) + Pow(B32, |a| - i) * carry == Num(old_[i..]) + a[i] * Num(b[..|a| - i])
    requires Pow(B32, |a|) > 0 && Cong(Num(old_), Num(a[..i]) * Num(b) + start, Pow(B32, |a|))
    ensures Cong(Num(new_), Num(a[..i + 1]) * Num(b) + start, Pow(B32, |a|))
  {
    hide Num, Cong;
    var n := |a|;
    NumSplit(old_, i);
    NumSplit(new_, i);
    NumSplit(b, n - i);
    NumSnoc(a, i);
    PowAdd(B32, i, n - i);
    var p, q, m := Pow(B32, i), Pow(B32, n - i), Pow(B32, n);
    var low, high := Num(b[..n - i]), Num(b[n - i..]);
    RowCongruence(Num(old_), Num(new_), p, q, Num(old_[i..]), Num(new_[i..]), a[i], low, high, carry);
    CongBy(Num(new_), Num(old_) + p * a[i] * Num(b), -(carry + a[i] * high), m);
    CongSame(p * a[i] * Num(b), m);
    CongAdd(Num(old_), Num(a[..i]) * Num(b) + start, p * a[i] * Num(b), p * a[i] * Num(b), m);
    SumTimes(Num(a[..i]), p * a[i], Num(b));
    CongTrans(Num(new_), Num(old_) + p * a[i] * Num(b), Num(a[..i + 1]) * Num(b) + start, m);
  }

  lemma RowCongruence(o: int, n: int, p: int, q: int, x: int, y: int, a: int, low: int, high: int, carry: int)
    requires y + q * carry == x + a * low && o - n == p * x - p * y
    ensures n == o + p * a * (low + q * high) + -(carry + a * high) * (p * q)
  {
    assert p * y == p * x + p * (a * low) - p * (q * carry) by {
      Distribute(p, y, q * carry);
      Distribute(p, x, a * low);
    }
    assert p * a * (low + q * high) == p * (a * low) + a * high * (p * q);
    assert carry * (p * q) == p * (q * carry);
    SumTimes(carry, a * high, p * q);
  }

  // --------------------------------------------------------- carry chains

  /** Position by position sums, not yet carried. */
  ghost function Sums(x: seq<int>, y: seq<int>): seq<int>
    requires |x| == |y|
  {
    seq(|x|, i requires 0 <= i < |x| => x[i] + y[i])
  }

  lemma {:induction false} NumSums(x: seq<int>, y: seq<int>)
    requires |x| == |y|
    ensures Num(Sums(x, y)) == Num(x) + Num(y)
  {
    if x != [] {
      assert Sums(x, y)[1..] == Sums(x[1..], y[1..]);
      NumSums(x[1..], y[1..]);
    }
  }

  /** ~w & 0xffffffff, word by word. */
  function Complement(w: seq<u32>): seq<u32> {
    seq(|w|, i requires 0 <= i < |w| => 0xffffffff - w[i])
  }

  lemma {:induction false} NumComplement(w: seq<u32>)
    ensures Num(Complement(w)) == Pow(B32, |w|) - 1 - Num(w)
  {
    if w != [] {
      assert Complement(w)[1..] == Complement(w[1..]);
      NumComplement(w[1..]);
    }
  }

  lemma NotL()
    ensures Num(Complement(L_WORDS)) == R - 1 - L
  {
    LWords();
    NumComplement(L_WORDS);
    Pow8();
  }

  /** 1 exactly when x >= L, as the carry out of x + ~L + 1. */
  method IsAboveL(x: seq<u32>) returns (r: u32)
    requires |x| == 8
    ensures r == if Num(x) >= L then 1 else 0
  {
    hide Num;
    ghost var s := Sums(x, Complement(L_WORDS));
    NumSums(x, Complement(L_WORDS));
    NotL();
    WordsRange(x);
    var carry: u64 := 1;
    var i := 0;
    assert s[..0] == [] && Num([]) == 0 && Pow(B32, 0) == 1 by { NumEmpty(); }
    while i < 8
      invariant 0 <= i <= 8 && carry <= 1
      invariant Pow(B32, i) > 0 && carry == (1 + Num(s[..i])) / Pow(B32, i)
    {
      NumChain(1, s, i);
      carry := carry + x[i] + (0xffffffff - L_WORDS[i]);
      carry := carry / B32;
      i := i + 1;
    }
    assert s[..8] == s;
    Pow8();
    TopCarry(Num(x));
    r := carry;
  }

  lemma NumChain(c: int, s: seq<int>, i: nat)
    requires i < |s|
    ensures Pow(B32, i) > 0 && Pow(B32, i + 1) > 0
    ensures ((c + Num(s[..i])) / Pow(B32, i) + s[i]) / B32 == (c + Num(s[..i + 1])) / Pow(B32, i + 1)
  {
    CarryChain(B32, c, s, i);
  }

  lemma TopCarry(x: int)
    requires 0 <= x < R
    ensures (x + R - L) / R == if x >= L then 1 else 0
  {}

  /** One word of a chain that writes its digits. */
  lemma ChainStep(out: seq<int>, carry: int, s: seq<int>, i: nat, c: int)
    requires |out| == i < |s|
    requires Num(out) + Pow(B32, i) * carry == c + Num(s[..i])
    ensures Num(out + [(carry + s[i]) % B32]) + Pow(B32, i + 1) * ((carry + s[i]) / B32) == c + Num(s[..i + 1])
  {
    hide Num;
    AddDigit(out, carry, s[i]);
    NumSnoc(s, i);
  }

  /** r := x - L if x >= L, else x. The array r may be x itself. */
  method RemoveL(r: array<u32>, x: array<u32>, at: nat)
    requires r.Length >= 8 && at + 8 <= x.Length && (r == x ==> at == 0)
    modifies r
    ensures Num(r[..8]) == var v := Num(old(x[at..at + 8])); if v >= L then v - L else v
    ensures r[8..] == old(r[8..])
  {
    hide Num, And;
    ghost var before, rest := x[at..at + 8], r[8..];
    var above := IsAboveL(x[at..at + 8]);
    var carry: u64 := above;
    var mask: u32 := (0xffffffff - above + 1) % B32;
    ghost var y := if above == 1 then Complement(L_WORDS) else [0, 0, 0, 0, 0, 0, 0, 0];
    ghost var s := Sums(before, y);
    NumSums(before, y);
    MaskedNum(above);
    WordsRange(before);
    assert s[..0] == [] && r[..0] == [] && Num([]) == 0 by { NumEmpty(); }
    var i := 0;
    while i < 8
      invariant 0 <= i <= 8 && carry <= 1
      invariant r[8..] == rest
      invariant forall j :: i <= j < 8 ==> x[at + j] == before[j]
      invariant Num(r[..i]) + Pow(B32, i) * carry == above + Num(s[..i])
    {
      ghost var out := r[..i];
      ChainStep(out, carry, s, i, above);
      MaskWord(0xffffffff - L_WORDS[i], above);
      carry := carry + x[at + i] + And(0xffffffff - L_WORDS[i], mask);
      ghost var digit := carry % B32;
      r[i] := carry % B32;
      assert r[..i + 1] == out + [digit];
      carry := carry / B32;
      i := i + 1;
    }
    assert s[..8] == s;
    Pow8();
    WordsRange(r[..8]);
    DropCarry(Num(r[..8]), carry, Num(before), above);
  }

  lemma MaskWord(w: u32, above: u32)
    requires above <= 1
    ensures And(w, (0xffffffff - above + 1) % B32) == if above == 1 then w else 0
  {
    hide And;
    Pow2Widths();
    AndMask(w, 32);
    AndBelow(w, 0);
    assert (0xffffffff - above + 1) % B32 == if above == 1 then 0xffffffff else 0;
  }

  lemma MaskedNum(above: u32)
    requires above <= 1
    ensures Num(if above == 1 then Complement(L_WORDS) else [0, 0, 0, 0, 0, 0, 0, 0])
         == if above == 1 then R - 1 - L else 0
  {
    NotL();
    assert Num([0, 0, 0, 0, 0, 0, 0, 0]) == 0;
  }

  lemma DropCarry(out: int, carry: int, x: int, above: int)
    requires 0 <= out < R && 0 <= x < R && above == (if x >= L then 1 else 0)
    requires out + R * carry == above + x + if above == 1 then R - 1 - L else 0
    ensures out == if x >= L then x - L else x
  {}

  /** xr[..8] := x - xr[..8] modulo 2^256. */
  method SubtractFrom(xr: array<u32>, x: seq<u32>)
    requires xr.Length >= 8 && |x| == 8
    modifies xr
    ensures Num(xr[..8]) == (Num(x) - Num(old(xr[..8]))) % R
    ensures xr[8..] == old(xr[8..])
  {
    hide Num;
    ghost var before, rest := xr[..8], xr[8..];
    ghost var s := Sums(x, Complement(before));
    NumSums(x, Complement(before));
    NumComplement(before);
    Pow8();
    assert s[..0] == [] && xr[..0] == [] && Num([]) == 0 by { NumEmpty(); }
    var carry: u64 := 1;
    var i := 0;
    while i < 8
      invariant 0 <= i <= 8 && carry <= 1
      invariant xr[8..] == rest
      invariant forall j :: i <= j < 8 ==> xr[j] == before[j]
      invariant Num(xr[..i]) + Pow(B32, i) * carry == 1 + Num(s[..i])
    {
      ghost var out := xr[..i];
      ChainStep(out, carry, s, i, 1);
      carry := carry + x[i] + (0xffffffff - xr[i]);
      ghost var digit := carry % B32;
      xr[i] := carry % B32;
      assert xr[..i + 1] == out + [digit];
      carry := carry / B32;
      i := i + 1;
    }
    assert s[..8] == s;
    WordsRange(xr[..8]);
    DivModUnique(Num(x) - Num(before), carry - 1, Num(xr[..8]), R);
  }

  /** t := t + x, all 16 words; the last carry is dropped. */
  method AddInto(t: array<u32>, x: seq<u32>)
    requires t.Length == 16 && |x| == 16 && Num(t[..]) + Num(x) < R * R
    modifies t
    ensures Num(t[..]) == Num(old(t[..])) + Num(x)
  {
    hide Num;
    ghost var before := t[..];
    ghost var s := Sums(before, x);
    NumSums(before, x);
    assert s[..0] == [] && t[..0] == [] && Num([]) == 0 by { NumEmpty(); }
    var carry: u64 := 0;
    var i := 0;
    while i < 16
      invariant 0 <= i <= 16 && carry <= 1
      invariant forall j :: i <= j < 16 ==> t[j] == before[j]
      invariant Num(t[..i]) + Pow(B32, i) * carry == Num(s[..i])
    {
      ghost var out := t[..i];
      ChainStep(out, carry, s, i, 0);
      carry := carry + t[i] + x[i];
      ghost var digit := carry % B32;
      t[i] := carry % B32;
      assert t[..i + 1] == out + [digit];
      carry := carry / B32;
      i := i + 1;
    }
    assert s[..16] == s && t[..16] == t[..];
    Pow8();
    ValBoundNum(t[..]);
  }

  lemma ValBoundNum(w: seq<u32>)
    ensures 0 <= Num(w) < Pow(B32, |w|)
  {
    ValBound(B32, w);
  }

  // ------------------------------------------------------- Barrett reduction

  /** The quotient by the reciprocal is at most one too small. */
  lemma Barrett(x: int, q: int)
    requires 0 <= x < R * R && q == RECIPROCAL * x / (R * R)
    ensures 0 <= x - q * L < 2 * L
  {
    ConstantRelations();
  }

  /** reduced := x mod L for every 512-bit x. */
  method ModL(x: seq<u32>) returns (reduced: seq<u32>)
    requires |x| == 16
    ensures |reduced| == 8 && Num(reduced) == Num(x) % L
  {
    hide Num;
    var xr := new u32[25](i => 0);
    assert xr[..16] == Zeros(16);
    NumZeros(16);
    Multiply(xr, R_WORDS, x);
    RWords();
    ghost var product := xr[..];
    assert xr[..25] == product;
    ghost var q := Num(product[16..]);
    QuotientWords(product, Num(x));
    ValBoundNum(x);
    Pow8();
    Barrett(Num(x), q);
    var i := 0;
    while i < 8
      invariant 0 <= i <= 8 && xr[8..] == product[8..] && forall j :: 0 <= j < i ==> xr[j] == 0
    {
      xr[i] := 0;
      i := i + 1;
    }
    assert xr[..8] == Zeros(8) && xr[16..24] == product[16..24];
    NumZeros(8);
    MultiplyLow(xr, xr[16..24], L_WORDS);
    LWords();
    ghost var y := Num(xr[..8]);
    SubtractFrom(xr, x[..8]);
    WordsRange(xr[..8]);
    SubtractExact(x, product, q, y);
    assert xr[0..8] == xr[..8];
    RemoveL(xr, xr, 0);
    DivModUnique(Num(x), if Num(x) - q * L >= L then q + 1 else q, Num(xr[..8]), L);
    reduced := xr[..8];
  }

  lemma {:induction false} NumZeros(n: nat)
    ensures Num(Zeros(n)) == 0
  {
    if n > 0 {
      NumZeros(n - 1);
      assert Zeros(n)[1..] == Zeros(n - 1);
    }
  }

  lemma QuotientWords(product: seq<u32>, x: int)
    requires |product| == 25 && Num(product) == RECIPROCAL * x
    ensures Num(product[16..]) == RECIPROCAL * x / (R * R)
  {
    hide Num;
    Pow8();
    NumSplit(product, 16);
    ValBoundNum(product[..16]);
    DivModUnique(Num(product), Num(product[16..]), Num(product[..16]), R * R);
  }

  /** Only the low 256 bits of q * L are needed, since the difference is below 2 L. */
  lemma SubtractExact(x: seq<u32>, product: seq<u32>, q: int, y: int)
    requires |x| == 16 && |product| == 25 && q == Num(product[16..]) && 0 <= Num(x) - q * L < 2 * L
    requires Pow(B32, 8) > 0 && Cong(y, Num(product[16..24]) * L + 0, Pow(B32, 8))
    ensures (Num(x[..8]) - y) % R == Num(x) - q * L
  {
    hide Num;
    Pow8();
    NumSplit(x, 8);
    NumSplit(product[16..], 8);
    assert product[16..][..8] == product[16..24];
    var k := CongWitness(y, Num(product[16..24]) * L, R);
    var top := Num(product[16..][8..]);
    var e := Num(x) - q * L;
    assert q == Num(product[16..24]) + R * top;
    DivModUnique(Num(x[..8]) - y, top * L - Num(x[8..]) - k, e, R);
  }

  // ---------------------------------------------------- Montgomery reduction

  /** For x < L * 2^256 the result is x / 2^256 modulo L. */
  method Redc(u: array<u32>, x: seq<u32>)
    requires u.Length == 8 && |x| == 16 && Num(x) < L * R
    modifies u
    ensures Num(u[..]) == (Num(x) * R_INVERSE) % L
  {
    hide Num;
    ValBoundNum(x);
    var s := new u32[8](i => 0);
    var t := new u32[16](i => 0);
    assert s[..8] == Zeros(8) && t[..8] == Zeros(8);
    NumZeros(8);
    MultiplyLow(s, x[..8], K_WORDS);
    KWords();
    ghost var sv := Num(s[..8]);
    WordsRange(s[..8]);
    assert s[..] == s[..8];
    Multiply(t, s[..], L_WORDS);
    LWords();
    assert t[..16] == t[..];
    AddInto(t, x);
    ghost var h := Num(t[8..16]);
    RedcExact(x, sv, t[..], h);
    RemoveL(u, t, 8);
    assert u[..8] == u[..];
    RedcResidue(Num(x), sv, h, Num(u[..]));
  }

  /** x + s L is a multiple of 2^256 and its upper half is below 2 L. */
  lemma RedcExact(x: seq<u32>, s: int, t: seq<u32>, h: int)
    requires |x| == 16 && |t| == 16 && 0 <= Num(x) < L * R && 0 <= s < R && h == Num(t[8..16])
    requires Pow(B32, 8) > 0 && Cong(s, Num(x[..8]) * K + 0, Pow(B32, 8))
    requires Num(t) == s * L + Num(x)
    ensures h * R == s * L + Num(x) && 0 <= h < 2 * L
  {
    hide Num;
    Pow8();
    NumSplit(x, 8);
    NumSplit(t, 8);
    assert t[8..16] == t[8..];
    WordsRange(t[..8]);
    ConstantRelations();
    var k := CongWitness(s, Num(x[..8]) * K, R);
    var low := Num(t[..8]);
    assert low + R * h == Num(x[..8]) * (K * L + 1) + (k * L + Num(x[8..])) * R;
    assert low == (Num(x[..8]) * R_INVERSE + k * L + Num(x[8..]) - h) * R;
    DivModUnique(low, Num(x[..8]) * R_INVERSE + k * L + Num(x[8..]) - h, 0, R);
    DivModUnique(low, 0, low, R);
  }

  lemma RedcResidue(x: int, s: int, h: int, u: int)
    requires h * R == s * L + x && 0 <= h < 2 * L && u == if h >= L then h - L else h
    ensures u == (x * R_INVERSE) % L
  {
    ConstantRelations();
    assert x * R_INVERSE == h * (R * R_INVERSE) - s * R_INVERSE * L;
    DivModUnique(x * R_INVERSE, h * K - s * R_INVERSE + (if h >= L then 1 else 0), u, L);
  }

  /** That residue is the only u below L with u * 2^256 congruent to x. */
  lemma RedcUnique(x: int, u: int)
    requires 0 <= u < L
    ensures Cong(u * R, x, L) <==> u == (x * R_INVERSE) % L
  {
    ConstantRelations();
    if Cong(u * R, x, L) {
      var k := CongWitness(u * R, x, L);
      DivModUnique(x * R_INVERSE, u * K - k * R_INVERSE, u, L);
    }
    if u == (x * R_INVERSE) % L {
      var q := x * R_INVERSE / L;
      assert x * R_INVERSE == L * q + u;
      CongBy(u * R, x, x * K - q * R, L);
    }
  }
}
