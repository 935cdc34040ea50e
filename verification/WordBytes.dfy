/** Little-endian loads and stores of whole words. */
module WordBytes {
  import opened Words

  /** load_le of each group of w bytes. */
  function Load(s: seq<byte>, w: nat): (r: seq<int>)
    requires w > 0 && |s| % w == 0
    decreases |s|
  {
    if s == [] then [] else
      FirstWord(|s|, w);
      [LE(s[..w])] + Load(s[w..], w)
  }

  lemma FirstWord(n: nat, w: nat)
    requires w > 0 && n > 0 && n % w == 0
    ensures n >= w && (n - w) % w == 0 && n / w == (n - w) / w + 1
  {
    if n < w { DivModUnique(n, 0, n, w); }
    ModPlusMultiple(n, -1, w);
  }

  /** store_le of each word. */
  function Store(words: seq<int>, w: nat): (s: seq<byte>)
    decreases |words|
  {
    if words == [] then [] else ToLE(words[0], w) + Store(words[1..], w)
  }

  lemma {:induction false} LoadLength(s: seq<byte>, w: nat)
    requires w > 0 && |s| % w == 0
    ensures |Load(s, w)| == |s| / w && |Load(s, w)| * w == |s| && AreDigits(Pow(256, w), Load(s, w))
    decreases |s|
  {
    hide Pow;
    if s != [] {
      FirstWord(|s|, w);
      LoadLength(s[w..], w);
      ValBound(256, s[..w]);
    }
  }

  lemma {:induction false} LoadAt(s: seq<byte>, w: nat, i: nat)
    requires w > 0 && |s| % w == 0 && i < |Load(s, w)|
    ensures 0 <= w * i <= w * i + w <= |s| && Load(s, w)[i] == LE(s[w * i..w * i + w])
    decreases i
  {
    hide Pow, Val;
    FirstWord(|s|, w);
    if i == 0 {
      assert w * i == 0;
    } else {
      LoadAt(s[w..], w, i - 1);
      assert w * i == w + w * (i - 1);
      assert s[w..][w * (i - 1)..w * (i - 1) + w] == s[w * i..w * i + w];
    }
  }

  /** Loading whole words does not change the number. */
  lemma {:induction false} LoadValue(s: seq<byte>, w: nat)
    requires w > 0 && |s| % w == 0
    ensures Val(Pow(256, w), Load(s, w)) == LE(s)
    decreases |s|
  {
    hide Pow;
    if s != [] {
      FirstWord(|s|, w);
      LoadValue(s[w..], w);
      ValAppend(256, s[..w], s[w..]);
      assert s[..w] + s[w..] == s;
      assert Load(s, w)[1..] == Load(s[w..], w);
    }
  }

  lemma {:induction false} StoreLength(words: seq<int>, w: nat)
    ensures |Store(words, w)| == |words| * w
    decreases |words|
  {
    if words != [] {
      StoreLength(words[1..], w);
      assert |words| * w == w + (|words| - 1) * w;
    }
  }

  lemma {:induction false} StoreValue(words: seq<int>, w: nat)
    requires AreDigits(Pow(256, w), words)
    ensures LE(Store(words, w)) == Val(Pow(256, w), words)
    decreases |words|
  {
    hide Pow;
    if words != [] {
      StoreValue(words[1..], w);
      ValAppend(256, ToLE(words[0], w), Store(words[1..], w));
      ValOfDigits(256, words[0], w);
      DivModUnique(words[0], 0, words[0], Pow(256, w));
    }
  }

  lemma {:induction false} LoadStore(words: seq<int>, w: nat)
    requires w > 0 && AreDigits(Pow(256, w), words)
    ensures |Store(words, w)| % w == 0 && Load(Store(words, w), w) == words
    decreases |words|
  {
    hide Pow;
    StoreLength(words, w);
    DivModUnique(|words| * w, |words|, 0, w);
    if words != [] {
      LoadStore(words[1..], w);
      var s := Store(words, w);
      assert s[..w] == ToLE(words[0], w) && s[w..] == Store(words[1..], w);
      ValOfDigits(256, words[0], w);
      DivModUnique(words[0], 0, words[0], Pow(256, w));
    }
  }

  lemma {:induction false} StoreLoad(s: seq<byte>, w: nat)
    requires w > 0 && |s| % w == 0
    ensures Store(Load(s, w), w) == s
    decreases |s|
  {
    hide Val, Digits;
    if s != [] {
      FirstWord(|s|, w);
      StoreLoad(s[w..], w);
      DigitsOfVal(256, s[..w]);
      assert Load(s, w)[1..] == Load(s[w..], w);
    }
  }

  lemma {:induction false} StoreAppend(a: seq<int>, b: seq<int>, w: nat)
    ensures Store(a + b, w) == Store(a, w) + Store(b, w)
    decreases |a|
  {
    if a == [] {
      assert a + b == b;
    } else {
      assert (a + b)[1..] == a[1..] + b;
      StoreAppend(a[1..], b, w);
    }
  }

  lemma SumOfMultiples(m: int, n: int, w: nat)
    requires w > 0 && m % w == 0 && n % w == 0
    ensures (m + n) % w == 0
  {
    ModPlusMultiple(m, n / w, w);
  }

  lemma {:induction false} LoadAppend(a: seq<byte>, b: seq<byte>, w: nat)
    requires w > 0 && |a| % w == 0 && |b| % w == 0
    ensures |a + b| % w == 0 && Load(a + b, w) == Load(a, w) + Load(b, w)
    decreases |a|
  {
    hide Val;
    SumOfMultiples(|a|, |b|, w);
    if a == [] {
      assert a + b == b;
    } else {
      FirstWord(|a|, w);
      LoadAppend(a[w..], b, w);
      FirstWord(|a + b|, w);
      assert (a + b)[..w] == a[..w];
      assert (a + b)[w..] == a[w..] + b;
    }
  }

  /** Bit i of a number, found in byte i / 8. */
  lemma BitOfBytes(s: seq<byte>, i: nat)
    requires i / 8 < |s|
    ensures Pow(2, i) > 0 && Pow(2, i % 8) > 0 && LE(s) / Pow(2, i) % 2 == s[i / 8] / Pow(2, i % 8) % 2
  {
    hide Pow, Val;
    var q, r := i / 8, i % 8;
    PowPositive(2, i);
    PowPositive(2, r);
    PowPositive(2, 8 - r - 1);
    PowPositive(256, q);
    assert Pow(2, 8) == 256 by { Bits256(); }
    PowMul(2, 8, q);
    PowAdd(2, 8 * q, r);
    ValDigit(256, s, q);
    var x := LE(s) / Pow(256, q);
    DivDiv(LE(s), Pow(256, q), Pow(2, r));
    PowAdd(2, r, 8 - r);
    assert Pow(2, 8 - r) == 2 * Pow(2, 8 - r - 1) by { PowStep(2, 8 - r); }
    LowBits(x, Pow(2, r), Pow(2, 8 - r - 1));
  }


  lemma Bits256()
    ensures Pow(2, 8) == 256
  {
    assert Pow(2, 4) == 16;
    PowAdd(2, 4, 4);
  }

  lemma PowStep(b: int, e: nat)
    requires e > 0
    ensures Pow(b, e) == b * Pow(b, e - 1)
  {}

  /** Bits below a * 2 * b survive reduction modulo it. */
  lemma LowBits(x: int, a: int, b: int)
    requires a > 0 && b > 0
    ensures a * (2 * b) > 0 && x / a % 2 == x % (a * (2 * b)) / a % 2
  {
    DivDiv(x, a, 2 * b);
    var y := x / a;
    var t := y % (2 * b);
    assert x % (a * (2 * b)) == x % a + a * t;
    DivModUnique(x % (a * (2 * b)), t, x % a, a);
    DivDiv(y, 2, b);
    assert t == y % 2 + 2 * (y / 2 % b);
    ModPlusMultiple(y % 2, y / 2 % b, 2);
  }

  lemma StoreEmpty()
    ensures Store([], 4) == []
  {}

  lemma StoreSnoc(words: seq<int>, k: nat)
    requires k < |words|
    ensures Store(words[..k + 1], 4) == Store(words[..k], 4) + ToLE(words[k], 4)
  {
    assert words[..k + 1] == words[..k] + [words[k]];
    StoreAppend(words[..k], [words[k]], 4);
  }

  lemma StoreFour(row: seq<u32>)
    requires |row| == 4
    ensures Store(row, 4) == ToLE(row[0], 4) + ToLE(row[1], 4) + ToLE(row[2], 4) + ToLE(row[3], 4)
  {
    hide Store, Digits;
    StoreEmpty();
    StoreSnoc(row, 0);
    StoreSnoc(row, 1);
    StoreSnoc(row, 2);
    StoreSnoc(row, 3);
    assert row[..0] == [] && row[..4] == row;
  }

  /** store32_le at one position. */
  method Store32(s: array<byte>, at: nat, w: u32)
    requires at + 4 <= s.Length
    modifies s
    ensures s[..at + 4] == old(s[..at]) + ToLE(w, 4) && s[at + 4..] == old(s[at + 4..])
    ensures forall i :: 0 <= i < s.Length && !(at <= i < at + 4) ==> s[i] == old(s[i])
  {
    hide Digits;
    var b := ToLE(w, 4);
    s[at], s[at + 1], s[at + 2], s[at + 3] := b[0], b[1], b[2], b[3];
  }
}
