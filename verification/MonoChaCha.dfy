/** ChaCha20 as transpiled from Monocypher: scalar rounds, a 64-bit block counter
    in words 12 and 13, an 8-byte nonce. */
module MonoChaCha {
  import opened Words
  import opened Bits
  import opened WordBytes
  import opened ChaCha20
  import opened ChaChaStream

  type ShortNonce = n: seq<byte> | |n| == 8 witness seq(8, i => 0)

  /** Twenty rounds on sixteen local variables. */
  method ScalarRounds(in_: State) returns (out: State)
    ensures out == Rounds(in_, 10)
  {
    hide ColumnRound, DiagonalRound;
    out := in_;
    var i := 0;
    while i < 10
      invariant 0 <= i <= 10 && out == Rounds(in_, i)
    {
      out := ScalarDoubleRound(out);
      i := i + 1;
    }
  }

  method ScalarDoubleRound(t: State) returns (u: State)
    ensures u == DiagonalRound(ColumnRound(t))
  {
    hide Quarter, ColumnRound, DiagonalRound;
    var c0 := Quarter(Quad(t[0], t[4], t[8], t[12]));
    var c1 := Quarter(Quad(t[1], t[5], t[9], t[13]));
    var c2 := Quarter(Quad(t[2], t[6], t[10], t[14]));
    var c3 := Quarter(Quad(t[3], t[7], t[11], t[15]));
    ColumnsOf(t, c0, c1, c2, c3);
    var d0 := Quarter(Quad(c0.a, c1.b, c2.c, c3.d));
    var d1 := Quarter(Quad(c1.a, c2.b, c3.c, c0.d));
    var d2 := Quarter(Quad(c2.a, c3.b, c0.c, c1.d));
    var d3 := Quarter(Quad(c3.a, c0.b, c1.c, c2.d));
    DiagonalsOf(ColumnRound(t), d0, d1, d2, d3);
    u := [d0.a, d1.a, d2.a, d3.a, d3.b, d0.b, d1.b, d2.b, d2.c, d3.c, d0.c, d1.c, d1.d, d2.d, d3.d, d0.d];
  }

  lemma ColumnsOf(s: State, c0: Quad, c1: Quad, c2: Quad, c3: Quad)
    requires c0 == Quarter(Quad(s[0], s[4], s[8], s[12])) && c1 == Quarter(Quad(s[1], s[5], s[9], s[13]))
    requires c2 == Quarter(Quad(s[2], s[6], s[10], s[14])) && c3 == Quarter(Quad(s[3], s[7], s[11], s[15]))
    ensures ColumnRound(s)
      == [c0.a, c1.a, c2.a, c3.a, c0.b, c1.b, c2.b, c3.b, c0.c, c1.c, c2.c, c3.c, c0.d, c1.d, c2.d, c3.d]
  {
    hide Quarter;
  }

  lemma DiagonalsOf(s: State, d0: Quad, d1: Quad, d2: Quad, d3: Quad)
    requires d0 == Quarter(Quad(s[0], s[5], s[10], s[15])) && d1 == Quarter(Quad(s[1], s[6], s[11], s[12]))
    requires d2 == Quarter(Quad(s[2], s[7], s[8], s[13])) && d3 == Quarter(Quad(s[3], s[4], s[9], s[14]))
    ensures DiagonalRound(s)
      == [d0.a, d1.a, d2.a, d3.a, d3.b, d0.b, d1.b, d2.b, d2.c, d3.c, d0.c, d1.c, d1.d, d2.d, d3.d, d0.d]
  {
    hide Quarter;
  }

  // ----------------------------------------------------------- specification

  /** Counter in words 12 and 13, nonce in 14 and 15. */
  function Initial64(key: Key, ctr: u64, nonce: ShortNonce): State {
    CONSTANTS + Load32(key) + [LowWord(ctr), HighWord(ctr)] + Load32(nonce)
  }

  function LowWord(x: u64): u32 { x % B32 }

  function HighWord(x: u64): (h: u32)
    ensures x == LowWord(x) + B32 * h
  {
    x / B32
  }

  function Block64(key: Key, ctr: u64, nonce: ShortNonce): (b: seq<byte>)
    ensures |b| == 64
  {
    var s := Initial64(key, ctr, nonce);
    Serialize(AddStates(Rounds(s, 10), s))
  }

  function KeyByte64(key: Key, ctr: u64, nonce: ShortNonce, i: nat): byte {
    Block64(key, (ctr + i / 64) % B64, nonce)[i % 64]
  }

  function Encrypt64(key: Key, ctr: u64, nonce: ShortNonce, text: seq<byte>): (c: seq<byte>)
    ensures |c| == |text|
  {
    seq(|text|, i requires 0 <= i < |text| => XorByte(text[i], KeyByte64(key, ctr, nonce, i)))
  }

  lemma Encrypt64Twice(key: Key, ctr: u64, nonce: ShortNonce, text: seq<byte>)
    ensures Encrypt64(key, ctr, nonce, Encrypt64(key, ctr, nonce, text)) == text
  {
    hide KeyByte64;
    var twice := Encrypt64(key, ctr, nonce, Encrypt64(key, ctr, nonce, text));
    forall i | 0 <= i < |text| ensures twice[i] == text[i] {
      XorByteTwice(text[i], KeyByte64(key, ctr, nonce, i));
    }
  }

  function Advance64(ctr: u64, n: nat): u64 { (ctr + (n + 63) / 64) % B64 }

  /** The IETF nonce that gives the same block: the high counter word in front. */
  function LongNonce(ctr: u64, nonce: ShortNonce): Nonce { ToLE(HighWord(ctr), 4) + nonce }

  lemma SameBlock(key: Key, ctr: u64, nonce: ShortNonce)
    ensures Block64(key, ctr, nonce) == Block(key, LowWord(ctr), LongNonce(ctr, nonce))
  {
    hide Load, Rounds, Digits, Serialize, AddStates;
    var h := HighWord(ctr);
    StoreLoadWord(h);
    LoadAppend(ToLE(h, 4), nonce, 4);
    assert Load32(LongNonce(ctr, nonce)) == [h] + Load32(nonce);
    assert Initial64(key, ctr, nonce) == Initial(key, LowWord(ctr), LongNonce(ctr, nonce));
  }

  lemma SameHigh(a: u64, b: u64, nonce: ShortNonce)
    requires HighWord(a) == HighWord(b)
    ensures LongNonce(a, nonce) == LongNonce(b, nonce)
  {}

  lemma StoreLoadWord(x: u32)
    ensures Load(ToLE(x, 4), 4) == [x]
  {
    Four();
    ValOfDigits(256, x, 4);
    DivModUnique(x, 0, x, B32);
    assert ToLE(x, 4)[4..] == [] && ToLE(x, 4)[..4] == ToLE(x, 4);
  }

  /** As long as the low counter word does not wrap, this is RFC 8439 encryption. */
  lemma SameStream(key: Key, ctr: u64, nonce: ShortNonce, text: seq<byte>)
    requires LowWord(ctr) + (|text| + 63) / 64 <= B32
    ensures Encrypt64(key, ctr, nonce, text) == Encrypt(key, LowWord(ctr), LongNonce(ctr, nonce), text)
  {
    hide Block, Block64, XorByte, LongNonce;
    forall i | 0 <= i < |text|
      ensures KeyByte64(key, ctr, nonce, i) == KeyByte(key, LowWord(ctr), LongNonce(ctr, nonce), i)
    {
      var c := LowWord(ctr) + i / 64;
      assert i / 64 < (|text| + 63) / 64;
      DivModUnique(c, 0, c, B32);
      DivModUnique(ctr + i / 64, 0, ctr + i / 64, B64);
      DivModUnique(ctr + i / 64, HighWord(ctr), c, B32);
      SameBlock(key, ctr + i / 64, nonce);
      SameHigh(ctr + i / 64, ctr, nonce);
    }
  }

  lemma Encrypt64Append(key: Key, ctr: u64, nonce: ShortNonce, a: seq<byte>, b: seq<byte>)
    requires |a| % 64 == 0
    ensures Encrypt64(key, ctr, nonce, a + b) == Encrypt64(key, ctr, nonce, a) + Encrypt64(key, Advance64(ctr, |a|), nonce, b)
  {
    hide Block64, XorByte;
    forall i | 0 <= i < |b|
      ensures KeyByte64(key, Advance64(ctr, |a|), nonce, i) == KeyByte64(key, ctr, nonce, |a| + i)
    {
      assert (|a| + 63) / 64 == |a| / 64 && (|a| + i) / 64 == |a| / 64 + i / 64 && (|a| + i) % 64 == i % 64;
      ModPlusMultiple(Advance64(ctr, |a|) + i / 64, (ctr + |a| / 64) / B64, B64);
    }
  }

  lemma Encrypt64Block(key: Key, ctr: u64, nonce: ShortNonce, x: seq<byte>)
    requires |x| <= 64
    ensures Encrypt64(key, ctr, nonce, x) == XorBytes(x, Block64(key, ctr, nonce)[..|x|])
  {
    hide Block64, XorByte;
    forall i | 0 <= i < |x| ensures KeyByte64(key, ctr, nonce, i) == Block64(key, ctr, nonce)[i] {
      DivModUnique(ctr, 0, ctr, B64);
      DivModUnique(i, 0, i, 64);
    }
  }

  // -------------------------------------------------------- words and bytes

  /** XOR of loaded words is the XOR of their bytes. */
  lemma {:induction false} XorOfNumbers(a: seq<byte>, b: seq<byte>)
    requires |a| == |b|
    ensures LE(a) >= 0 && LE(b) >= 0 && Xor(LE(a), LE(b)) == LE(XorBytes(a, b))
    decreases |a|
  {
    ValBound(256, a);
    ValBound(256, b);
    if a == [] {
      assert XorBytes(a, b) == [];
      BitwiseZero(XorBit);
    } else {
      var x, y := a[1..], b[1..];
      XorOfNumbers(x, y);
      assert XorBytes(a, b)[1..] == XorBytes(x, y);
      XorLowByte(a[0], b[0], LE(x), LE(y));
    }
  }

  lemma XorLowByte(a: byte, b: byte, x: nat, y: nat)
    ensures Xor(a + 256 * x, b + 256 * y) == XorByte(a, b) + 256 * Xor(x, y)
  {
    hide Bitwise;
    Pow2Widths();
    SplitAt(XorBit, 8, 256, a, b, x, y, 256 * x, 256 * y);
  }

  /** Storing p XOR a loaded word XORs the four bytes. */
  lemma XorWord(p: u32, x: seq<byte>)
    requires |x| == 4
    ensures 0 <= LE(x) < B32 && ToLE(Xor32(p, LE(x)), 4) == XorBytes(x, ToLE(p, 4))
  {
    hide Xor, Val, Digits, XorBytes;
    Four();
    ValBound(256, x);
    ValOfDigits(256, p, 4);
    DivModUnique(p, 0, p, B32);
    XorOfNumbers(x, ToLE(p, 4));
    XorComm(p, LE(x));
    DigitsOfVal(256, XorBytes(x, ToLE(p, 4)));
  }

  /** The plain text; a null pointer stands for zeros. */
  function TextOf(plain: array?<byte>, n: nat): (t: seq<byte>)
    requires plain != null ==> n <= plain.Length
    reads plain
    ensures |t| == n
  {
    if plain == null then seq(n, i => 0) else plain[..n]
  }

  /** Sixteen words of key stream XORed with the text, or stored as they are. */
  method XorWords(cipher: array<byte>, plain: array?<byte>, at: nat, words: State)
    requires at + 64 <= cipher.Length && (plain != null ==> at + 64 <= plain.Length)
    modifies cipher
    ensures cipher[..] == Splice(old(cipher[..]), at,
        XorBytes(old(TextOf(plain, at + 64))[at..], Serialize(words)))
  {
    hide XorBytes, Splice, Digits, Val, Xor, Store;
    ghost var before, text := cipher[..], TextOf(plain, at + 64)[at..];
    ghost var ks := Serialize(words);
    var j := 0;
    StartWords(before, at, text, ks);
    StoreEmpty();
    assert words[..0] == [];
    while j < 16
      invariant 0 <= j <= 16 && cipher.Length == |before|
      invariant plain != null && plain != cipher ==> plain[..] == old(plain[..])
      invariant |Store(words[..j], 4)| == 4 * j
      invariant cipher[..] == Splice(before, at, XorBytes(text[..4 * j], Store(words[..j], 4)))
    {
      StoreSnoc(words, j);
      var p := words[j];
      ghost var x := text[4 * j..4 * j + 4];
      ghost var done := XorBytes(text[..4 * j], Store(words[..j], 4));
      if plain != null {
        SourceWord(before, at, done, text, plain, cipher, j, old(plain[..]));
      } else {
        ZeroText(at, text, j);
      }
      StoreXored(cipher, plain, at + 4 * j, p, x);
      SpliceTwice(before, at, done, XorBytes(x, ToLE(p, 4)));
      XorBytesAppend(text[..4 * j], x, Store(words[..j], 4), ToLE(p, 4));
      assert text[..4 * (j + 1)] == text[..4 * j] + x;
      j := j + 1;
    }
    assert words[..16] == words && text[..64] == text;
  }

  /** One word of key stream, XORed with the text or stored as it is. */
  method StoreXored(cipher: array<byte>, plain: array?<byte>, at: nat, p: u32, ghost x: seq<byte>)
    requires at + 4 <= cipher.Length && (plain != null ==> at + 4 <= plain.Length)
    requires x == if plain != null then plain[at..at + 4] else seq(4, i => 0)
    modifies cipher
    ensures cipher[..] == Splice(old(cipher[..]), at, XorBytes(x, ToLE(p, 4)))
  {
    hide XorBytes, Splice, Digits, Val, Xor;
    ghost var before := cipher[..];
    XorWord(p, x);
    if plain != null {
      Store32(cipher, at, Xor32(p, LE(plain[at..at + 4])));
    } else {
      XorZeros(ToLE(p, 4));
      Store32(cipher, at, p);
    }
    StoredAsSplice(before, cipher[..], at, XorBytes(x, ToLE(p, 4)));
  }

  lemma StartWords(before: seq<byte>, at: nat, text: seq<byte>, ks: seq<byte>)
    requires at <= |before|
    ensures XorBytes(text[..0], []) == [] && Splice(before, at, []) == before
  {
    SpliceNothing(before, at);
  }

  /** Without a plain text every word of it is zero. */
  lemma ZeroText(at: nat, text: seq<byte>, j: nat)
    requires j < 16 && text == TextOf(null, at + 64)[at..]
    ensures text[4 * j..4 * j + 4] == seq(4, i => 0)
  {}

  lemma StoredAsSplice(d: seq<byte>, e: seq<byte>, at: nat, w: seq<byte>)
    requires at + |w| <= |d| && |d| == |e| && e[..at + |w|] == d[..at] + w && e[at + |w|..] == d[at + |w|..]
    ensures e == Splice(d, at, w)
  {
    assert e == e[..at + |w|] + e[at + |w|..];
  }

  /** In place or not, the next word of the text has not been overwritten. */
  lemma SourceWord(before: seq<byte>, at: nat, done: seq<byte>, text: seq<byte>, plain: array<byte>, cipher: array<byte>,
      j: nat, original: seq<byte>)
    requires j < 16 && at + 64 <= plain.Length && at + 64 <= |before| && |done| == 4 * j && |text| == 64
    requires |original| == plain.Length && text == original[..at + 64][at..]
    requires plain == cipher ==> before == original && cipher[..] == Splice(before, at, done)
    requires plain != cipher ==> plain[..] == original
    ensures plain[at + 4 * j..at + 4 * j + 4] == text[4 * j..4 * j + 4]
  {
    SubSlice(original, at, 64, 4 * j, 4);
    assert original[..at + 64][at..] == original[at..at + 64];
    if plain == cipher {
      SpliceAbove(before, at, done, 4);
      assert cipher[..][at + 4 * j..at + 4 * j + 4] == plain[at + 4 * j..at + 4 * j + 4];
    } else {
      assert plain[..][at + 4 * j..at + 4 * j + 4] == plain[at + 4 * j..at + 4 * j + 4];
    }
  }

  ghost predicate Progress64(key: Key, ctr: u64, nonce: ShortNonce, text: seq<byte>, before: seq<byte>, after: seq<byte>, offset: nat)
  {
    && offset <= |text| <= |before|
    && after == Splice(before, 0, Encrypt64(key, ctr, nonce, text[..offset]))
  }

  /** One more block, or the incomplete one. */
  lemma Progress64Extends(key: Key, ctr: u64, nonce: ShortNonce, text: seq<byte>, before: seq<byte>, middle: seq<byte>,
      after: seq<byte>, offset: nat, b: seq<byte>)
    requires Progress64(key, ctr, nonce, text, before, middle, offset) && offset % 64 == 0 && |b| <= 64
    requires offset + |b| <= |text| && |middle| == |before| && b == text[offset..offset + |b|]
    requires after == Splice(middle, offset, XorBytes(b, Block64(key, Advance64(ctr, offset), nonce)[..|b|]))
    ensures Progress64(key, ctr, nonce, text, before, after, offset + |b|)
  {
    hide Splice, Encrypt64, Advance64, XorBytes, Block64;
    var a := text[..offset];
    assert text[..offset + |b|] == a + b;
    Encrypt64Block(key, Advance64(ctr, offset), nonce, b);
    Encrypt64Append(key, ctr, nonce, a, b);
    SpliceTwice(before, 0, Encrypt64(key, ctr, nonce, a), Encrypt64(key, Advance64(ctr, offset), nonce, b));
  }

  /** What the text holds at `offset`, read after the bytes before it were overwritten. */
  lemma RestOfText(key: Key, ctr: u64, nonce: ShortNonce, before: seq<byte>, plain: array?<byte>, cipher: array<byte>,
      text: seq<byte>, offset: nat, n: nat)
    requires Progress64(key, ctr, nonce, text, before, cipher[..], offset) && offset + n <= |text|
    requires plain != null ==> |text| <= plain.Length
    requires if plain == null then text == seq(|text|, i => 0)
      else if plain == cipher then text == before[..|text|] else text == plain[..|text|]
    ensures TextOf(plain, offset + n)[offset..] == text[offset..offset + n]
  {
    hide Encrypt64, Splice;
    if plain == null {
      assert seq(offset + n, i => 0 as byte)[offset..] == text[offset..offset + n];
    } else if plain == cipher {
      SpliceAbove(before, 0, Encrypt64(key, ctr, nonce, text[..offset]), n);
      SubSlice(before, 0, |text|, offset, n);
      assert cipher[..][offset..offset + n] == plain[..offset + n][offset..];
      assert before[0..|text|] == before[..|text|];
    } else {
      SubSlice(plain[..], 0, |text|, offset, n);
      assert plain[..][0..|text|] == plain[..|text|];
      assert plain[..][offset..offset + n] == plain[..offset + n][offset..];
    }
  }

  /** The 64-bit counter as kept in words 12 and 13. */
  lemma CounterWords(key: Key, ctr: u64, nonce: ShortNonce, offset: nat)
    requires offset % 64 == 0
    ensures var s, c := Initial64(key, Advance64(ctr, offset), nonce), Advance64(ctr, offset);
      var low := Add32(s[12], 1);
      Initial64(key, Advance64(ctr, offset + 64), nonce)
        == s[12 := low][13 := if low == 0 then Add32(s[13], 1) else s[13]]
  {
    hide Load32;
    var c, d := Advance64(ctr, offset), Advance64(ctr, offset + 64);
    assert (offset + 64 + 63) / 64 == (offset + 63) / 64 + 1;
    ModPlusMultiple(c + 1, (ctr + (offset + 63) / 64) / B64, B64);
    assert d == (c + 1) % B64;
    NextCounter(c);
  }

  lemma NextCounter(c: u64)
    ensures var d: u64 := (c + 1) % B64; var low := Add32(LowWord(c), 1);
      && LowWord(d) == low && HighWord(d) == if low == 0 then Add32(HighWord(c), 1) else HighWord(c)
  {
    var l, h := LowWord(c), HighWord(c);
    if l + 1 < B32 {
      DivModUnique(c + 1, h, l + 1, B32);
    } else if h + 1 < B32 {
      DivModUnique(c + 1, h + 1, 0, B32);
    }
  }

  /** Blocks of the text, then the incomplete block, then the counter that follows. */
  method ChaCha20Djb(cipher: array<byte>, plain: array?<byte>, n: nat, key: Key, nonce: ShortNonce, ctr: u64) returns (next: u64)
    requires n <= cipher.Length && (plain != null ==> n <= plain.Length)
    modifies cipher
    ensures cipher[..] == Splice(old(cipher[..]), 0, Encrypt64(key, ctr, nonce, old(TextOf(plain, n))))
    ensures next == Advance64(ctr, n)
  {
    hide Splice, Encrypt64, Advance64, XorBytes, Block64, Initial64, Serialize, AddStates, Rounds, Progress64, TextOf;
    ghost var text, before := TextOf(plain, n), cipher[..];
    TextIs(plain, n);
    var input := Initial64(key, ctr, nonce);
    StartDjb(key, ctr, nonce, text, before);
    var i := 0;
    while i < n / 64
      invariant 0 <= i <= n / 64 && cipher.Length == |before|
      invariant plain != null && plain != cipher ==> plain[..n] == text
      invariant input == Initial64(key, Advance64(ctr, 64 * i), nonce)
      invariant Progress64(key, ctr, nonce, text, before, cipher[..], 64 * i)
    {
      ghost var middle := cipher[..];
      var pool := ScalarRounds(input);
      RestOfText(key, ctr, nonce, before, plain, cipher, text, 64 * i, 64);
      XorWords(cipher, plain, 64 * i, AddStates(pool, input));
      WholeBlock(key, Advance64(ctr, 64 * i), nonce, input);
      Progress64Extends(key, ctr, nonce, text, before, middle, cipher[..], 64 * i, text[64 * i..64 * i + 64]);
      CounterWords(key, ctr, nonce, 64 * i);
      input := input[12 := Add32(input[12], 1)];
      if input[12] == 0 {
        input := input[13 := Add32(input[13], 1)];
      }
      i := i + 1;
    }
    var size := n % 64;
    assert n == 64 * i + size;
    if size > 0 {
      ghost var middle := cipher[..];
      var pool := ScalarRounds(input);
      var tmp := Serialize(AddStates(pool, input));
      WholeBlock(key, Advance64(ctr, 64 * i), nonce, input);
      RestOfText(key, ctr, nonce, before, plain, cipher, text, 64 * i, size);
      LastBytes(cipher, plain, 64 * i, tmp[..size]);
      Progress64Extends(key, ctr, nonce, text, before, middle, cipher[..], 64 * i, text[64 * i..64 * i + size]);
    }
    DjbDone(key, ctr, nonce, text, before, cipher[..]);
    FinalCounter(key, ctr, nonce, i, n);
    next := (input[12] + input[13] as int * B32 + if size > 0 then 1 else 0) % B64;
  }

  lemma TextIs(plain: array?<byte>, n: nat)
    requires plain != null ==> n <= plain.Length
    ensures if plain == null then TextOf(plain, n) == seq(n, i => 0) else TextOf(plain, n) == plain[..n]
  {}

  lemma StartDjb(key: Key, ctr: u64, nonce: ShortNonce, text: seq<byte>, before: seq<byte>)
    requires |text| <= |before|
    ensures Progress64(key, ctr, nonce, text, before, before, 0) && Advance64(ctr, 0) == ctr
  {
    assert Encrypt64(key, ctr, nonce, text[..0]) == [];
    SpliceNothing(before, 0);
  }

  lemma DjbDone(key: Key, ctr: u64, nonce: ShortNonce, text: seq<byte>, before: seq<byte>, after: seq<byte>)
    requires Progress64(key, ctr, nonce, text, before, after, |text|)
    ensures after == Splice(before, 0, Encrypt64(key, ctr, nonce, text))
  {
    assert text[..|text|] == text;
  }

  lemma WholeBlock(key: Key, ctr: u64, nonce: ShortNonce, input: State)
    requires input == Initial64(key, ctr, nonce)
    ensures Serialize(AddStates(Rounds(input, 10), input)) == Block64(key, ctr, nonce) == Block64(key, ctr, nonce)[..64]
  {
    hide Serialize, AddStates, Rounds;
  }

  lemma FinalCounter(key: Key, ctr: u64, nonce: ShortNonce, blocks: nat, n: nat)
    requires blocks == n / 64
    ensures var s := Initial64(key, Advance64(ctr, 64 * blocks), nonce);
      (s[12] + s[13] * B32 + if n % 64 > 0 then 1 else 0) % B64 == Advance64(ctr, n)
  {
    hide Load32;
    assert (64 * blocks + 63) / 64 == blocks;
    var more := if n % 64 > 0 then 1 else 0;
    assert (n + 63) / 64 == blocks + more;
    ModPlusMultiple(Advance64(ctr, 64 * blocks) + more, (ctr + blocks) / B64, B64);
  }

  /** The incomplete block, byte by byte. */
  method LastBytes(cipher: array<byte>, plain: array?<byte>, at: nat, tmp: seq<byte>)
    requires at + |tmp| <= cipher.Length && (plain != null ==> at + |tmp| <= plain.Length)
    modifies cipher
    ensures cipher[..] == Splice(old(cipher[..]), at, XorBytes(old(TextOf(plain, at + |tmp|))[at..], tmp))
  {
    hide XorByte;
    ghost var text := TextOf(plain, at + |tmp|)[at..];
    forall i | 0 <= i < |tmp| {
      cipher[at + i] := XorByte(if plain == null then 0 else plain[at + i], tmp[i]);
    }
    assert cipher[at..at + |tmp|] == XorBytes(text, tmp);
  }

  /** crypto_chacha20_h: the same subkey as the vector form. */
  method ChaCha20H(key: Key, in_: seq<byte>) returns (out: Key)
    requires |in_| == 16
    ensures out == HChaCha(key, in_)
  {
    hide Rounds, Store, Load32;
    var block := ScalarRounds(CONSTANTS + Load32(key) + Load32(in_));
    StoreAppend(block[..4], block[12..], 4);
    StoreLength(block[..4], 4);
    StoreLength(block[12..], 4);
    out := Store(block[..4], 4) + Store(block[12..], 4);
  }
}
