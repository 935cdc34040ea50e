/** What the initial state, the counter and the last block of BLAKE2b are, in the terms of RFC 7693. */
module Blake2bParameters {
  import opened Words
  import opened Bits
  import opened WordBytes
  import opened Blake2b

  /** Section 2.5: digest length, key length, fanout 1, depth 1, zeros. */
  function ParameterBlock(keySize: byte, hashSize: byte): (p: seq<byte>)
    ensures |p| == 64
  {
    [hashSize, keySize, 1, 1] + Zeros(60)
  }

  /** The initial state is the initialisation vector XORed with the parameter block. */
  lemma StartIsParameterBlock(keySize: nat, hashSize: nat, i: nat)
    requires keySize <= 64 && hashSize <= 64 && i < 8
    ensures 0 <= LE(ParameterBlock(keySize, hashSize)[8 * i..8 * i + 8]) < B64
    ensures Xor64(Start(keySize, hashSize)[i], IV[i]) == LE(ParameterBlock(keySize, hashSize)[8 * i..8 * i + 8])
  {
    hide Xor, Val;
    var p := ParameterBlock(keySize, hashSize);
    var w := p[8 * i..8 * i + 8];
    WordRange(w);
    if i == 0 {
      assert w == [hashSize, keySize, 1, 1] + Zeros(4);
      FirstWord(keySize, hashSize);
      Cancels(IV[0], LE(w));
    } else {
      assert w == Zeros(8);
      ValZeros(w);
      Cancels(IV[i], 0);
      XorSelf(IV[i]);
    }
  }

  lemma FirstWord(keySize: nat, hashSize: nat)
    requires keySize <= 64 && hashSize <= 64
    ensures Xor64(Xor64(0x01010000, keySize * 0x100), hashSize) == LE([hashSize, keySize, 1, 1] + Zeros(4))
  {
    hide Bitwise, Val;
    var k: nat := keySize * 0x100;
    Pow2Widths();
    // 0x01010000 ^ k, apart at bit 16
    SplitAt(XorBit, 16, 0x1_0000, 0, k, 0x101, 0, 0x1010000, 0);
    XorZero(k);
    XorZeroRight(0x101);
    // and the digest length below bit 8
    SplitAt(XorBit, 8, 0x100, 0, hashSize, keySize + 0x1_0100, 0, k + 0x1010000, 0);
    XorZero(hashSize);
    XorZeroRight(keySize + 0x1_0100);
    FourBytes(hashSize, keySize);
  }

  lemma FourBytes(a: byte, b: byte)
    ensures LE([a, b, 1, 1] + Zeros(4)) == a + 0x100 * b + 0x1010000
  {
    var z := Zeros(4);
    ValZeros(z);
    hide Zeros;
    var one, two, three, four: seq<byte> := [1], [1, 1], [b, 1, 1], [a, b, 1, 1];
    assert one[1..] == [] && two[1..] == one && three[1..] == two && four[1..] == three;
    assert LE(one) == 1;
    assert LE(two) == 0x101;
    assert LE(three) == b + 0x100 * 0x101;
    assert LE(four) == a + 0x100 * (b + 0x100 * 0x101);
    ValAppend(256, four, z);
  }

  lemma Cancels(v: u64, x: u64)
    ensures Xor64(Xor64(v, x), v) == x
  {
    hide Xor;
    XorComm(v, x);
    XorTwice(x, v);
  }

  const FIRST_PRIMES: seq<nat> := [2, 3, 5, 7, 11, 13, 17, 19]
  const ROOTS: seq<nat> := [1, 1, 2, 2, 3, 3, 4, 4]

  /** Section 2.6: the vector holds the first 64 fractional bits of the square roots of the first eight primes. */
  lemma VectorIsRoots(i: nat)
    requires i < 8
    ensures var a, p := ROOTS[i], FIRST_PRIMES[i];
      a * a <= p < (a + 1) * (a + 1) && (a * B64 + IV[i]) * (a * B64 + IV[i]) <= p * B128 < (a * B64 + IV[i] + 1) * (a * B64 + IV[i] + 1)
  {}

  /** The two counter words are one 128-bit number. */
  lemma CounterWords(n: nat)
    requires n < B128
    ensures CounterLow(n) + B64 * CounterHigh(n) == n
  {
    assert n == B64 * (n / B64) + n % B64;
    DivModUnique(n / B64, 0, n / B64, B64);
  }

  /** Only the empty message has an empty last block, and a full block is the last one of its message. */
  lemma LastBlockHolds(n: nat)
    ensures n > 0 ==> 0 < n - LastBlock(n) <= 128
    ensures n == 0 ==> LastBlock(n) == 0
  {}

  /** Word j of block k of a message, little-endian. */
  lemma BlockWordAt(m: seq<byte>, k: nat, j: nat)
    requires 128 * k + 128 <= |m| && j < 16
    ensures BlockWords(m[128 * k..128 * k + 128])[j] == LE(m[128 * k + 8 * j..128 * k + 8 * j + 8])
  {
    hide Val, Load;
    var b := m[128 * k..128 * k + 128];
    LoadLength(b, 8);
    LoadAt(b, 8, j);
    Nested(m, 128 * k, 8 * j);
  }

  lemma Nested(m: seq<byte>, at: nat, from: nat)
    requires at + 128 <= |m| && from + 8 <= 128
    ensures m[at..at + 128][from..from + 8] == m[at + from..at + from + 8]
  {
    var l, r := m[at..at + 128][from..from + 8], m[at + from..at + from + 8];
    forall k | 0 <= k < 8 ensures l[k] == r[k] {
      assert m[at..at + 128][from + k] == m[at + from + k];
    }
  }

  // ------------------------------------------------------------- section 3.3

  /** Number of blocks of a message: at least one. */
  function BlockCount(n: nat): (k: nat)
    ensures 0 < k && n <= 128 * k && (k > 1 ==> 128 * (k - 1) < n)
  {
    if n == 0 then 1 else (n + 127) / 128
  }

  /** The message filled up with zeros to whole blocks. */
  function Padded(m: seq<byte>): (p: seq<byte>)
    ensures |p| == 128 * BlockCount(|m|)
  {
    m + Zeros(128 * BlockCount(|m|) - |m|)
  }

  /** The state after the first k blocks of p. */
  function After(f: Compression, h: State, p: seq<byte>, k: nat): State
    requires 128 * k <= |p|
    decreases k
  {
    if k == 0 then h
    else f(After(f, h, p, k - 1), BlockWords(p[128 * (k - 1)..128 * k]), CounterLow(128 * k), CounterHigh(128 * k), false)
  }

  /** The digest by blocks of the padded message: all but the last with the bytes so far as counter, the
      last one marked, with the length of the message; the state's words, little-endian, cut off. */
  lemma DigestOfPadded(f: Compression, h: State, hashSize: nat, m: seq<byte>)
    requires hashSize <= 64
    ensures var p, k := Padded(m), BlockCount(|m|);
      var out := f(After(f, h, p, k - 1), BlockWords(p[128 * (k - 1)..]), CounterLow(|m|), CounterHigh(|m|), true);
      hashSize <= |Store(out, 8)| && Digest(f, h, hashSize, m) == Store(out, 8)[..hashSize]
  {
    hide BlockWords, CounterLow, CounterHigh, Store, After;
    var p, k := Padded(m), BlockCount(|m|);
    LastBlockStarts(|m|);
    var at := LastBlock(|m|);
    assert p[..at] == m[..at] && p[at..] == m[at..] + Zeros(128 - (|m| - at));
    AfterIsChain(f, h, p, k - 1);
    StoreLength(f(After(f, h, p, k - 1), BlockWords(p[at..]), CounterLow(|m|), CounterHigh(|m|), true), 8);
  }

  lemma LastBlockStarts(n: nat)
    ensures LastBlock(n) == 128 * (BlockCount(n) - 1)
  {}

  lemma {:induction false} AfterIsChain(f: Compression, h: State, p: seq<byte>, k: nat)
    requires 128 * k <= |p|
    ensures Chain(f, h, 0, p[..128 * k]) == After(f, h, p, k)
    decreases k
  {
    hide BlockWords, CounterLow, CounterHigh;
    if k > 0 {
      AfterIsChain(f, h, p, k - 1);
      var a, b := p[..128 * (k - 1)], p[128 * (k - 1)..128 * k];
      assert a + b == p[..128 * k];
      ChainAppend(f, h, 0, a, b);
      ChainBlock(f, Chain(f, h, 0, a), 128 * (k - 1), b);
    }
  }
}
