/** BLAKE2b as a stream: buffering, the byte counter and the lazy last block of
    section 3.3 of RFC 7693. The compression function is any function. */
module Blake2b {
  import opened Words
  import opened Bits
  import opened WordBytes
  import opened MonoUtil

  type State = h: seq<u64> | |h| == 8 witness [0, 0, 0, 0, 0, 0, 0, 0]
  type Input = m: seq<u64> | |m| == 16 witness seq(16, i => 0)

  /** F(h, block, counter low, counter high, last). */
  type Compression = (State, Input, u64, u64, bool) -> State

  const IV: State := [
    0x6a09e667f3bcc908, 0xbb67ae8584caa73b, 0x3c6ef372fe94f82b, 0xa54ff53a5f1d36f1,
    0x510e527fade682d1, 0x9b05688c2b3e6c1f, 0x1f83d9abfb41bd6b, 0x5be0cd19137e2179]

  // ---------------------------------------------------------- specification

  /** The initial state for a key and digest length. */
  function Start(keySize: u64, hashSize: u64): State
    requires keySize < 0x100
  {
    IV[0 := Xor64(IV[0], Xor64(Xor64(0x01010000, keySize * 0x100), hashSize))]
  }

  function BlockWords(b: seq<byte>): (m: Input)
    requires |b| == 128
  {
    LoadLength(b, 8);
    Pow256();
    Load(b, 8)
  }

  function CounterLow(n: nat): u64 { n % B64 }

  function CounterHigh(n: nat): u64 { n / B64 % B64 }

  /** Compresses the whole blocks of m, the counter starting at n. */
  function Chain(f: Compression, h: State, n: nat, m: seq<byte>): State
    decreases |m|
  {
    if |m| < 128 then h
    else Chain(f, f(h, BlockWords(m[..128]), CounterLow(n + 128), CounterHigh(n + 128), false), n + 128, m[128..])
  }

  /** Where the last block begins: it is never empty unless the message is. */
  function LastBlock(n: nat): (at: nat)
    ensures at <= n && n - at <= 128 && at % 128 == 0
  {
    if n == 0 then 0 else (n - 1) / 128 * 128
  }

  /** Section 3.3: all blocks but the last, then the zero-padded last one, marked. */
  function Digest(f: Compression, h: State, hashSize: nat, m: seq<byte>): seq<byte> {
    var at := LastBlock(|m|);
    var last := m[at..] + Zeros(128 - (|m| - at));
    var out := f(Chain(f, h, 0, m[..at]), BlockWords(last), CounterLow(|m|), CounterHigh(|m|), true);
    StoreLength(out, 8);
    Store(out, 8)[..if hashSize <= 64 then hashSize else 64]
  }

  lemma {:induction false} ChainAppend(f: Compression, h: State, n: nat, a: seq<byte>, b: seq<byte>)
    requires |a| % 128 == 0
    ensures Chain(f, h, n, a + b) == Chain(f, Chain(f, h, n, a), n + |a|, b)
    decreases |a|
  {
    hide BlockWords, CounterLow, CounterHigh;
    if a == [] {
      assert a + b == b;
    } else {
      assert (a + b)[..128] == a[..128] && (a + b)[128..] == a[128..] + b;
      ChainAppend(f, f(h, BlockWords(a[..128]), CounterLow(n + 128), CounterHigh(n + 128), false), n + 128, a[128..], b);
    }
  }

  lemma ChainEmpty(f: Compression, h: State, n: nat)
    ensures Chain(f, h, n, []) == h
  {}

  lemma ChainBlock(f: Compression, h: State, n: nat, b: seq<byte>)
    requires |b| == 128
    ensures Chain(f, h, n, b) == f(h, BlockWords(b), CounterLow(n + 128), CounterHigh(n + 128), false)
  {
    hide BlockWords, CounterLow, CounterHigh;
    assert b[..128] == b && b[128..] == [];
  }

  // --------------------------------------------------------- words and bytes

  /** Padding with zeros does not change the number. */
  lemma LEZeros(q: seq<byte>, n: nat)
    ensures LE(q + Zeros(n)) == LE(q)
  {
    ValAppend(256, q, Zeros(n));
    ValZeros(Zeros(n));
  }

  /** The word that holds byte k of q followed by zeros, once that byte is b. */
  lemma OrByteSum(q: seq<byte>, b: byte, p: int)
    requires |q| < 8 && p == Pow(256, |q|)
    ensures LE(q + Zeros(8 - |q|)) < p
    ensures LE(q + [b] + Zeros(7 - |q|)) == LE(q + Zeros(8 - |q|)) + b * p
  {
    hide Val, Pow, Zeros;
    LEZeros(q, 8 - |q|);
    LEZeros(q + [b], 7 - |q|);
    ValSnoc(256, q, b);
    ValBound(256, q);
    MulComm(p, b);
  }

  lemma OrByteWord(q: seq<byte>, b: byte, unit: int, t: int)
    requires |q| < 8 && unit == Pow(2, 8 * |q|) && t == b * unit
    ensures unit > 0 && LE(q + Zeros(8 - |q|)) < unit && 0 <= t < B64 && t % unit == 0
    ensures LE(q + [b] + Zeros(7 - |q|)) == LE(q + Zeros(8 - |q|)) + t
  {
    hide Val, Pow, Zeros;
    ByteUnit(|q|);
    OrByteSum(q, b, unit);
    DivModUnique(t, b, 0, unit);
    TopByte(|q|, unit, b);
  }

  lemma ByteUnit(k: nat)
    ensures Pow(2, 8 * k) == Pow(256, k) && Pow(256, k) > 0
  {
    hide Pow;
    Bits256();
    PowMul(2, 8, k);
    PowPositive(256, k);
  }

  lemma TopByte(k: nat, p: int, b: byte)
    requires k < 8 && p == Pow(256, k)
    ensures 0 <= b * p < B64
  {
    PowAdd(256, k, 1);
    assert Pow(256, 1) == 256;
    PowAdd(256, k + 1, 7 - k);
    Pow256();
    PowPositive(256, k);
    PowPositive(256, 7 - k);
    MulMono(1, Pow(256, 7 - k), Pow(256, k + 1));
    MulMono(b, 255, p);
    MulMono(0, b, p);
  }

  /** The buffer holds the bytes p followed by zeros. */
  ghost predicate Holds(input: seq<u64>, p: seq<byte>) {
    |input| == 16 && |p| <= 128 && input == BlockWords(p + Zeros(128 - |p|))
  }

  lemma HoldsBlock(b: seq<byte>)
    requires |b| == 128
    ensures Holds(BlockWords(b), b)
  {
    hide BlockWords;
    assert b + Zeros(0) == b;
  }

  lemma HoldsWord(input: seq<u64>, p: seq<byte>, i: nat)
    requires Holds(input, p) && i < 16
    ensures input[i] == LE((p + Zeros(128 - |p|))[8 * i..8 * i + 8])
  {
    hide Val;
    var v := p + Zeros(128 - |p|);
    LoadLength(v, 8);
    LoadAt(v, 8, i);
  }

  lemma HoldsByWords(input: seq<u64>, p: seq<byte>)
    requires |input| == 16 && |p| <= 128
    requires forall i :: 0 <= i < 16 ==> input[i] == LE((p + Zeros(128 - |p|))[8 * i..8 * i + 8])
    ensures Holds(input, p)
  {
    hide Val;
    var v := p + Zeros(128 - |p|);
    LoadLength(v, 8);
    forall i | 0 <= i < 16 ensures input[i] == Load(v, 8)[i] { LoadAt(v, 8, i); }
  }

  /** Adding one byte to the word that has room for it appends it. */
  lemma HoldsOr(input: seq<u64>, p: seq<byte>, b: byte, t: int)
    requires Holds(input, p) && |p| < 128
    requires var q := p[|p| / 8 * 8..]; LE(q + [b] + Zeros(7 - |q|)) == input[|p| / 8] + t
    ensures 0 <= input[|p| / 8] + t < B64 && Holds(input[|p| / 8 := input[|p| / 8] + t], p + [b])
  {
    assert |input| == 16;
    hide Val, Pow, BlockWords, Holds, Zeros;
    var w := |p| / 8;
    var q := p[8 * w..];
    WordRange(q + [b] + Zeros(7 - |q|));
    HoldsOrWords(input, p, b, input[w := input[w] + t]);
  }

  /** The word with room for a byte, and the byte shifted into place, have no bit in common. */
  lemma RoomForByte(input: seq<u64>, p: seq<byte>, b: byte)
    requires Holds(input, p) && |p| < 128
    ensures Pow(2, 8 * (|p| % 8)) > 0 && input[|p| / 8] < Pow(2, 8 * (|p| % 8))
    ensures Shl64(b, 8 * (|p| % 8)) % Pow(2, 8 * (|p| % 8)) == 0
    ensures var q := p[|p| / 8 * 8..]; LE(q + [b] + Zeros(7 - |q|)) == input[|p| / 8] + Shl64(b, 8 * (|p| % 8))
  {
    var q, unit := p[|p| / 8 * 8..], Pow(2, 8 * (|p| % 8));
    HoldsPartial(input, p, b);
    hide Val, Pow, BlockWords, Holds, Zeros;
    OrByteWord(q, b, unit, b * unit);
    DivModUnique(b * unit, 0, b * unit, B64);
  }

  lemma HoldsPartial(input: seq<u64>, p: seq<byte>, b: byte)
    requires Holds(input, p) && |p| < 128
    ensures var q := p[|p| / 8 * 8..]; input[|p| / 8] == LE(q + Zeros(8 - |q|))
  {
    hide Val, BlockWords, Holds, Zeros;
    HoldsWord(input, p, |p| / 8);
    SnocView(p, b, |p| / 8);
  }

  lemma HoldsOrWords(input: seq<u64>, p: seq<byte>, b: byte, new_: seq<u64>)
    requires Holds(input, p) && |p| < 128 && |new_| == 16
    requires forall i :: 0 <= i < 16 && i != |p| / 8 ==> new_[i] == input[i]
    requires var q := p[|p| / 8 * 8..]; new_[|p| / 8] == LE(q + [b] + Zeros(7 - |q|))
    ensures Holds(new_, p + [b])
  {
    assert |input| == 16;
    hide Val, BlockWords, Holds, Zeros;
    var v' := p + [b] + Zeros(127 - |p|);
    forall i | 0 <= i < 16 ensures new_[i] == LE(v'[8 * i..8 * i + 8]) {
      SnocView(p, b, i);
      HoldsWord(input, p, i);
    }
    HoldsByWords(new_, p + [b]);
  }

  /** Appending a byte changes one group of eight. */
  lemma SnocView(p: seq<byte>, b: byte, i: nat)
    requires |p| < 128 && i < 16
    ensures var v, v', q := p + Zeros(128 - |p|), p + [b] + Zeros(127 - |p|), p[|p| / 8 * 8..];
      if i == |p| / 8 then
        v[8 * i..8 * i + 8] == q + Zeros(8 - |q|) && v'[8 * i..8 * i + 8] == q + [b] + Zeros(7 - |q|)
      else v'[8 * i..8 * i + 8] == v[8 * i..8 * i + 8]
  {}

  /** Loading whole words at an aligned position appends their bytes. */
  lemma HoldsLoad(input: seq<u64>, p: seq<byte>, b: seq<byte>, new_: seq<u64>)
    requires Holds(input, p) && |p| % 8 == 0 && |b| % 8 == 0 && |p| + |b| <= 128 && |new_| == 16
    requires forall i :: 0 <= i < 16 ==>
      (new_[i] == if |p| <= 8 * i < |p| + |b| then LE(b[8 * i - |p|..8 * i - |p| + 8]) else input[i])
    ensures Holds(new_, p + b)
  {
    hide Val, BlockWords, Holds, Zeros;
    var v' := p + b + Zeros(128 - |p| - |b|);
    forall i | 0 <= i < 16 ensures new_[i] == LE(v'[8 * i..8 * i + 8]) {
      HoldsWord(input, p, i);
      if |p| <= 8 * i < |p| + |b| { LoadedView(p, b, i); } else { UntouchedView(p, b, i); }
    }
    HoldsByWords(new_, p + b);
  }

  lemma LoadedView(p: seq<byte>, b: seq<byte>, i: nat)
    requires |p| % 8 == 0 && |b| % 8 == 0 && |p| <= 8 * i < |p| + |b| <= 128
    ensures (p + b + Zeros(128 - |p| - |b|))[8 * i..8 * i + 8] == b[8 * i - |p|..8 * i - |p| + 8]
  {
    assert (p + b + Zeros(128 - |p| - |b|))[|p|..|p| + |b|] == b;
  }

  lemma UntouchedView(p: seq<byte>, b: seq<byte>, i: nat)
    requires |p| % 8 == 0 && |b| % 8 == 0 && |p| + |b| <= 128 && i < 16 && !(|p| <= 8 * i < |p| + |b|)
    ensures (p + b + Zeros(128 - |p| - |b|))[8 * i..8 * i + 8] == (p + Zeros(128 - |p|))[8 * i..8 * i + 8]
  {}

  lemma HoldsNothing(input: seq<u64>)
    requires |input| == 16 && forall i :: 0 <= i < 16 ==> input[i] == 0
    ensures Holds(input, [])
  {
    hide Val, BlockWords, Holds;
    forall i | 0 <= i < 16 ensures input[i] == LE(([] + Zeros(128))[8 * i..8 * i + 8]) {
      ValZeros(([] + Zeros(128))[8 * i..8 * i + 8]);
    }
    HoldsByWords(input, []);
  }

  lemma AppendAfter(a: seq<byte>, b: seq<byte>, n: nat)
    requires n <= |a|
    ensures (a + b)[n..] == a[n..] + b && (a + b)[..n] == a[..n]
  {}

  /** load64_le_buf: whole words from bytes, starting at word `at`. */
  method Load64Buf(dst: array<u64>, at: nat, src: seq<byte>)
    requires |src| % 8 == 0 && (src == [] || at + |src| / 8 <= dst.Length)
    modifies dst
    ensures forall i :: 0 <= i < dst.Length ==>
      (dst[i] == if at <= i < at + |src| / 8 then LE(src[8 * (i - at)..8 * (i - at) + 8]) else old(dst[i]))
  {
    hide Val;
    var j := 0;
    while j < |src| / 8
      invariant 0 <= j <= |src| / 8
      invariant forall i :: 0 <= i < dst.Length ==>
        (dst[i] == if at <= i < at + j then LE(src[8 * (i - at)..8 * (i - at) + 8]) else old(dst[i]))
    {
      WordRange(src[8 * j..8 * j + 8]);
      dst[at + j] := LE(src[8 * j..8 * j + 8]);
      j := j + 1;
    }
  }

  /** The first block of a keyed hash. */
  function KeyBlock(key: seq<byte>): (b: seq<byte>)
    requires |key| <= 128
    ensures |b| == if key == [] then 0 else 128
  {
    if key == [] then [] else key + Zeros(128 - |key|)
  }

  function InitialBuffer(key: seq<byte>): Input
    requires |key| <= 128
  {
    if key == [] then seq(16, i => 0) else BlockWords(KeyBlock(key))
  }

  lemma InitialHolds(key: seq<byte>)
    requires |key| <= 128
    ensures Holds(InitialBuffer(key), KeyBlock(key)[0..]) && KeyBlock(key)[..0] == []
  {
    hide BlockWords, Holds, Zeros;
    assert KeyBlock(key)[0..] == KeyBlock(key);
    if key == [] { HoldsNothing(seq(16, i => 0)); } else { HoldsBlock(KeyBlock(key)); }
  }

  // --------------------------------------------------------------- the stream

  class Context {
    const f: Compression
    var hash: State
    var offset0: u64
    var offset1: u64
    const input: array<u64>
    var inputIdx: nat
    const hashSize: nat

    ghost const start: State
    /** The key block, if any, and everything given to Update. */
    ghost var absorbed: seq<byte>

    /** All of n bytes are compressed and counted. */
    ghost predicate Compressed(n: nat)
      reads this
    {
      && n <= |absorbed| && n % 128 == 0
      && hash == Chain(f, start, 0, absorbed[..n])
      && offset0 == CounterLow(n) && offset1 == CounterHigh(n)
    }

    /** The last input_idx bytes are buffered, above zeros; the rest is compressed. */
    ghost predicate Buffered()
      reads this, input
    {
      && input.Length == 16 && inputIdx <= 128 && inputIdx <= |absorbed|
      && Compressed(|absorbed| - inputIdx)
      && Holds(input[..], absorbed[|absorbed| - inputIdx..])
    }

    /** Between calls the buffer is empty only if nothing was absorbed. */
    ghost predicate Ready()
      reads this, input
    {
      Buffered() && (inputIdx == 0 ==> absorbed == [])
    }

    /** Keyed or, with an empty key, plain initialisation. */
    constructor (f: Compression, hashSize: u64, key: seq<byte>)
      requires |key| <= 128
      ensures Ready() && fresh(input) && this.f == f && this.hashSize == hashSize
      ensures start == Start(|key|, hashSize)
      ensures absorbed == KeyBlock(key)
    {
      hide Start, Load, Val, Xor, BlockWords, Chain, Holds, Zeros, KeyBlock, InitialBuffer, Pow;
      this.f := f;
      this.hashSize := hashSize;
      hash := Start(|key|, hashSize);
      start := Start(|key|, hashSize);
      offset0, offset1 := 0, 0;
      var words := InitialBuffer(key);
      input := new u64[16](i requires 0 <= i < 16 => words[i]);
      inputIdx := if key == [] then 0 else 128;
      absorbed := KeyBlock(key);
      new;
      assert input[..] == words;
      ChainEmpty(f, start, 0);
      InitialHolds(key);
    }

    /** Adds the buffered bytes to the counter and compresses the buffer. */
    method Compress(isLast: bool)
      requires inputIdx <= 128 && input.Length == 16
      modifies this`hash, this`offset0, this`offset1
      ensures hash == f(old(hash), input[..], offset0, offset1, isLast)
      ensures forall n: nat :: (CounterLow(n) == old(offset0) && CounterHigh(n) == old(offset1)
        ==> offset0 == CounterLow(n + inputIdx) && offset1 == CounterHigh(n + inputIdx))
    {
      ghost var lo, hi := offset0, offset1;
      var y := inputIdx;
      offset0 := Add64(offset0, y);
      if offset0 < y { offset1 := Add64(offset1, 1); }
      forall n: nat | CounterLow(n) == lo && CounterHigh(n) == hi
        ensures offset0 == CounterLow(n + y) && offset1 == CounterHigh(n + y)
      {
        CounterStep(n, y);
      }
      hash := f(hash, input[..], offset0, offset1, isLast);
    }

    /** A full buffer is compressed only when more input follows. */
    method Flush()
      requires Buffered() && inputIdx == 128
      modifies this`hash, this`offset0, this`offset1
      ensures Compressed(|absorbed|)
    {
      hide Chain, CounterLow, CounterHigh, BlockWords;
      ghost var n: nat := |absorbed| - 128;
      ghost var a, b := absorbed[..n], absorbed[n..];
      assert a + b == absorbed && absorbed[..|absorbed|] == absorbed;
      assert b + Zeros(0) == b;
      ChainAppend(f, start, 0, a, b);
      ChainBlock(f, hash, n, b);
      Compress(false);
    }

    /** Bytes ORed one by one into the zero bytes after the buffered ones. */
    method OrBytes(bytes: seq<byte>)
      requires Buffered() && inputIdx + |bytes| <= 128
      modifies this`inputIdx, this`absorbed, input
      ensures Buffered() && absorbed == old(absorbed) + bytes && inputIdx == old(inputIdx) + |bytes|
    {
      hide Chain, BlockWords, Holds, Pow, Val, Shl64, Zeros;
      var i := 0;
      ghost var before, at := absorbed, |absorbed| - inputIdx;
      assert bytes[..0] == [] && before + [] == before;
      while i < |bytes|
        invariant 0 <= i <= |bytes| && inputIdx == old(inputIdx) + i
        invariant absorbed == before + bytes[..i] && |absorbed| - inputIdx == at
        invariant Compressed(at) && Holds(input[..], absorbed[at..])
      {
        ghost var p := absorbed[at..];
        var word, byte_ := inputIdx / 8, inputIdx % 8;
        var shifted := Shl64(bytes[i], 8 * byte_);
        RoomForByte(input[..], p, bytes[i]);
        HoldsOr(input[..], p, bytes[i], shifted);
        ghost var words := input[..];
        input[word] := Or(input[word], shifted, Pow(2, 8 * byte_));
        assert input[..] == words[word := input[word]];
        ChainPrefix(absorbed, at, bytes[i]);
        absorbed := absorbed + [bytes[i]];
        assert absorbed[at..] == p + [bytes[i]];
        assert bytes[..i + 1] == bytes[..i] + [bytes[i]];
        inputIdx := inputIdx + 1;
        i := i + 1;
      }
    }

    /** Whole words loaded at an aligned position. */
    method FillWords(at: nat, bytes: seq<byte>)
      requires Buffered() && |bytes| % 8 == 0 && inputIdx + |bytes| <= 128
      requires bytes == [] || 8 * at == inputIdx
      modifies this`inputIdx, this`absorbed, input
      ensures Buffered() && absorbed == old(absorbed) + bytes && inputIdx == old(inputIdx) + |bytes|
    {
      hide Chain, BlockWords, Holds, Val;
      ghost var before, n := input[..], |absorbed| - inputIdx;
      ghost var p := absorbed[n..];
      Load64Buf(input, at, bytes);
      if bytes == [] {
        assert input[..] == before && absorbed + bytes == absorbed;
      } else {
        HoldsLoad(before, p, bytes, input[..]);
      }
      AppendAfter(absorbed, bytes, n);
      absorbed := absorbed + bytes;
      inputIdx := inputIdx + |bytes|;
    }

    /** A whole block replaces the buffer. */
    method LoadBlock(block: seq<byte>)
      requires |block| == 128 && input.Length == 16 && Compressed(|absorbed|)
      modifies this`inputIdx, this`absorbed, input
      ensures Buffered() && absorbed == old(absorbed) + block && inputIdx == 128
    {
      hide Chain, BlockWords, Holds, Val;
      Load64Buf(input, 0, block);
      assert block + Zeros(0) == block;
      HoldsByWords(input[..], block);
      AppendAfter(absorbed, block, |absorbed|);
      assert absorbed[|absorbed|..] + block == block;
      absorbed := absorbed + block;
      inputIdx := 128;
    }

    method ClearInput()
      requires input.Length == 16 && Compressed(|absorbed|) && inputIdx == 0
      modifies input
      ensures Buffered()
    {
      hide Chain, BlockWords, Holds;
      var j := 0;
      while j < 16
        invariant 0 <= j <= 16 && Compressed(|absorbed|) && inputIdx == 0
        invariant forall i :: 0 <= i < j ==> input[i] == 0
      {
        input[j] := 0;
        j := j + 1;
      }
      HoldsNothing(input[..]);
      assert absorbed[|absorbed|..] == [];
    }

    /** Absorbs a message of any length. */
    method Update(message: seq<byte>)
      requires Ready()
      modifies this`hash, this`offset0, this`offset1, this`inputIdx, this`absorbed, input
      ensures Ready() && absorbed == old(absorbed) + message
    {
      hide Context.Buffered, Gap;
      ghost var total := absorbed + message;
      if message == [] {
        assert total == absorbed;
        return;
      }
      var m := AlignToWord(message);
      m := AlignToBlock(m);
      m := WholeBlocks(m);
      if |m| != 0 {
        FillTail(m);
      } else {
        assert absorbed + m == absorbed;
      }
    }

    /** Bytes up to the next word boundary. */
    method AlignToWord(message: seq<byte>) returns (m: seq<byte>)
      requires Ready()
      modifies this`inputIdx, this`absorbed, input
      ensures Ready() && absorbed + m == old(absorbed) + message
      ensures inputIdx % 8 == 0 || m == []
    {
      assert inputIdx <= 128;
      hide Context.Buffered, Gap;
      m := message;
      if inputIdx % 8 != 0 {
        GapAligns(inputIdx, 8);
        ghost var before := absorbed;
        var nbBytes := if Gap(inputIdx, 8) <= |m| then Gap(inputIdx, 8) else |m|;
        OrBytes(m[..nbBytes]);
        assert before + m == before + m[..nbBytes] + m[nbBytes..];
        m := m[nbBytes..];
      }
    }

    /** Words up to the next block boundary. */
    method AlignToBlock(message: seq<byte>) returns (m: seq<byte>)
      requires Ready() && (inputIdx % 8 == 0 || message == [])
      modifies this`inputIdx, this`absorbed, input
      ensures Ready() && absorbed + m == old(absorbed) + message
      ensures inputIdx == 0 || inputIdx == 128 || (|m| < 8 && inputIdx + |m| <= 128)
    {
      assert inputIdx <= 128;
      hide Context.Buffered;
      if inputIdx % 128 != 0 {
        m := LoadUpToBlock(message);
      } else {
        assert inputIdx == 0 || inputIdx == 128;
        m := message;
      }
    }

    method LoadUpToBlock(message: seq<byte>) returns (m: seq<byte>)
      requires Ready() && inputIdx % 128 != 0 && (inputIdx % 8 == 0 || message == [])
      modifies this`inputIdx, this`absorbed, input
      ensures Ready() && absorbed + m == old(absorbed) + message
      ensures inputIdx == 128 || (|m| < 8 && inputIdx + |m| <= 128)
    {
      assert 0 < inputIdx <= 128;
      hide Context.Buffered;
      var nbBytes := BytesToLoad(inputIdx, |message|);
      SplitAssoc(absorbed, message, nbBytes);
      FillWords(inputIdx / 8, message[..nbBytes]);
      m := message[nbBytes..];
    }

    /** The rest, shorter than a block: words, then bytes. */
    method FillTail(message: seq<byte>)
      requires Ready() && 0 < |message| < 128
      requires inputIdx == 0 || inputIdx == 128 || (|message| < 8 && inputIdx + |message| <= 128)
      modifies this`hash, this`offset0, this`offset1, this`inputIdx, this`absorbed, input
      ensures Ready() && absorbed == old(absorbed) + message
    {
      hide Chain, BlockWords, Holds, Context.Compressed;
      if inputIdx == 128 || inputIdx == 0 {
        EmptyBuffer();
      }
      var nbWords := |message| / 8;
      ghost var before := absorbed;
      FillWords(0, message[..8 * nbWords]);
      OrBytes(message[8 * nbWords..]);
      assert before + message == before + message[..8 * nbWords] + message[8 * nbWords..];
    }

    /** Compresses a full buffer and clears it. */
    method EmptyBuffer()
      requires Ready() && (inputIdx == 0 || inputIdx == 128)
      modifies this`hash, this`offset0, this`offset1, this`inputIdx, input
      ensures Buffered() && inputIdx == 0
    {
      hide Chain, BlockWords, Holds;
      if inputIdx == 128 {
        Flush();
        assert Compressed(|absorbed|);
        inputIdx := 0;
        assert Compressed(|absorbed|);
      } else {
        assert Compressed(|absorbed| - inputIdx);
        assert |absorbed| - inputIdx == |absorbed|;
      }
      ClearInput();
    }

    /** Compresses the buffer if it is full, then takes the next block into it. */
    method NextBlock(block: seq<byte>)
      requires Ready() && |block| == 128 && (inputIdx == 0 || inputIdx == 128)
      modifies this`hash, this`offset0, this`offset1, this`inputIdx, this`absorbed, input
      ensures Ready() && absorbed == old(absorbed) + block && inputIdx == 128
    {
      hide Chain, BlockWords, Holds;
      if inputIdx == 128 {
        Flush();
      } else {
        assert Compressed(|absorbed| - inputIdx);
        assert |absorbed| - inputIdx == |absorbed|;
      }
      LoadBlock(block);
    }

    /** Block by block; the last block stays in the buffer. */
    method WholeBlocks(message: seq<byte>) returns (m: seq<byte>)
      requires Ready() && (|message| >= 128 ==> inputIdx == 0 || inputIdx == 128)
      modifies this`hash, this`offset0, this`offset1, this`inputIdx, this`absorbed, input
      ensures Ready() && absorbed + m == old(absorbed) + message
      ensures |m| < 128
      ensures if |message| >= 128 then inputIdx == 128 else inputIdx == old(inputIdx) && m == message
    {
      hide Context.Buffered;
      ghost var total := absorbed + message;
      m := message;
      while |m| >= 128
        invariant Ready() && absorbed + m == total && |m| <= |message| && (|message| - |m|) % 128 == 0
        invariant |m| >= 128 ==> inputIdx == 0 || inputIdx == 128
        invariant if |m| < |message| then inputIdx == 128 else inputIdx == old(inputIdx) && m == message
      {
        ghost var before := absorbed;
        NextBlock(m[..128]);
        assert before + m == before + m[..128] + m[128..];
        m := m[128..];
      }
    }

    /** The digest of everything absorbed. */
    method Final() returns (out: seq<byte>)
      requires Ready()
      modifies this`hash, this`offset0, this`offset1
      ensures out == Digest(f, start, hashSize, absorbed)
    {
      hide Chain, BlockWords, CounterLow, CounterHigh, Digits;
      ghost var at: nat := |absorbed| - inputIdx;
      LastBlockAt(|absorbed|, inputIdx);
      assert CounterLow(at) == offset0 && CounterHigh(at) == offset1 && at + inputIdx == |absorbed|;
      Compress(true);
      out := StoreBytes(if hashSize <= 64 then hashSize else 64);
    }

    /** Whole words, then the bytes of the next word. */
    method StoreBytes(size: nat) returns (out: seq<byte>)
      requires size <= 64
      ensures |Store(hash, 8)| == 64 && out == Store(hash, 8)[..size]
    {
      hide Digits, Store;
      var nbWords := size / 8;
      out := Store(hash[..nbWords], 8);
      StorePrefix(hash, nbWords);
      var i := nbWords * 8;
      while i < size
        invariant nbWords * 8 <= i <= size && out == Store(hash, 8)[..i]
      {
        StoreByte(hash, i);
        out := out + [hash[i / 8] / Pow(2, 8 * (i % 8)) % 256];
        i := i + 1;
      }
    }
  }

  /** The smaller of the gap and the message, in whole words: their bytes. */
  method BytesToLoad(idx: nat, n: nat) returns (nbBytes: nat)
    requires 0 < idx <= 128 && idx % 128 != 0 && (idx % 8 == 0 || n == 0)
    ensures nbBytes <= n && nbBytes % 8 == 0 && idx + nbBytes <= 128 && (nbBytes == 0 || 8 * (idx / 8) == idx)
    ensures idx + nbBytes == 128 || (n - nbBytes < 8 && idx + n <= 128)
  {
    hide Gap;
    GapAligns(idx, 128);
    var nbWords := (if Gap(idx, 128) <= n then Gap(idx, 128) else n) / 8;
    WordsThatFit(idx, Gap(idx, 128), n, nbWords);
    nbBytes := 8 * nbWords;
  }

  lemma SplitAssoc(a: seq<byte>, m: seq<byte>, n: nat)
    requires n <= |m|
    ensures a + m == a + m[..n] + m[n..]
  {}

  lemma WordsThatFit(idx: nat, gap: nat, n: nat, words: nat)
    requires 0 < idx <= 128 && idx % 128 != 0 && gap < 128 && (idx + gap) % 128 == 0
    requires words == (if gap <= n then gap else n) / 8 && (idx % 8 == 0 || n == 0)
    ensures 8 * words <= n && idx + 8 * words <= 128 && (words == 0 || 8 * (idx / 8) == idx)
    ensures idx + 8 * words == 128 || (n - 8 * words < 8 && idx + n <= 128)
  {
    assert gap == 128 - idx;
  }

  lemma LastBlockAt(n: nat, idx: nat)
    requires idx <= 128 && idx <= n && (n - idx) % 128 == 0 && (idx == 0 ==> n == 0)
    ensures LastBlock(n) == n - idx
  {
    if n > 0 { DivModUnique(n - 1, (n - idx) / 128, idx - 1, 128); }
  }

  lemma StorePrefix(h: seq<u64>, n: nat)
    requires n <= |h|
    ensures |Store(h, 8)| == 8 * |h| && Store(h[..n], 8) == Store(h, 8)[..8 * n]
  {
    assert h == h[..n] + h[n..];
    StoreAppend(h[..n], h[n..], 8);
    StoreLength(h, 8);
    StoreLength(h[..n], 8);
  }

  /** Byte i of the stored words, by shifting and masking. */
  lemma StoreByte(h: seq<u64>, i: nat)
    requires i < 8 * |h|
    ensures |Store(h, 8)| == 8 * |h| && Pow(2, 8 * (i % 8)) > 0
    ensures Store(h, 8)[i] == h[i / 8] / Pow(2, 8 * (i % 8)) % 256
  {
    hide Val, Pow, Digits;
    var w, k := i / 8, i % 8;
    StorePrefix(h, w);
    StorePrefix(h, w + 1);
    assert h[..w + 1] == h[..w] + [h[w]];
    StoreAppend(h[..w], [h[w]], 8);
    StoreOne(h[w]);
    var word := ToLE(h[w], 8);
    assert Store(h, 8)[..8 * (w + 1)][i] == (Store(h, 8)[..8 * w] + word)[i] == word[k];
    ByteUnit(k);
    Pow256();
    ValOfDigits(256, h[w], 8);
    DivModUnique(h[w], 0, h[w], B64);
    ValDigit(256, word, k);
  }

  lemma StoreOne(x: int)
    ensures Store([x], 8) == ToLE(x, 8)
  {
    assert [x][1..] == [];
  }

  lemma ChainPrefix(a: seq<byte>, at: nat, b: byte)
    requires at <= |a|
    ensures (a + [b])[..at] == a[..at]
  {}

  /** The 128-bit counter in two words, with carry. */
  lemma CounterStep(n: nat, y: nat)
    requires y <= 128
    ensures CounterLow(n + y) == Add64(CounterLow(n), y)
    ensures CounterHigh(n + y) == if Add64(CounterLow(n), y) < y then Add64(CounterHigh(n), 1) else CounterHigh(n)
  {
    var q, r := n / B64, n % B64;
    var c := if r + y < B64 then 0 else 1;
    DivModUnique(n + y, q + c, r + y - c * B64, B64);
    var q1, r1 := q / B64, q % B64;
    if c == 1 {
      var d := if r1 + 1 < B64 then 0 else 1;
      DivModUnique(q + 1, q1 + d, r1 + 1 - d * B64, B64);
    }
  }
}
