/** The vectorised ChaCha20 stream: four blocks at a time, then two, then the rest. */
module ChaChaStream {
  import opened Words
  import opened Bits
  import opened WordBytes
  import opened Simd
  import opened ChaCha20
  import opened ChaChaSimd

  function XorBytes(x: seq<byte>, ks: seq<byte>): (c: seq<byte>)
    requires |x| == |ks|
    ensures |c| == |x|
  {
    seq(|x|, i requires 0 <= i < |x| => XorByte(x[i], ks[i]))
  }

  lemma XorBytesAppend(x: seq<byte>, y: seq<byte>, j: seq<byte>, k: seq<byte>)
    requires |x| == |j| && |y| == |k|
    ensures XorBytes(x + y, j + k) == XorBytes(x, j) + XorBytes(y, k)
  {
    hide XorByte;
  }

  lemma XorZeros(k: seq<byte>)
    ensures XorBytes(seq(|k|, i => 0), k) == k
  {
    hide Xor;
    forall i | 0 <= i < |k| ensures XorByte(0, k[i]) == k[i] { XorZero(k[i]); }
  }

  /** d with `middle` in place of the bytes at `at`. */
  function Splice(d: seq<byte>, at: nat, middle: seq<byte>): (r: seq<byte>)
    requires at + |middle| <= |d|
    ensures |r| == |d|
  {
    d[..at] + middle + d[at + |middle|..]
  }

  lemma SpliceTwice(d: seq<byte>, at: nat, a: seq<byte>, b: seq<byte>)
    requires at + |a| + |b| <= |d|
    ensures Splice(Splice(d, at, a), at + |a|, b) == Splice(d, at, a + b)
  {}

  /** Bytes above a splice are the old ones. */
  lemma SpliceAbove(d: seq<byte>, at: nat, a: seq<byte>, n: nat)
    requires at + |a| + n <= |d|
    ensures Splice(d, at, a)[at + |a|..at + |a| + n] == d[at + |a|..at + |a| + n]
  {}

  lemma SpliceNothing(d: seq<byte>, at: nat)
    requires at <= |d|
    ensures Splice(d, at, []) == d
  {}

  /** dst[at..] := src[from..] XOR the key stream bytes; both may be one buffer. */
  method XorInto(dst: array<byte>, at: nat, src: array<byte>, from: nat, ks: seq<byte>)
    requires at + |ks| <= dst.Length && from + |ks| <= src.Length && (src == dst ==> at == from)
    modifies dst
    ensures dst[..] == Splice(old(dst[..]), at, XorBytes(old(src[from..from + |ks|]), ks))
  {
    hide XorByte;
    ghost var x := src[from..from + |ks|];
    forall i | 0 <= i < |ks| {
      dst[at + i] := XorByte(src[from + i], ks[i]);
    }
    assert dst[at..at + |ks|] == XorBytes(x, ks);
  }

  /** Two neighbouring vectors. */
  method XorTwo(dst: array<byte>, at: nat, src: array<byte>, from: nat, a: seq<byte>, b: seq<byte>)
    requires at + |a| + |b| <= dst.Length && from + |a| + |b| <= src.Length && (src == dst ==> at == from)
    modifies dst
    ensures dst[..] == Splice(old(dst[..]), at, XorBytes(old(src[from..from + |a| + |b|]), a + b))
  {
    hide XorByte, Splice, XorBytes;
    ghost var d, x, y := dst[..], src[from..from + |a|], src[from + |a|..from + |a| + |b|];
    assert x + y == src[from..from + |a| + |b|];
    XorInto(dst, at, src, from, a);
    if src == dst {
      SpliceAbove(d, at, XorBytes(x, a), |b|);
      assert y == d[at + |a|..at + |a| + |b|];
      assert src[from + |a|..from + |a| + |b|] == dst[..][at + |a|..at + |a| + |b|];
    }
    XorInto(dst, at + |a|, src, from + |a|, b);
    SpliceTwice(d, at, XorBytes(x, a), XorBytes(y, b));
    XorBytesAppend(x, y, a, b);
  }

  function Vector16(v: seq<u32>, h: nat): (b: seq<byte>)
    requires 4 * h + 4 <= |v|
    ensures |b| == 16
  {
    StoreLength(v[4 * h..4 * h + 4], 4);
    Store(v[4 * h..4 * h + 4], 4)
  }

  /** The four 16-byte vectors of a block, stored one after the other, serialise it. */
  lemma FourVectors(r: Rows, h: nat)
    requires r.Valid() && 4 * h + 4 <= |r.v0|
    ensures Serialize(r.Half(h)) == Vector16(r.v0, h) + Vector16(r.v1, h) + Vector16(r.v2, h) + Vector16(r.v3, h)
  {
    hide Store;
    var a, b, c, d := r.v0[4 * h..4 * h + 4], r.v1[4 * h..4 * h + 4], r.v2[4 * h..4 * h + 4], r.v3[4 * h..4 * h + 4];
    StoreAppend(a, b, 4);
    StoreAppend(a + b, c, 4);
    StoreAppend(a + b + c, d, 4);
  }

  /** One block of 64 bytes, straight from the registers. */
  method XorBlock(dst: array<byte>, at: nat, src: array<byte>, from: nat, r: Rows, h: nat)
    requires r.Valid() && 4 * h + 4 <= |r.v0|
    requires at + 64 <= dst.Length && from + 64 <= src.Length && (src == dst ==> at == from)
    modifies dst
    ensures dst[..] == Splice(old(dst[..]), at, XorBytes(old(src[from..from + 64]), Serialize(r.Half(h))))
  {
    hide XorByte, Serialize, Vector16, Rows.Half, Splice, XorBytes;
    var a, b, c, d := Vector16(r.v0, h), Vector16(r.v1, h), Vector16(r.v2, h), Vector16(r.v3, h);
    ghost var before, x, y := dst[..], src[from..from + 32], src[from + 32..from + 64];
    assert x + y == src[from..from + 64];
    XorTwo(dst, at, src, from, a, b);
    if src == dst {
      SpliceAbove(before, at, XorBytes(x, a + b), 32);
      assert y == before[at + 32..at + 64];
      assert src[from + 32..from + 64] == dst[..][at + 32..at + 64];
    }
    XorTwo(dst, at + 32, src, from + 32, c, d);
    SpliceTwice(before, at, XorBytes(x, a + b), XorBytes(y, c + d));
    XorBytesAppend(x, y, a + b, c + d);
    FourVectors(r, h);
    assert Serialize(r.Half(h)) == (a + b) + (c + d);
  }

  /** The register of blocks counter and counter + 1 after all rounds. */
  ghost function Finished(key: Key, counter: u32, nonce: Nonce): (z: Rows)
    ensures z.Valid() && |z.v0| == 8
  {
    var s := StartRows(key, counter, nonce);
    AddRows(DoubleBlocks(s, 10), s)
  }

  /** One block: XOR with its 64 key stream bytes. */
  lemma EncryptBlock(key: Key, counter: u32, nonce: Nonce, x: seq<byte>)
    requires |x| <= 64
    ensures Encrypt(key, counter, nonce, x) == XorBytes(x, Block(key, counter, nonce)[..|x|])
  {
    hide Block, XorByte;
    forall i | 0 <= i < |x| ensures KeyByte(key, counter, nonce, i) == Block(key, counter, nonce)[i] {
      DivModUnique(counter, 0, counter, B32);
      DivModUnique(i, 0, i, 64);
    }
  }

  /** The two blocks of a finished register encrypt up to 128 bytes. */
  lemma EncryptPair(key: Key, counter: u32, nonce: Nonce, x: seq<byte>)
    requires |x| <= 128
    ensures var z := Finished(key, counter, nonce);
      Encrypt(key, counter, nonce, x) == XorBytes(x, (Serialize(z.Half(0)) + Serialize(z.Half(1)))[..|x|])
  {
    hide Block, XorByte, Encrypt, XorBytes, Serialize, StartRows, AddRows, DoubleBlocks, Rows.Half;
    PairIsTwoBlocks(key, counter, nonce);
    var a, b := Block(key, counter, nonce), Block(key, Add32(counter, 1), nonce);
    if |x| <= 64 {
      EncryptBlock(key, counter, nonce, x);
      assert (a + b)[..|x|] == a[..|x|];
    } else {
      var y, z := x[..64], x[64..];
      assert x == y + z && a[..64] == a;
      EncryptAppend(key, counter, nonce, y, z);
      EncryptBlock(key, counter, nonce, y);
      EncryptBlock(key, Add32(counter, 1), nonce, z);
      XorBytesAppend(y, z, a, b[..|z|]);
      assert (a + b)[..|x|] == a + b[..|z|];
    }
  }

  /** Two blocks of 128 bytes. */
  method XorPair(dst: array<byte>, at: nat, src: array<byte>, from: nat, z: Rows,
      ghost key: Key, ghost counter: u32, ghost nonce: Nonce)
    requires z == Finished(key, counter, nonce)
    requires at + 128 <= dst.Length && from + 128 <= src.Length && (src == dst ==> at == from)
    modifies dst
    ensures dst[..] == Splice(old(dst[..]), at, Encrypt(key, counter, nonce, old(src[from..from + 128])))
  {
    hide XorByte, Serialize, Finished, Rows.Half, Splice, XorBytes, Encrypt;
    ghost var a, b := Serialize(z.Half(0)), Serialize(z.Half(1));
    ghost var before, x, y := dst[..], src[from..from + 64], src[from + 64..from + 128];
    assert x + y == src[from..from + 128];
    XorBlock(dst, at, src, from, z, 0);
    if src == dst {
      SpliceAbove(before, at, XorBytes(x, a), 64);
      assert y == before[at + 64..at + 128];
      assert src[from + 64..from + 128] == dst[..][at + 64..at + 128];
    }
    XorBlock(dst, at + 64, src, from + 64, z, 1);
    SpliceTwice(before, at, XorBytes(x, a), XorBytes(y, b));
    XorBytesAppend(x, y, a, b);
    EncryptPair(key, counter, nonce, x + y);
    assert (a + b)[..128] == a + b;
  }

  /** Ten double rounds on two registers in step. */
  method TwoRegisters(a: Rows, b: Rows) returns (za: Rows, zb: Rows)
    requires a.Valid() && b.Valid()
    ensures za == AddRows(DoubleBlocks(a, 10), a) && zb == AddRows(DoubleBlocks(b, 10), b)
  {
    hide DoubleBlock, AddRows;
    za, zb := a, b;
    var i := 0;
    while i < 10
      invariant 0 <= i <= 10 && za == DoubleBlocks(a, i) && zb == DoubleBlocks(b, i)
    {
      za := DoubleBlock(za);
      zb := DoubleBlock(zb);
      i := i + 1;
    }
    za := AddRows(za, a);
    zb := AddRows(zb, b);
  }

  method OneRegister(a: Rows) returns (z: Rows)
    requires a.Valid()
    ensures z == AddRows(DoubleBlocks(a, 10), a)
  {
    hide DoubleBlock, AddRows;
    z := a;
    var i := 0;
    while i < 10
      invariant 0 <= i <= 10 && z == DoubleBlocks(a, i)
    {
      z := DoubleBlock(z);
      i := i + 1;
    }
    z := AddRows(z, a);
  }

  /** The bytes of the text up to `offset` are encrypted in place of what was there. */
  ghost predicate Progress(key: Key, counter: u32, nonce: Nonce, text: seq<byte>, before: seq<byte>, after: seq<byte>,
      lo: nat, offset: nat)
  {
    && offset <= |text| && lo + |text| <= |before|
    && after == Splice(before, lo, Encrypt(key, counter, nonce, text[..offset]))
  }

  /** Encrypting the next n bytes from the advanced counter extends the progress. */
  lemma ProgressExtends(key: Key, counter: u32, nonce: Nonce, text: seq<byte>, before: seq<byte>, middle: seq<byte>,
      after: seq<byte>, lo: nat, offset: nat, n: nat)
    requires Progress(key, counter, nonce, text, before, middle, lo, offset) && offset % 64 == 0 && offset + n <= |text|
    requires after == Splice(middle, lo + offset, Encrypt(key, Advance(counter, offset), nonce, text[offset..offset + n]))
    ensures Progress(key, counter, nonce, text, before, after, lo, offset + n)
  {
    hide Splice, Encrypt, Advance;
    var a, b := text[..offset], text[offset..offset + n];
    assert text[..offset + n] == a + b;
    EncryptAppend(key, counter, nonce, a, b);
    SpliceTwice(before, lo, Encrypt(key, counter, nonce, a), Encrypt(key, Advance(counter, offset), nonce, b));
  }

  /** In place, the bytes not yet reached still hold the text. */
  lemma Unread(key: Key, counter: u32, nonce: Nonce, text: seq<byte>, before: seq<byte>, after: seq<byte>, lo: nat, offset: nat, n: nat)
    requires Progress(key, counter, nonce, text, before, after, lo, offset) && before[lo..lo + |text|] == text
    requires offset + n <= |text|
    ensures |after| == |before| && after[lo + offset..lo + offset + n] == text[offset..offset + n]
  {
    hide Splice, Encrypt;
    SpliceAbove(before, lo, Encrypt(key, counter, nonce, text[..offset]), n);
    SubSlice(before, lo, |text|, offset, n);
  }

  /** What a step at `offset` reads, whether in place or not. */
  lemma ReadsText(key: Key, counter: u32, nonce: Nonce, text: seq<byte>, before: seq<byte>, src: array<byte>, srcLo: nat,
      dst: array<byte>, dstLo: nat, offset: nat, n: nat)
    requires srcLo + |text| <= src.Length && (src == dst ==> srcLo == dstLo) && offset + n <= |text|
    requires Progress(key, counter, nonce, text, before, dst[..], dstLo, offset)
    requires src != dst ==> src[srcLo..srcLo + |text|] == text
    requires src == dst ==> |before| == src.Length && before[srcLo..srcLo + |text|] == text
    ensures src[srcLo + offset..srcLo + offset + n] == text[offset..offset + n]
  {
    if src == dst {
      Unread(key, counter, nonce, text, before, dst[..], dstLo, offset, n);
      assert dst[..][dstLo + offset..dstLo + offset + n] == src[srcLo + offset..srcLo + offset + n];
    } else {
      SubSlice(src[..], srcLo, |text|, offset, n);
      assert src[..][srcLo..srcLo + |text|] == src[srcLo..srcLo + |text|];
      assert src[..][srcLo + offset..srcLo + offset + n] == src[srcLo + offset..srcLo + offset + n];
    }
  }

  lemma SubSlice(s: seq<byte>, lo: nat, len: nat, i: nat, n: nat)
    requires lo + len <= |s| && i + n <= len
    ensures s[lo..lo + len][i..i + n] == s[lo + i..lo + i + n]
  {
    var a, b := s[lo..lo + len][i..i + n], s[lo + i..lo + i + n];
    forall k | 0 <= k < n ensures a[k] == b[k] { assert a[k] == s[lo..lo + len][i + k] == s[lo + i + k] == b[k]; }
  }

  /** Encrypts 128 bytes at `offset` from a finished register. */
  method PairAt(key: Key, nonce: Nonce, ghost counter: u32, z: Rows, src: array<byte>, srcLo: nat, dst: array<byte>, dstLo: nat,
      offset: nat, ghost text: seq<byte>, ghost before: seq<byte>)
    requires srcLo + |text| <= src.Length && dstLo + |text| <= dst.Length && (src == dst ==> srcLo == dstLo)
    requires offset % 64 == 0 && offset + 128 <= |text|
    requires Progress(key, counter, nonce, text, before, dst[..], dstLo, offset)
    requires src != dst ==> src[srcLo..srcLo + |text|] == text
    requires src == dst ==> |before| == src.Length && before[srcLo..srcLo + |text|] == text
    requires z == Finished(key, Advance(counter, offset), nonce)
    modifies dst
    ensures Progress(key, counter, nonce, text, before, dst[..], dstLo, offset + 128)
  {
    hide Finished, Progress, Splice, Encrypt, Advance;
    ghost var middle := dst[..];
    ReadsText(key, counter, nonce, text, before, src, srcLo, dst, dstLo, offset, 128);
    XorPair(dst, dstLo + offset, src, srcLo + offset, z, key, Advance(counter, offset), nonce);
    ProgressExtends(key, counter, nonce, text, before, middle, dst[..], dstLo, offset, 128);
  }

  /** The 128 key stream bytes of a register, stored on the stack. */
  method StoreRegister(z: Rows) returns (ks: seq<byte>)
    requires z.Valid() && |z.v0| == 8
    ensures ks == Serialize(z.Half(0)) + Serialize(z.Half(1))
  {
    hide Serialize, Vector16, Rows.Half;
    ks := Vector16(z.v0, 0) + Vector16(z.v1, 0) + Vector16(z.v2, 0) + Vector16(z.v3, 0);
    FourVectors(z, 0);
    var second := Vector16(z.v0, 1) + Vector16(z.v1, 1) + Vector16(z.v2, 1) + Vector16(z.v3, 1);
    FourVectors(z, 1);
    ks := ks + second;
  }

  /** The last bytes, fewer than 128. */
  method TailAt(key: Key, nonce: Nonce, ghost counter: u32, z: Rows, src: array<byte>, srcLo: nat, dst: array<byte>, dstLo: nat,
      offset: nat, n: nat, ghost text: seq<byte>, ghost before: seq<byte>)
    requires srcLo + n <= src.Length && dstLo + n <= dst.Length && (src == dst ==> srcLo == dstLo) && |text| == n
    requires offset % 64 == 0 && offset < n < offset + 128
    requires Progress(key, counter, nonce, text, before, dst[..], dstLo, offset)
    requires src != dst ==> src[srcLo..srcLo + n] == text
    requires src == dst ==> |before| == src.Length && before[srcLo..srcLo + n] == text
    requires z == Finished(key, Advance(counter, offset), nonce)
    modifies dst
    ensures Progress(key, counter, nonce, text, before, dst[..], dstLo, n)
  {
    hide Finished, Progress, Splice, Encrypt, Advance, Serialize, Rows.Half, XorBytes;
    ghost var middle := dst[..];
    var rem := n - offset;
    ReadsText(key, counter, nonce, text, before, src, srcLo, dst, dstLo, offset, rem);
    var ks := StoreRegister(z);
    EncryptPair(key, Advance(counter, offset), nonce, text[offset..offset + rem]);
    XorInto(dst, dstLo + offset, src, srcLo + offset, ks[..rem]);
    ProgressExtends(key, counter, nonce, text, before, middle, dst[..], dstLo, offset, rem);
  }

  /** The whole stream for any length and any starting counter, in place or between
      two buffers: RFC 8439 encryption with a counter that wraps modulo 2^32. */
  method EncryptChaCha20(key: Key, nonce: Nonce, counter: u32, src: array<byte>, srcLo: nat, n: nat, dst: array<byte>, dstLo: nat)
    requires srcLo + n <= src.Length && dstLo + n <= dst.Length && (src == dst ==> srcLo == dstLo)
    modifies dst
    ensures dst[..] == Splice(old(dst[..]), dstLo, Encrypt(key, counter, nonce, old(src[srcLo..srcLo + n])))
  {
    hide Progress, Finished, StartRows, AddRows, DoubleBlocks, Advance, Encrypt, CounterRow, Add32, Splice;
    ghost var text, before := src[srcLo..srcLo + n], dst[..];
    NoProgress(key, counter, nonce, text, before, dstLo);
    StartRowsParts(key, nonce);
    var k := Load32(key);
    var st0, st1, st2 := CONSTANTS + CONSTANTS, k[..4] + k[..4], k[4..] + k[4..];
    var st3A := CounterRow(counter, nonce);
    var st3B := CounterRow(Add32(counter, 2), nonce);
    var offset := 0;
    CounterStart(counter);
    while offset + 256 <= n
      invariant 0 <= offset <= n && offset % 64 == 0
      invariant src != dst ==> src[srcLo..srcLo + n] == text
      invariant Progress(key, counter, nonce, text, before, dst[..], dstLo, offset)
      invariant st3A == CounterRow(Advance(counter, offset), nonce)
      invariant st3B == CounterRow(Advance(counter, offset + 128), nonce)
    {
      var zA, zB := TwoRegisters(Rows(st0, st1, st2, st3A), Rows(st0, st1, st2, st3B));
      FinishedFrom(key, Advance(counter, offset), nonce, zA);
      FinishedFrom(key, Advance(counter, offset + 128), nonce, zB);
      PairAt(key, nonce, counter, zA, src, srcLo, dst, dstLo, offset, text, before);
      PairAt(key, nonce, counter, zB, src, srcLo, dst, dstLo, offset + 128, text, before);
      CounterRowAdvances(Advance(counter, offset), nonce, 4);
      CounterRowAdvances(Advance(counter, offset + 128), nonce, 4);
      CounterSteps(counter, offset);
      st3A := Add32Lanes(st3A, [4, 0, 0, 0, 4, 0, 0, 0]);
      st3B := Add32Lanes(st3B, [4, 0, 0, 0, 4, 0, 0, 0]);
      offset := offset + 256;
    }
    while offset + 128 <= n
      invariant 0 <= offset <= n && offset % 64 == 0
      invariant src != dst ==> src[srcLo..srcLo + n] == text
      invariant Progress(key, counter, nonce, text, before, dst[..], dstLo, offset)
      invariant st3A == CounterRow(Advance(counter, offset), nonce)
    {
      var z := OneRegister(Rows(st0, st1, st2, st3A));
      FinishedFrom(key, Advance(counter, offset), nonce, z);
      PairAt(key, nonce, counter, z, src, srcLo, dst, dstLo, offset, text, before);
      CounterRowAdvances(Advance(counter, offset), nonce, 2);
      CounterSteps(counter, offset);
      st3A := Add32Lanes(st3A, [2, 0, 0, 0, 2, 0, 0, 0]);
      offset := offset + 128;
    }
    if offset < n {
      var z := OneRegister(Rows(st0, st1, st2, st3A));
      FinishedFrom(key, Advance(counter, offset), nonce, z);
      TailAt(key, nonce, counter, z, src, srcLo, dst, dstLo, offset, n, text, before);
    }
    ProgressDone(key, counter, nonce, text, before, dst[..], dstLo);
  }

  lemma NoProgress(key: Key, counter: u32, nonce: Nonce, text: seq<byte>, before: seq<byte>, lo: nat)
    requires lo + |text| <= |before|
    ensures Progress(key, counter, nonce, text, before, before, lo, 0)
  {
    assert Encrypt(key, counter, nonce, text[..0]) == [];
    SpliceNothing(before, lo);
  }

  lemma ProgressDone(key: Key, counter: u32, nonce: Nonce, text: seq<byte>, before: seq<byte>, after: seq<byte>, lo: nat)
    requires Progress(key, counter, nonce, text, before, after, lo, |text|)
    ensures lo + |text| <= |before| && after == Splice(before, lo, Encrypt(key, counter, nonce, text))
  {
    assert text[..|text|] == text;
  }

  lemma StartRowsParts(key: Key, nonce: Nonce)
    ensures forall c: u32 :: (StartRows(key, c, nonce)
      == Rows(CONSTANTS + CONSTANTS, Load32(key)[..4] + Load32(key)[..4], Load32(key)[4..] + Load32(key)[4..], CounterRow(c, nonce)))
  {}

  lemma FinishedFrom(key: Key, counter: u32, nonce: Nonce, z: Rows)
    requires var s := StartRows(key, counter, nonce); z == AddRows(DoubleBlocks(s, 10), s)
    ensures z == Finished(key, counter, nonce)
  {}

  lemma CounterStart(counter: u32)
    ensures counter == Advance(counter, 0) && Add32(counter, 2) == Advance(counter, 128)
  {}

  lemma CounterSteps(counter: u32, offset: nat)
    requires offset % 64 == 0
    ensures Add32(Advance(counter, offset), 2) == Advance(counter, offset + 128)
    ensures Add32(Advance(counter, offset), 4) == Advance(counter, offset + 256)
    ensures Add32(Advance(counter, offset + 128), 4) == Advance(counter, offset + 256 + 128)
  {
    assert (offset + 63) / 64 == offset / 64 && (offset + 128 + 63) / 64 == offset / 64 + 2;
    assert (offset + 256 + 63) / 64 == offset / 64 + 4 && (offset + 256 + 128 + 63) / 64 == offset / 64 + 6;
    ModSum(counter + offset / 64, 2);
    ModSum(counter + offset / 64, 4);
    ModSum(counter + offset / 64 + 2, 4);
  }
}
