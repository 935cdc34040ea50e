/** Authenticated encryption: the construction of section 2.8 of RFC 8439, its
    extended-nonce form, and the fused implementation in 4096-byte chunks. */
module Aead {
  import opened Words
  import opened WordBytes
  import opened Poly1305Spec
  import opened ChaCha20

  import opened ChaChaSimd
  import opened ChaChaStream
  import Quad = Poly44
  import Lanes = PolyLanes

  // ----------------------------------------------------------- specification

  /** Zeros up to the next multiple of 16. */
  function Pad16(n: nat): (z: seq<byte>)
    ensures |z| < 16 && (n + |z|) % 16 == 0
  {
    Zeros((16 - n % 16) % 16)
  }

  /** What the authenticator covers. */
  function MacData(ad: seq<byte>, cipher: seq<byte>): (m: seq<byte>) {
    ad + Pad16(|ad|) + cipher + Pad16(|cipher|) + ToLE(|ad|, 8) + ToLE(|cipher|, 8)
  }

  function OneTimeKey(key: ChaCha20.Key, nonce: Nonce): (k: Poly1305Spec.Key) {
    hide ChaCha20.Block;
    ChaCha20.Block(key, 0, nonce)[..32]
  }

  datatype Sealed = Sealed(cipher: seq<byte>, tag: seq<byte>)

  /** Encrypt the whole text from block 1, then authenticate. */
  function Seal(key: ChaCha20.Key, nonce: Nonce, ad: seq<byte>, text: seq<byte>): Sealed {
    var c := Encrypt(key, 1, nonce, text);
    Sealed(c, Tag(OneTimeKey(key, nonce), MacData(ad, c)))
  }

  datatype Option<T> = Some(value: T) | None

  function Open(key: ChaCha20.Key, nonce: Nonce, ad: seq<byte>, s: Sealed): Option<seq<byte>> {
    if s.tag == Tag(OneTimeKey(key, nonce), MacData(ad, s.cipher)) then Some(Encrypt(key, 1, nonce, s.cipher)) else None
  }

  /** The nonce for the derived key: four zero bytes and the rest of the long nonce. */
  function ShortenNonce(nonce: seq<byte>): Nonce
    requires |nonce| == 24
  {
    Zeros(4) + nonce[16..]
  }

  // -------------------------------------------------------------- properties

  lemma MacDataAligned(ad: seq<byte>, cipher: seq<byte>)
    ensures |MacData(ad, cipher)| % 16 == 0
  {
    var a, b := |ad| + |Pad16(|ad|)|, |cipher| + |Pad16(|cipher|)|;
    assert |MacData(ad, cipher)| == a + b + 16;
    hide Pad16, MacData, Digits;
    SumOfMultiples(a, b, 16);
    SumOfMultiples(a + b, 16, 16);
  }

  /** Different associated data or cipher texts never give the same bytes to authenticate. */
  lemma MacDataInjective(a: seq<byte>, c: seq<byte>, b: seq<byte>, d: seq<byte>)
    requires |a| < B64 && |c| < B64 && |b| < B64 && |d| < B64 && MacData(a, c) == MacData(b, d)
    ensures a == b && c == d
  {
    hide Digits;
    var m, n := MacData(a, c), MacData(b, d);
    assert m[|m| - 8..] == ToLE(|c|, 8) && n[|n| - 8..] == ToLE(|d|, 8);
    SameNumber(|c|, |d|);
    assert m[|m| - 16..|m| - 8] == ToLE(|a|, 8) && n[|n| - 16..|n| - 8] == ToLE(|b|, 8);
    SameNumber(|a|, |b|);
    assert m[..|a|] == a && n[..|b|] == b;
    var at := |a| + |Pad16(|a|)|;
    assert m[at..at + |c|] == c && n[at..at + |d|] == d;
  }

  lemma SameNumber(x: nat, y: nat)
    requires x < B64 && y < B64 && ToLE(x, 8) == ToLE(y, 8)
    ensures x == y
  {
    Pow256();
    ValOfDigits(256, x, 8);
    ValOfDigits(256, y, 8);
    DivModUnique(x, 0, x, B64);
    DivModUnique(y, 0, y, B64);
  }

  /** Opening what was sealed returns the text. */
  lemma OpenSealed(key: ChaCha20.Key, nonce: Nonce, ad: seq<byte>, text: seq<byte>)
    ensures Open(key, nonce, ad, Seal(key, nonce, ad, text)) == Some(text)
  {
    hide Encrypt, Tag, MacData, OneTimeKey;
    EncryptTwice(key, 1, nonce, text);
  }

  /** Opening accepts nothing but the sealed form of the text it returns. */
  lemma OpenIsExact(key: ChaCha20.Key, nonce: Nonce, ad: seq<byte>, s: Sealed, text: seq<byte>)
    ensures Open(key, nonce, ad, s) == Some(text) <==> s == Seal(key, nonce, ad, text)
  {
    hide Encrypt, Tag, MacData, OneTimeKey;
    EncryptTwice(key, 1, nonce, text);
    EncryptTwice(key, 1, nonce, s.cipher);
  }

  // ------------------------------------------------ the choice of MAC engine

  datatype Engine = Scalar(q: Quad.QuadChain) | Vector(v: Lanes.FourLaneEngine)

  ghost function Objects(e: Engine): set<object> {
    match e
    case Scalar(q) => {q, q.buf}
    case Vector(v) => {v, v.buf}
  }

  ghost predicate Ready(e: Engine)
    reads Objects(e)
  {
    match e
    case Scalar(q) => q.Valid()
    case Vector(v) => v.Valid()
  }

  ghost function MacKey(e: Engine): Poly1305Spec.Key {
    match e
    case Scalar(q) => q.key
    case Vector(v) => v.key
  }

  ghost function Absorbed(e: Engine): seq<byte>
    reads Objects(e)
  {
    match e
    case Scalar(q) => q.absorbed
    case Vector(v) => v.absorbed
  }

  const POLY_V2_THRESHOLD := 1024

  /** The engine depends on the size; what it computes does not. */
  method NewPolyMac(key: Poly1305Spec.Key, total: nat) returns (e: Engine)
    ensures Ready(e) && fresh(Objects(e)) && MacKey(e) == key && Absorbed(e) == []
  {
    if total >= POLY_V2_THRESHOLD {
      var v := new Lanes.FourLaneEngine(key);
      e := Vector(v);
    } else {
      var q := new Quad.QuadChain(key);
      e := Scalar(q);
    }
  }

  method Update(e: Engine, msg: seq<byte>)
    requires Ready(e)
    modifies Objects(e)
    ensures Ready(e) && Absorbed(e) == old(Absorbed(e)) + msg
  {
    match e
    case Scalar(q) => q.Update(msg);
    case Vector(v) => v.UpdateStream(msg);
  }

  method Finish(e: Engine) returns (tag: seq<byte>)
    requires Ready(e)
    modifies Objects(e)
    ensures tag == Tag(MacKey(e), old(Absorbed(e)))
  {
    match e
    case Scalar(q) => tag := q.Finish();
    case Vector(v) => tag := v.Finish();
  }

  // --------------------------------------------------------- fused lock

  /** The first half of block 0, by encrypting zeros. */
  method PolyKey(key: ChaCha20.Key, nonce: Nonce) returns (k: Poly1305Spec.Key)
    ensures k == OneTimeKey(key, nonce)
  {
    hide Encrypt, Splice, ChaCha20.Block, XorBytes;
    var zeroBlock := new byte[64](i => 0);
    var polyKeyBlock := new byte[64](i => 0);
    ghost var before := polyKeyBlock[..];
    assert zeroBlock[0..64] == Zeros(64);
    EncryptChaCha20(key, nonce, 0, zeroBlock, 0, 64, polyKeyBlock, 0);
    EncryptBlock(key, 0, nonce, Zeros(64));
    assert ChaCha20.Block(key, 0, nonce)[..64] == ChaCha20.Block(key, 0, nonce);
    XorZeros(ChaCha20.Block(key, 0, nonce));
    SpliceAll(polyKeyBlock[..], before, ChaCha20.Block(key, 0, nonce));
    k := polyKeyBlock[..32];
  }

  lemma SpliceAll(e: seq<byte>, d: seq<byte>, middle: seq<byte>)
    requires |d| == |middle| && e == Splice(d, 0, middle)
    ensures e == middle
  {}

  function CiphertextPadding(length: nat): (n: nat)
    ensures n == |Pad16(length)|
  {
    if length % 16 == 0 then 0 else 16 - length % 16
  }

  /** Associated data and its padding. */
  method StartMac(key: ChaCha20.Key, nonce: Nonce, ad: seq<byte>, total: nat) returns (e: Engine)
    ensures Ready(e) && fresh(Objects(e)) && MacKey(e) == OneTimeKey(key, nonce)
    ensures Absorbed(e) == ad + Pad16(|ad|)
  {
    hide OneTimeKey, Ready, Absorbed, MacKey;
    var polyKey := PolyKey(key, nonce);
    e := NewPolyMac(polyKey, total + |ad|);
    if |ad| > 0 {
      Update(e, ad);
      assert Absorbed(e) == ad;
      var rem := |ad| % 16;
      if rem > 0 {
        Update(e, Zeros(16 - rem));
      }
    }
    assert ad + Pad16(|ad|) == if |ad| % 16 == 0 then ad else ad + Zeros(16 - |ad| % 16);
  }

  /** Padding of the cipher text and the two lengths. */
  method EndMac(e: Engine, ghost key: ChaCha20.Key, ghost nonce: Nonce, ad: seq<byte>, n: nat, ghost cipher: seq<byte>)
    returns (tag: seq<byte>)
    requires Ready(e) && MacKey(e) == OneTimeKey(key, nonce) && |cipher| == n
    requires Absorbed(e) == ad + Pad16(|ad|) + cipher
    modifies Objects(e)
    ensures tag == Tag(OneTimeKey(key, nonce), MacData(ad, cipher))
  {
    hide Digits, Tag, OneTimeKey, Ready, Absorbed, MacKey;
    var rem := CiphertextPadding(n);
    if rem > 0 {
      Update(e, Zeros(rem));
    } else {
      assert Absorbed(e) + Pad16(n) == Absorbed(e);
    }
    assert Absorbed(e) == ad + Pad16(|ad|) + cipher + Pad16(n);
    var sizeBlock := ToLE(|ad|, 8) + ToLE(n, 8);
    Update(e, sizeBlock);
    assert Absorbed(e) == MacData(ad, cipher);
    tag := Finish(e);
  }

  const CHUNK_SIZE := 4096

  datatype Outcome = Ok(buffer: array<byte>) | Error(message: string)

  /** The caller's buffer if it is large enough, otherwise a new one. */
  method Output(dst: array<byte>, n: nat) returns (buffer: array<byte>)
    ensures if dst.Length >= n then buffer == dst else fresh(buffer) && buffer.Length == n
  {
    if dst.Length >= n { buffer := dst; } else { buffer := new byte[n]; }
  }

  /** Between chunks: the counter, the bytes written and the bytes authenticated agree. */
  ghost predicate Fused(key: ChaCha20.Key, nonce: Nonce, text: seq<byte>, before: seq<byte>, after: seq<byte>, offset: nat,
      counter: u32, prefix: seq<byte>, absorbed: seq<byte>)
  {
    && offset <= |text| <= |before| && (offset % 64 == 0 || offset == |text|)
    && Progress(key, 1, nonce, text, before, after, 0, offset)
    && counter == Advance(1, offset)
    && absorbed == prefix + Encrypt(key, 1, nonce, text[..offset])
  }

  /** One chunk, encrypted from the running counter and authenticated at once. */
  lemma FusedStep(key: ChaCha20.Key, nonce: Nonce, text: seq<byte>, before: seq<byte>, middle: seq<byte>, after: seq<byte>,
      offset: nat, end: nat, counter: u32, prefix: seq<byte>, absorbed: seq<byte>)
    requires Fused(key, nonce, text, before, middle, offset, counter, prefix, absorbed)
    requires offset < end <= |text| && |middle| == |before| && (end == offset + CHUNK_SIZE || end == |text|)
    requires after == Splice(middle, offset, Encrypt(key, counter, nonce, text[offset..end]))
    ensures |after| == |before|
    ensures Fused(key, nonce, text, before, after, end, (counter + (end - offset + 63) / 64) % B32, prefix,
        absorbed + after[offset..end])
  {
    hide Encrypt, Splice;
    assert offset % 64 == 0 && (end % 64 == 0 || end == |text|);
    ProgressExtends(key, 1, nonce, text, before, middle, after, 0, offset, end - offset);
    CounterAfter(1, offset, end - offset);
    EncryptAppend(key, 1, nonce, text[..offset], text[offset..end]);
    assert text[..end] == text[..offset] + text[offset..end];
    SpliceMiddle(middle, offset, Encrypt(key, counter, nonce, text[offset..end]));
  }

  lemma SpliceMiddle(d: seq<byte>, at: nat, m: seq<byte>)
    requires at + |m| <= |d|
    ensures Splice(d, at, m)[at..at + |m|] == m
  {}

  lemma FusedStart(key: ChaCha20.Key, nonce: Nonce, text: seq<byte>, before: seq<byte>, prefix: seq<byte>)
    requires |text| <= |before|
    ensures Fused(key, nonce, text, before, before, 0, 1, prefix, prefix)
  {
    NoProgress(key, 1, nonce, text, before, 0);
    assert Encrypt(key, 1, nonce, text[..0]) == [];
  }

  lemma FusedEnd(key: ChaCha20.Key, nonce: Nonce, text: seq<byte>, before: seq<byte>, after: seq<byte>,
      counter: u32, prefix: seq<byte>, absorbed: seq<byte>)
    requires Fused(key, nonce, text, before, after, |text|, counter, prefix, absorbed)
    ensures after == Splice(before, 0, Encrypt(key, 1, nonce, text))
    ensures absorbed == prefix + Encrypt(key, 1, nonce, text)
  {
    assert text[..|text|] == text;
  }

  /** Lock with a 12-byte nonce: the text may be sealed in place. */
  method SubkeyLock(dst: array<byte>, outMac: array<byte>, subkey: seq<byte>, nonce: seq<byte>, ad: seq<byte>,
      plaintext: array<byte>) returns (r: Outcome)
    requires outMac.Length == 16 && outMac != dst && outMac != plaintext
    modifies dst, outMac
    ensures |subkey| != 32 ==> r == Error("c2simd: subkey must be 32 bytes")
    ensures |subkey| == 32 && |nonce| != 12 ==> r == Error("c2simd: IETF nonce must be 12 bytes")
    ensures r.Error? ==> (|subkey| != 32 || |nonce| != 12) && dst[..] == old(dst[..]) && outMac[..] == old(outMac[..])
    ensures r.Ok? ==> IsSealed(r.buffer, outMac, subkey, nonce, ad, old(plaintext[..]))
    ensures r.Ok? ==> if dst.Length >= plaintext.Length then r.buffer == dst else fresh(r.buffer)
  {
    if |subkey| != 32 { return Error("c2simd: subkey must be 32 bytes"); }
    if |nonce| != 12 { return Error("c2simd: IETF nonce must be 12 bytes"); }
    var buffer := LockBody(dst, outMac, subkey, nonce, ad, plaintext);
    r := Ok(buffer);
  }

  /** The buffer starts with the cipher text of RFC 8439 and the tag is its tag. */
  ghost predicate IsSealed(buffer: array<byte>, outMac: array<byte>, key: seq<byte>, nonce: seq<byte>, ad: seq<byte>,
      text: seq<byte>)
    reads buffer, outMac
  {
    && |key| == 32 && |nonce| == 12 && |text| <= buffer.Length
    && Sealed(buffer[..|text|], outMac[..]) == Seal(key, nonce, ad, text)
  }

  method LockBody(dst: array<byte>, outMac: array<byte>, key: ChaCha20.Key, nonce: Nonce, ad: seq<byte>, plaintext: array<byte>)
    returns (cipherText: array<byte>)
    requires outMac.Length == 16 && outMac != dst && outMac != plaintext
    modifies dst, outMac
    ensures IsSealed(cipherText, outMac, key, nonce, ad, old(plaintext[..]))
    ensures if dst.Length >= plaintext.Length then cipherText == dst else fresh(cipherText)
    ensures dst.Length >= plaintext.Length ==> dst[plaintext.Length..] == old(dst[plaintext.Length..])
  {
    hide Fused, Splice, Encrypt, Advance, Ready, Absorbed, MacKey, Tag, OneTimeKey, MacData, Pad16;
    var n := plaintext.Length;
    var e := StartMac(key, nonce, ad, n);
    cipherText := Output(dst, n);
    ghost var text, before, prefix := plaintext[..], cipherText[..], ad + Pad16(|ad|);
    var offset := 0;
    var counter: u32 := 1;
    FusedStart(key, nonce, text, before, prefix);
    while offset < n
      invariant 0 <= offset <= n && Ready(e) && MacKey(e) == OneTimeKey(key, nonce)
      invariant |before| == cipherText.Length
      invariant plaintext != cipherText ==> plaintext[..] == text
      invariant outMac[..] == old(outMac[..])
      invariant Fused(key, nonce, text, before, cipherText[..], offset, counter, prefix, Absorbed(e))
    {
      var end := if offset + CHUNK_SIZE > n then n else offset + CHUNK_SIZE;
      ghost var middle, absorbed := cipherText[..], Absorbed(e);
      ChunkText(key, nonce, text, before, plaintext, cipherText, offset, end, counter, prefix, absorbed);
      EncryptChaCha20(key, nonce, counter, plaintext, offset, end - offset, cipherText, offset);
      FusedStep(key, nonce, text, before, middle, cipherText[..], offset, end, counter, prefix, absorbed);
      counter := (counter + (end - offset + 63) / 64) % B32;
      Update(e, cipherText[offset..end]);
      assert cipherText[..][offset..end] == cipherText[offset..end];
      offset := end;
    }
    FusedEnd(key, nonce, text, before, cipherText[..], counter, prefix, Absorbed(e));
    var tag := EndMac(e, key, nonce, ad, n, Encrypt(key, 1, nonce, text));
    forall i | 0 <= i < 16 { outMac[i] := tag[i]; }
    assert outMac[..] == tag;
    SealedPrefix(before, cipherText[..], Encrypt(key, 1, nonce, text));
    assert cipherText[..][..n] == cipherText[..n];
  }

  lemma SealedPrefix(before: seq<byte>, after: seq<byte>, c: seq<byte>)
    requires |c| <= |before| && after == Splice(before, 0, c)
    ensures after[..|c|] == c && after[|c|..] == before[|c|..]
  {}

  /** What the next chunk reads, in place or not. */
  lemma ChunkText(key: ChaCha20.Key, nonce: Nonce, text: seq<byte>, before: seq<byte>, plaintext: array<byte>, cipherText: array<byte>,
      offset: nat, end: nat, counter: u32, prefix: seq<byte>, absorbed: seq<byte>)
    requires Fused(key, nonce, text, before, cipherText[..], offset, counter, prefix, absorbed)
    requires |text| == plaintext.Length && offset <= end <= |text| && |before| == cipherText.Length
    requires if plaintext == cipherText then before == text else plaintext[..] == text
    ensures plaintext[offset..end] == text[offset..end]
  {
    hide Encrypt, Splice;
    assert before[0..|text|] == before[..|text|];
    if plaintext == cipherText { assert before[..|text|] == text; } else { assert plaintext[0..|text|] == plaintext[..]; }
    ReadsText(key, 1, nonce, text, before, plaintext, 0, cipherText, 0, offset, end - offset);
  }

  // -------------------------------------------------------- fused unlock

  /** Verifies first; only a matching tag gives plain text. */
  method UnlockBody(dst: array<byte>, key: ChaCha20.Key, nonce: Nonce, ad: seq<byte>, ciphertext: array<byte>, mac: seq<byte>)
    returns (r: Outcome)
    requires |mac| == 16
    modifies dst
    ensures IsOpened(r, key, nonce, ad, old(ciphertext[..]), mac)
    ensures r.Error? ==> dst[..] == old(dst[..])
    ensures r.Ok? ==> if dst.Length >= ciphertext.Length then r.buffer == dst else fresh(r.buffer)
  {
    hide Fused, Splice, Encrypt, Advance, Ready, Absorbed, MacKey, Tag, OneTimeKey, MacData, Pad16;
    var n := ciphertext.Length;
    ghost var text := ciphertext[..];
    var e := StartMac(key, nonce, ad, n);
    Update(e, ciphertext[..]);
    var computedMac := EndMac(e, key, nonce, ad, n, text);
    if mac != computedMac { return Error("c2simd: MAC verification failed"); }
    var plainText := Output(dst, n);
    ghost var before := plainText[..];
    var offset := 0;
    var counter: u32 := 1;
    NoProgress(key, 1, nonce, text, before, 0);
    CounterStart(1);
    while offset < n
      invariant 0 <= offset <= n && (offset % 64 == 0 || offset == n) && counter == Advance(1, offset)
      invariant |before| == plainText.Length
      invariant ciphertext != plainText ==> ciphertext[..] == text
      invariant Progress(key, 1, nonce, text, before, plainText[..], 0, offset)
    {
      var end := if offset + CHUNK_SIZE > n then n else offset + CHUNK_SIZE;
      ghost var middle := plainText[..];
      UnlockText(key, nonce, text, before, ciphertext, plainText, offset, end);
      EncryptChaCha20(key, nonce, counter, ciphertext, offset, end - offset, plainText, offset);
      ProgressExtends(key, 1, nonce, text, before, middle, plainText[..], 0, offset, end - offset);
      CounterAfter(1, offset, end - offset);
      counter := (counter + (end - offset + 63) / 64) % B32;
      NextCounterIs(Advance(1, offset), end - offset);
      offset := end;
    }
    ProgressDone(key, 1, nonce, text, before, plainText[..], 0);
    SealedPrefix(before, plainText[..], Encrypt(key, 1, nonce, text));
    assert plainText[..][..n] == plainText[..n];
    r := Ok(plainText);
  }

  lemma NextCounterIs(counter: u32, n: nat)
    ensures Advance(counter, n) == (counter + (n + 63) / 64) % B32
  {}

  lemma UnlockText(key: ChaCha20.Key, nonce: Nonce, text: seq<byte>, before: seq<byte>, ciphertext: array<byte>, plainText: array<byte>,
      offset: nat, end: nat)
    requires Progress(key, 1, nonce, text, before, plainText[..], 0, offset)
    requires |text| == ciphertext.Length && offset <= end <= |text| && |before| == plainText.Length
    requires if ciphertext == plainText then before == text else ciphertext[..] == text
    ensures ciphertext[offset..end] == text[offset..end]
  {
    hide Encrypt, Splice;
    if ciphertext == plainText { assert before[0..|text|] == text; } else { assert ciphertext[0..|text|] == ciphertext[..]; }
    ReadsText(key, 1, nonce, text, before, ciphertext, 0, plainText, 0, offset, end - offset);
  }

  /** Success exactly when the tag is the recomputed one, with the opened text in the buffer. */
  ghost predicate IsOpened(r: Outcome, key: seq<byte>, nonce: seq<byte>, ad: seq<byte>, cipher: seq<byte>, mac: seq<byte>)
    requires |key| == 32 && |nonce| == 12
    reads if r.Ok? then {r.buffer} else {}
  {
    match r
    case Ok(buffer) => |cipher| <= buffer.Length && Open(key, nonce, ad, Sealed(cipher, mac)) == Some(buffer[..|cipher|])
    case Error(_) => Open(key, nonce, ad, Sealed(cipher, mac)) == None
  }

  method SubkeyUnlock(dst: array<byte>, subkey: seq<byte>, nonce: seq<byte>, ad: seq<byte>, ciphertext: array<byte>, mac: seq<byte>)
    returns (r: Outcome)
    modifies dst
    ensures |subkey| != 32 ==> r == Error("c2simd: subkey must be 32 bytes")
    ensures |subkey| == 32 && |nonce| != 12 ==> r == Error("c2simd: IETF nonce must be 12 bytes")
    ensures |subkey| == 32 && |nonce| == 12 && |mac| != 16 ==> r == Error("c2simd: MAC tag must be 16 bytes")
    ensures |subkey| == 32 && |nonce| == 12 && |mac| == 16 ==> IsOpened(r, subkey, nonce, ad, old(ciphertext[..]), mac)
    ensures r.Error? ==> dst[..] == old(dst[..])
  {
    if |subkey| != 32 { return Error("c2simd: subkey must be 32 bytes"); }
    if |nonce| != 12 { return Error("c2simd: IETF nonce must be 12 bytes"); }
    if |mac| != 16 { return Error("c2simd: MAC tag must be 16 bytes"); }
    r := UnlockBody(dst, subkey, nonce, ad, ciphertext, mac);
  }

  // ------------------------------------------------ 24-byte nonces

  /** Subkey and short nonce of a 24-byte nonce. */
  method Derive(key: ChaCha20.Key, nonce: seq<byte>) returns (subkey: ChaCha20.Key, short: Nonce)
    requires |nonce| == 24
    ensures subkey == HChaCha(key, nonce[..16]) && short == ShortenNonce(nonce)
  {
    hide HChaCha;
    var subKeyBlock := new byte[32](i => 0);
    HChaCha20(key, nonce[..16], subKeyBlock);
    subkey := subKeyBlock[..32];
    var derivedNonce := new byte[12](i => 0);
    forall i | 0 <= i < 8 { derivedNonce[4 + i] := nonce[16 + i]; }
    assert derivedNonce[..] == ShortenNonce(nonce);
    short := derivedNonce[..];
  }

  /** Lock with a 24-byte nonce: the subkey lock of the derived key and nonce. */
  method FusedLock(dst: array<byte>, outMac: array<byte>, key: seq<byte>, nonce: seq<byte>, ad: seq<byte>,
      plaintext: array<byte>) returns (r: Outcome)
    requires outMac.Length == 16 && outMac != dst && outMac != plaintext
    modifies dst, outMac
    ensures |key| != 32 ==> r == Error("c2simd: key must be 32 bytes")
    ensures |key| == 32 && |nonce| != 24 ==> r == Error("c2simd: XChaCha20 nonce must be 24 bytes")
    ensures r.Error? ==> (|key| != 32 || |nonce| != 24) && dst[..] == old(dst[..]) && outMac[..] == old(outMac[..])
    ensures r.Ok? ==> (|key| == 32 && |nonce| == 24
      && IsSealed(r.buffer, outMac, HChaCha(key, nonce[..16]), ShortenNonce(nonce), ad, old(plaintext[..])))
    ensures r.Ok? ==> if dst.Length >= plaintext.Length then r.buffer == dst else fresh(r.buffer)
  {
    hide HChaCha;
    if |key| != 32 { return Error("c2simd: key must be 32 bytes"); }
    if |nonce| != 24 { return Error("c2simd: XChaCha20 nonce must be 24 bytes"); }
    var subkey, short := Derive(key, nonce);
    var buffer := LockBody(dst, outMac, subkey, short, ad, plaintext);
    r := Ok(buffer);
  }

  method FusedUnlock(dst: array<byte>, key: seq<byte>, nonce: seq<byte>, ad: seq<byte>, ciphertext: array<byte>, mac: seq<byte>)
    returns (r: Outcome)
    modifies dst
    ensures |key| != 32 ==> r == Error("c2simd: key must be 32 bytes")
    ensures |key| == 32 && |nonce| != 24 ==> r == Error("c2simd: XChaCha20 nonce must be 24 bytes")
    ensures |key| == 32 && |nonce| == 24 && |mac| != 16 ==> r == Error("c2simd: MAC tag must be 16 bytes")
    ensures |key| == 32 && |nonce| == 24 && |mac| == 16
      ==> IsOpened(r, HChaCha(key, nonce[..16]), ShortenNonce(nonce), ad, old(ciphertext[..]), mac)
    ensures r.Error? ==> dst[..] == old(dst[..])
  {
    hide HChaCha;
    if |key| != 32 { return Error("c2simd: key must be 32 bytes"); }
    if |nonce| != 24 { return Error("c2simd: XChaCha20 nonce must be 24 bytes"); }
    if |mac| != 16 { return Error("c2simd: MAC tag must be 16 bytes"); }
    var subkey, short := Derive(key, nonce);
    r := UnlockBody(dst, subkey, short, ad, ciphertext, mac);
  }

  /** Locking and then unlocking returns the original text, each through the 24-byte-nonce or the
      subkey entry point. */
  method LockThenUnlock(key: seq<byte>, nonce: seq<byte>, ad: seq<byte>, plaintext: array<byte>, subkeyLock: bool,
      subkeyUnlock: bool) returns (r: Outcome)
    requires |key| == 32 && |nonce| == 24
    ensures r.Ok? && plaintext.Length <= r.buffer.Length && r.buffer[..plaintext.Length] == plaintext[..]
  {
    hide HChaCha, Seal, Open, ShortenNonce;
    var outMac, none := new byte[16](i => 0), new byte[0];
    var subkey, short := Derive(key, nonce);
    var locked;
    if subkeyLock {
      locked := SubkeyLock(none, outMac, subkey, short, ad, plaintext);
    } else {
      locked := FusedLock(none, outMac, key, nonce, ad, plaintext);
    }
    var cipher := new byte[plaintext.Length](i requires 0 <= i < plaintext.Length <= locked.buffer.Length reads locked.buffer => locked.buffer[i]);
    assert cipher[..] == locked.buffer[..plaintext.Length];
    OpenSealed(subkey, short, ad, plaintext[..]);
    if subkeyUnlock {
      r := SubkeyUnlock(none, subkey, short, ad, cipher, outMac[..]);
    } else {
      r := FusedUnlock(none, key, nonce, ad, cipher, outMac[..]);
    }
  }
}
