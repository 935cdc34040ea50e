/** The byte layout of the authenticated string and of the key stream, as section 2.8 of RFC 8439 describes it. */
module AeadLayout {
  import opened Words
  import opened ChaCha20
  import opened Poly1305Spec
  import opened ChaChaStream
  import opened Aead
  import opened MonoChaCha
  import opened MonoAead

  /** Length rounded up to whole 16-byte blocks. */
  function Rounded(n: nat): (r: nat)
    ensures n <= r < n + 16 && r % 16 == 0
  {
    (n + 15) / 16 * 16
  }

  /** Associated data, zeros, ciphertext, zeros, and the two lengths in this order, little-endian. */
  lemma MacDataLayout(ad: seq<byte>, cipher: seq<byte>)
    requires |ad| < B64 && |cipher| < B64
    ensures var m, a := MacData(ad, cipher), Rounded(|ad|);
      var b := a + Rounded(|cipher|);
      && |m| == b + 16
      && m[..|ad|] == ad && (forall i :: |ad| <= i < a ==> m[i] == 0)
      && m[a..a + |cipher|] == cipher && (forall i :: a + |cipher| <= i < b ==> m[i] == 0)
      && LE(m[b..b + 8]) == |ad| && LE(m[b + 8..]) == |cipher|
  {
    hide Val, Digits, Pad16;
    PadRounds(|ad|);
    PadRounds(|cipher|);
    var a, b := ad + Pad16(|ad|), cipher + Pad16(|cipher|);
    var la, lc := ToLE(|ad|, 8), ToLE(|cipher|, 8);
    var m := MacData(ad, cipher);
    assert m == a + b + la + lc;
    FourParts(a, b, la, lc);
    Pow256();
    ValOfDigits(256, |ad|, 8);
    ValOfDigits(256, |cipher|, 8);
    DivModUnique(|ad|, 0, |ad|, B64);
    DivModUnique(|cipher|, 0, |cipher|, B64);
    assert m[..|ad|] == a[..|ad|] == ad;
    assert m[|a|..|a| + |cipher|] == b[..|cipher|] == cipher;
    forall i | |ad| <= i < |a| ensures m[i] == 0 { assert m[i] == Pad16(|ad|)[i - |ad|]; }
    forall i | |a| + |cipher| <= i < |a| + |b| ensures m[i] == 0 { assert m[i] == Pad16(|cipher|)[i - |a| - |cipher|]; }
  }

  lemma PadRounds(n: nat)
    ensures n + |Pad16(n)| == Rounded(n) && forall i :: 0 <= i < |Pad16(n)| ==> Pad16(n)[i] == 0
  {}

  lemma FourParts(a: seq<byte>, b: seq<byte>, c: seq<byte>, d: seq<byte>)
    ensures var m := a + b + c + d;
      && m[..|a|] == a && m[|a|..|a| + |b|] == b
      && m[|a| + |b|..|a| + |b| + |c|] == c && m[|a| + |b| + |c|..] == d
  {}

  /** One key stream from block 0 on: the first 32 bytes are the one-time key, the next 32 are
      thrown away, and the text is encrypted from byte 64 on. */
  lemma SealFollowsKeyBlock(key: ChaCha20.Key, nonce: Nonce, ad: seq<byte>, text: seq<byte>)
    ensures var c := Encrypt(key, 0, nonce, Zeros(64) + text);
      && OneTimeKey(key, nonce) == c[..32] && Seal(key, nonce, ad, text).cipher == c[64..]
  {
    hide ChaCha20.Block, Encrypt, XorBytes, Tag, MacData;
    var z, block := Zeros(64), ChaCha20.Block(key, 0, nonce);
    assert z == seq(|block|, i => 0) && block[..64] == block && Advance(0, 64) == 1;
    EncryptAppend(key, 0, nonce, z, text);
    EncryptBlock(key, 0, nonce, z);
    XorZeros(block);
  }

  /** Four zero bytes, then the last eight of the long nonce. */
  lemma ShortNonceLayout(nonce: seq<byte>)
    requires |nonce| == 24
    ensures LE(ShortenNonce(nonce)[..4]) == 0 && ShortenNonce(nonce)[4..] == nonce[16..]
  {
    var z := ShortenNonce(nonce)[..4];
    assert z == Zeros(4);
    ValZeros(z);
  }

  /** Stretch k of a ciphertext is the text there XORed with the block of the counter k further on, modulo 2^32. */
  lemma CipherStretch(key: ChaCha20.Key, counter: u32, nonce: Nonce, text: seq<byte>, k: nat, n: nat)
    requires 64 * k + n <= |text| && n <= 64
    ensures Encrypt(key, counter, nonce, text)[64 * k..64 * k + n]
      == XorBytes(text[64 * k..64 * k + n], ChaCha20.Block(key, (counter + k) % B32, nonce)[..n])
  {
    hide ChaCha20.Block, XorBytes, KeyByte;
    var a, x, rest := text[..64 * k], text[64 * k..64 * k + n], text[64 * k + n..];
    assert text == a + (x + rest);
    EncryptAppend(key, counter, nonce, a, x + rest);
    assert Advance(counter, 64 * k) == (counter + k) % B32;
    EncryptBlock(key, (counter + k) % B32, nonce, x);
    assert Encrypt(key, (counter + k) % B32, nonce, x + rest)[..n] == Encrypt(key, (counter + k) % B32, nonce, x);
  }

  /** In Monocypher's stream the block before the text is cut in two: the one-time key and the key of
      the next message. */
  lemma MessageFollowsKeyBlock(key: ChaCha20.Key, ctr: u64, nonce: ShortNonce, ad: seq<byte>, text: seq<byte>)
    ensures Encrypt64(key, ctr, nonce, Zeros(64) + text)
      == AuthKey(key, ctr, nonce) + NextKey(key, ctr, nonce) + SealMessage(key, ctr, nonce, ad, text).cipher
  {
    hide Block64, Encrypt64, XorBytes, Tag, MacData;
    var z, block := Zeros(64), Block64(key, ctr, nonce);
    assert z == seq(|block|, i => 0) && block[..64] == block && Advance64(ctr, 64) == Next(ctr);
    Encrypt64Append(key, ctr, nonce, z, text);
    Encrypt64Block(key, ctr, nonce, z);
    XorZeros(block);
  }

  /** The key of message k of a stream: bytes 32 to 63 of the block under the key before. */
  function MessageKey(key: ChaCha20.Key, ctr: u64, nonce: ShortNonce, k: nat): ChaCha20.Key
    decreases k
  {
    hide Block64;
    if k == 0 then key else Block64(MessageKey(key, ctr, nonce, k - 1), ctr, nonce)[32..64]
  }

  /** Message k of a stream is sealed under its own key, with the same nonce and counter. */
  lemma {:induction false} StreamAt(key: ChaCha20.Key, ctr: u64, nonce: ShortNonce, messages: seq<Message>, k: nat)
    requires k < |messages|
    ensures SealStream(key, ctr, nonce, messages)[k]
      == SealMessage(MessageKey(key, ctr, nonce, k), ctr, nonce, messages[k].ad, messages[k].text)
    decreases k
  {
    hide Block64, SealMessage;
    if k > 0 {
      StreamAt(NextKey(key, ctr, nonce), ctr, nonce, messages[1..], k - 1);
      KeyAfterNext(key, ctr, nonce, k - 1);
    }
  }

  lemma {:induction false} KeyAfterNext(key: ChaCha20.Key, ctr: u64, nonce: ShortNonce, k: nat)
    ensures MessageKey(NextKey(key, ctr, nonce), ctr, nonce, k) == MessageKey(key, ctr, nonce, k + 1)
    decreases k
  {
    hide Block64;
    if k > 0 { KeyAfterNext(key, ctr, nonce, k - 1); }
  }
}
