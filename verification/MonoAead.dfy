/** Monocypher's authenticated encryption: 64-bit block counter, scalar rounds,
    32-bit limb MAC. For every text it can share with the IETF counter it seals
    exactly as the fused implementation does. */
module MonoAead {
  import opened Words
  import opened MonoUtil
  import Poly1305Spec
  import opened ChaCha20
  import opened ChaChaStream
  import opened MonoChaCha
  import opened Aead
  import opened Poly32

  // ---------------------------------------------------------------- the MAC

  lemma GapIsPadding(n: u64)
    ensures Gap(n, 16) == |Pad16(n)|
  {
    hide Gap;
    GapAligns(n, 16);
    var g, p := Gap(n, 16), |Pad16(n)|;
    assert 0 <= p < 16 && (n + p) % 16 == 0;
    DivModUnique(g - p, (n + g) / 16 - (n + p) / 16, 0, 16);
    if g != p { SmallMultiple(g - p); }
  }

  lemma SmallMultiple(d: int)
    requires -16 < d < 16 && d != 0
    ensures d % 16 != 0
  {}

  /** lock_auth: the tag of the RFC 8439 layout, computed by the 32-bit limb engine. */
  method LockAuth(authKey: Poly1305Spec.Key, ad: seq<byte>, cipher: seq<byte>) returns (mac: seq<byte>)
    requires |ad| < B64 && |cipher| < B64
    ensures mac == Poly1305Spec.Tag(authKey, MacData(ad, cipher))
  {
    hide Digits, Poly1305Spec.Tag, Gap, PolyContext.Valid, Pad16;
    var sizes := ToLE(|ad|, 8) + ToLE(|cipher|, 8);
    var ctx := new PolyContext(authKey);
    GapIsPadding(|ad|);
    GapIsPadding(|cipher|);
    ctx.Update(ad);
    ctx.Update(Zeros(Gap(|ad|, 16)));
    ctx.Update(cipher);
    ctx.Update(Zeros(Gap(|cipher|, 16)));
    ctx.Update(sizes);
    PaddingIsZeros(|ad|);
    PaddingIsZeros(|cipher|);
    assert ctx.absorbed == MacData(ad, cipher);
    mac := ctx.Final();
  }

  lemma PaddingIsZeros(n: nat)
    ensures Pad16(n) == Zeros(|Pad16(n)|)
  {}

  // ------------------------------------------------------------ the context

  function AuthKey(key: ChaCha20.Key, ctr: u64, nonce: ShortNonce): Poly1305Spec.Key {
    hide Block64;
    Block64(key, ctr, nonce)[..32]
  }

  function NextKey(key: ChaCha20.Key, ctr: u64, nonce: ShortNonce): ChaCha20.Key {
    hide Block64;
    Block64(key, ctr, nonce)[32..]
  }

  function Next(ctr: u64): u64 { (ctr + 1) % B64 }

  /** One message of a stream: block `ctr` gives the one-time key and the next key. */
  function SealMessage(key: ChaCha20.Key, ctr: u64, nonce: ShortNonce, ad: seq<byte>, text: seq<byte>): Sealed {
    var c := Encrypt64(key, Next(ctr), nonce, text);
    Sealed(c, Poly1305Spec.Tag(AuthKey(key, ctr, nonce), MacData(ad, c)))
  }

  /** The part of an XChaCha20 nonce left after deriving the subkey. */
  function XNonce(nonce: seq<byte>): ShortNonce
    requires |nonce| == 24
  {
    nonce[16..]
  }

  /** The text and nothing else, for the right tag. */
  function OpenMessage(key: ChaCha20.Key, ctr: u64, nonce: ShortNonce, ad: seq<byte>, s: Sealed): Option<seq<byte>> {
    if s.tag == Poly1305Spec.Tag(AuthKey(key, ctr, nonce), MacData(ad, s.cipher))
    then Some(Encrypt64(key, Next(ctr), nonce, s.cipher)) else None
  }

  datatype Message = Message(ad: seq<byte>, text: seq<byte>)

  /** What a sequence of writes on one context produces: every message has its own key. */
  function SealStream(key: ChaCha20.Key, ctr: u64, nonce: ShortNonce, messages: seq<Message>): (s: seq<Sealed>)
    ensures |s| == |messages|
    decreases |messages|
  {
    hide NextKey, SealMessage;
    if messages == [] then [] else
      [SealMessage(key, ctr, nonce, messages[0].ad, messages[0].text)]
        + SealStream(NextKey(key, ctr, nonce), ctr, nonce, messages[1..])
  }

  /** What a sequence of reads accepts: all of the messages, or none when one is refused. */
  function OpenStream(key: ChaCha20.Key, ctr: u64, nonce: ShortNonce, ads: seq<seq<byte>>, s: seq<Sealed>): Option<seq<Message>>
    requires |ads| == |s|
    decreases |s|
  {
    hide NextKey, OpenMessage;
    if s == [] then Some([]) else
      match OpenMessage(key, ctr, nonce, ads[0], s[0])
      case None => None
      case Some(text) =>
        match OpenStream(NextKey(key, ctr, nonce), ctr, nonce, ads[1..], s[1..])
        case None => None
        case Some(rest) => Some([Message(ads[0], text)] + rest)
  }

  lemma OpenMessageIsExact(key: ChaCha20.Key, ctr: u64, nonce: ShortNonce, ad: seq<byte>, s: Sealed, text: seq<byte>)
    ensures OpenMessage(key, ctr, nonce, ad, s) == Some(text) <==> s == SealMessage(key, ctr, nonce, ad, text)
  {
    hide Encrypt64, Poly1305Spec.Tag, MacData, AuthKey;
    Encrypt64Twice(key, Next(ctr), nonce, s.cipher);
    Encrypt64Twice(key, Next(ctr), nonce, text);
  }

  /** The reader gets exactly the messages written, in order, and nothing else is accepted. */
  lemma {:induction false} OpenStreamIsExact(key: ChaCha20.Key, ctr: u64, nonce: ShortNonce, ads: seq<seq<byte>>, s: seq<Sealed>,
      messages: seq<Message>)
    requires |ads| == |s|
    ensures OpenStream(key, ctr, nonce, ads, s) == Some(messages)
      <==> |messages| == |s| && s == SealStream(key, ctr, nonce, messages) && forall i :: 0 <= i < |s| ==> ads[i] == messages[i].ad
    decreases |s|
  {
    hide OpenMessage, SealMessage, NextKey;
    if s != [] && messages != [] {
      var next := NextKey(key, ctr, nonce);
      OpenMessageIsExact(key, ctr, nonce, ads[0], s[0], messages[0].text);
      OpenStreamIsExact(next, ctr, nonce, ads[1..], s[1..], messages[1..]);
      OpenStreamStep(key, ctr, nonce, ads, s, messages);
      SealStreamStep(key, ctr, nonce, ads, s, messages);
    }
  }

  lemma OpenStreamStep(key: ChaCha20.Key, ctr: u64, nonce: ShortNonce, ads: seq<seq<byte>>, s: seq<Sealed>, messages: seq<Message>)
    requires |ads| == |s| && s != [] && messages != []
    ensures OpenStream(key, ctr, nonce, ads, s) == Some(messages)
      <==> (messages[0].ad == ads[0] && OpenMessage(key, ctr, nonce, ads[0], s[0]) == Some(messages[0].text)
        && OpenStream(NextKey(key, ctr, nonce), ctr, nonce, ads[1..], s[1..]) == Some(messages[1..]))
  {
    hide OpenMessage, NextKey;
    assert messages == [messages[0]] + messages[1..];
    match OpenStream(NextKey(key, ctr, nonce), ctr, nonce, ads[1..], s[1..])
    case None =>
    case Some(rest) =>
      assert forall m: Message :: ([m] + rest)[0] == m && ([m] + rest)[1..] == rest;
  }

  lemma SealStreamStep(key: ChaCha20.Key, ctr: u64, nonce: ShortNonce, ads: seq<seq<byte>>, s: seq<Sealed>, messages: seq<Message>)
    requires |ads| == |s| && s != [] && messages != []
    ensures s == SealStream(key, ctr, nonce, messages)
      <==> (s[0] == SealMessage(key, ctr, nonce, messages[0].ad, messages[0].text)
        && s[1..] == SealStream(NextKey(key, ctr, nonce), ctr, nonce, messages[1..]))
    ensures |messages| == |s| ==> ((forall i :: 0 <= i < |s| ==> ads[i] == messages[i].ad)
      <==> ads[0] == messages[0].ad && forall i :: 0 <= i < |s| - 1 ==> ads[1..][i] == messages[1..][i].ad)
  {
    hide SealMessage, NextKey;
    assert s == [s[0]] + s[1..];
    if |messages| == |s| && ads[0] == messages[0].ad && forall i :: 0 <= i < |s| - 1 ==> ads[1..][i] == messages[1..][i].ad {
      forall i | 0 <= i < |s| ensures ads[i] == messages[i].ad {
        if i > 0 { assert ads[i] == ads[1..][i - 1] && messages[i] == messages[1..][i - 1]; }
      }
    }
  }

  class AeadContext {
    const counter: u64
    const nonce: ShortNonce
    var key: ChaCha20.Key

    /** Subkey from the first 16 nonce bytes, the other 8 as nonce, counter 0. */
    constructor InitX(key: ChaCha20.Key, nonce24: seq<byte>)
      requires |nonce24| == 24
      ensures this.key == HChaCha(key, nonce24[..16]) && nonce == XNonce(nonce24) && counter == 0
    {
      hide HChaCha;
      var subkey := ChaCha20H(key, nonce24[..16]);
      this.key := subkey;
      nonce := nonce24[16..];
      counter := 0;
    }

    /** Counter 0 and the first half of an 8-byte nonce block. */
    constructor InitDjb(key: ChaCha20.Key, nonce8: ShortNonce)
      ensures this.key == key && nonce == nonce8 && counter == 0
    {
      this.key := key;
      nonce := nonce8;
      counter := 0;
    }

    /** The IETF form: the first four nonce bytes become the high counter word. */
    constructor InitIetf(key: ChaCha20.Key, nonce12: Nonce)
      ensures this.key == key && LongNonce(counter, nonce) == nonce12 && LowWord(counter) == 0
    {
      this.key := key;
      nonce := nonce12[4..];
      counter := IetfCounter(nonce12[..4]);
      new;
      IetfNonce(nonce12);
    }

    /** 64 key stream bytes. */
    method BlockZero() returns (authKey: seq<byte>)
      ensures authKey == Block64(key, counter, nonce)
    {
      hide Encrypt64, Splice, Block64, XorBytes;
      var buffer := new byte[64](i => 0);
      ghost var before := buffer[..];
      var next := ChaCha20Djb(buffer, null, 64, key, nonce, counter);
      Encrypt64Block(key, counter, nonce, Zeros(64));
      TextIs(null, 64);
      assert Block64(key, counter, nonce)[..64] == Block64(key, counter, nonce);
      XorZeros(Block64(key, counter, nonce));
      SpliceAll(buffer[..], before, Block64(key, counter, nonce));
      authKey := buffer[..];
    }

    /** Seals a message, possibly in place, and replaces the key. */
    method Write(cipherText: array<byte>, ad: seq<byte>, plain: array<byte>, n: nat) returns (mac: seq<byte>)
      requires n <= cipherText.Length && n <= plain.Length && |ad| < B64 && n < B64
      modifies this, cipherText
      ensures Sealed(cipherText[..n], mac) == SealMessage(old(key), counter, nonce, ad, old(plain[..n]))
      ensures cipherText[n..] == old(cipherText[n..])
      ensures key == NextKey(old(key), counter, nonce)
    {
      hide Encrypt64, Splice, Block64, Poly1305Spec.Tag, MacData;
      ghost var before, text := cipherText[..], plain[..n];
      var authKey := BlockZero();
      TextIs(plain, n);
      var next := ChaCha20Djb(cipherText, plain, n, key, nonce, Next(counter));
      SealedPrefix(before, cipherText[..], Encrypt64(key, Next(counter), nonce, text));
      assert cipherText[..][..n] == cipherText[..n];
      mac := LockAuth(authKey[..32], ad, cipherText[..n]);
      key := authKey[32..];
    }

    /** Opens a message: plain text and next key only if the tag matches. */
    method Read(plain: array<byte>, mac: seq<byte>, ad: seq<byte>, cipherText: array<byte>, n: nat) returns (mismatch: int)
      requires n <= cipherText.Length && n <= plain.Length && |ad| < B64 && n < B64 && |mac| == 16
      modifies this, plain
      ensures mismatch == 0 || mismatch == -1
      ensures OpenMessage(old(key), counter, nonce, ad, Sealed(old(cipherText[..n]), mac))
        == if mismatch == 0 then Some(plain[..n]) else None
      ensures if mismatch == 0 then plain[n..] == old(plain[n..]) && key == NextKey(old(key), counter, nonce)
        else plain[..] == old(plain[..]) && key == old(key)
    {
      hide Encrypt64, Splice, Block64, Poly1305Spec.Tag, MacData;
      ghost var before, text := plain[..], cipherText[..n];
      var authKey := BlockZero();
      var realMac := LockAuth(authKey[..32], ad, cipherText[..n]);
      mismatch := Verify16(mac, realMac);
      if mismatch == 0 {
        TextIs(cipherText, n);
        var next := ChaCha20Djb(plain, cipherText, n, key, nonce, Next(counter));
        SealedPrefix(before, plain[..], Encrypt64(key, Next(counter), nonce, text));
        assert plain[..][..n] == plain[..n];
        key := authKey[32..];
      }
    }
  }

  function IetfCounter(b: seq<byte>): u64
    requires |b| == 4
  {
    WordRange(b);
    LE(b) * B32
  }

  lemma IetfNonce(nonce: Nonce)
    ensures LongNonce(IetfCounter(nonce[..4]), nonce[4..]) == nonce && LowWord(IetfCounter(nonce[..4])) == 0
  {
    hide Digits, Val;
    var b := nonce[..4];
    WordRange(b);
    DivModUnique(LE(b) * B32, LE(b), 0, B32);
    DigitsOfVal(256, b);
  }

  // ------------------------------------------------------- whole conversations

  predicate Storable(m: Message) { |m.ad| < B64 && |m.text| < B64 }

  /** One write after the other on one context. */
  method WriteAll(ctx: AeadContext, messages: seq<Message>) returns (sealed: seq<Sealed>)
    requires forall i :: 0 <= i < |messages| ==> Storable(messages[i])
    modifies ctx
    ensures sealed == SealStream(old(ctx.key), ctx.counter, ctx.nonce, messages)
  {
    hide SealMessage, NextKey, SealStream;
    sealed := [];
    var i := 0;
    assert messages[0..] == messages;
    while i < |messages|
      invariant 0 <= i <= |messages|
      invariant SealStream(old(ctx.key), ctx.counter, ctx.nonce, messages)
        == sealed + SealStream(ctx.key, ctx.counter, ctx.nonce, messages[i..])
    {
      SealStreamNext(ctx.key, ctx.counter, ctx.nonce, messages, i);
      var s := WriteOne(ctx, messages[i]);
      sealed := sealed + [s];
      i := i + 1;
    }
    SealNothing(ctx.key, ctx.counter, ctx.nonce);
  }

  method WriteOne(ctx: AeadContext, m: Message) returns (s: Sealed)
    requires Storable(m)
    modifies ctx
    ensures s == SealMessage(old(ctx.key), ctx.counter, ctx.nonce, m.ad, m.text)
    ensures ctx.key == NextKey(old(ctx.key), ctx.counter, ctx.nonce)
  {
    hide SealMessage, NextKey;
    var n := |m.text|;
    var plain, cipherText := new byte[n](i requires 0 <= i < n => m.text[i]), new byte[n](i => 0);
    assert plain[..n] == m.text;
    var mac := ctx.Write(cipherText, m.ad, plain, n);
    s := Sealed(cipherText[..n], mac);
  }

  lemma SealNothing(key: ChaCha20.Key, ctr: u64, nonce: ShortNonce)
    ensures SealStream(key, ctr, nonce, []) == []
  {}

  lemma SealStreamNext(key: ChaCha20.Key, ctr: u64, nonce: ShortNonce, messages: seq<Message>, i: nat)
    requires i < |messages|
    ensures SealStream(key, ctr, nonce, messages[i..]) == [SealMessage(key, ctr, nonce, messages[i].ad, messages[i].text)]
      + SealStream(NextKey(key, ctr, nonce), ctr, nonce, messages[i + 1..])
  {
    hide SealMessage, NextKey;
    assert messages[i..][1..] == messages[i + 1..];
  }

  /** One read after the other on one context, up to the first message refused. */
  method ReadAll(ctx: AeadContext, ads: seq<seq<byte>>, s: seq<Sealed>) returns (r: Option<seq<Message>>)
    requires |ads| == |s|
    requires forall i :: 0 <= i < |s| ==> |ads[i]| < B64 && |s[i].cipher| < B64 && |s[i].tag| == 16
    modifies ctx
    ensures r == OpenStream(old(ctx.key), ctx.counter, ctx.nonce, ads, s)
  {
    hide OpenMessage, NextKey, OpenStream;
    var messages := [];
    var i := 0;
    assert ads[0..] == ads && s[0..] == s;
    StartReading(ctx.key, ctx.counter, ctx.nonce, ads, s);
    while i < |s|
      invariant 0 <= i <= |s|
      invariant OpenStream(old(ctx.key), ctx.counter, ctx.nonce, ads, s)
        == After(messages, OpenStream(ctx.key, ctx.counter, ctx.nonce, ads[i..], s[i..]))
    {
      OpenStreamNext(ctx.key, ctx.counter, ctx.nonce, ads, s, i);
      var m := ReadOne(ctx, ads[i], s[i]);
      if m.None? { return None; }
      AfterMore(messages, Message(ads[i], m.value), OpenStream(ctx.key, ctx.counter, ctx.nonce, ads[i + 1..], s[i + 1..]));
      messages := messages + [Message(ads[i], m.value)];
      i := i + 1;
    }
    OpenNothing(ctx.key, ctx.counter, ctx.nonce);
    assert ads[i..] == [] && s[i..] == [] && messages + [] == messages;
    r := Some(messages);
  }

  method ReadOne(ctx: AeadContext, ad: seq<byte>, s: Sealed) returns (r: Option<seq<byte>>)
    requires |ad| < B64 && |s.cipher| < B64 && |s.tag| == 16
    modifies ctx
    ensures r == OpenMessage(old(ctx.key), ctx.counter, ctx.nonce, ad, s)
    ensures ctx.key == if r.Some? then NextKey(old(ctx.key), ctx.counter, ctx.nonce) else old(ctx.key)
  {
    hide OpenMessage, NextKey;
    var n := |s.cipher|;
    var cipherText, plain := new byte[n](i requires 0 <= i < n => s.cipher[i]), new byte[n](i => 0);
    assert cipherText[..n] == s.cipher;
    var mismatch := ctx.Read(plain, s.tag, ad, cipherText, n);
    r := if mismatch == 0 then Some(plain[..n]) else None;
  }

  /** The messages read so far, before what the rest gives. */
  function After(messages: seq<Message>, rest: Option<seq<Message>>): Option<seq<Message>> {
    match rest
    case None => None
    case Some(more) => Some(messages + more)
  }

  lemma AfterMore(messages: seq<Message>, m: Message, rest: Option<seq<Message>>)
    ensures After(messages, After([m], rest)) == After(messages + [m], rest)
  {
    if rest.Some? { assert messages + ([m] + rest.value) == messages + [m] + rest.value; }
  }

  lemma StartReading(key: ChaCha20.Key, ctr: u64, nonce: ShortNonce, ads: seq<seq<byte>>, s: seq<Sealed>)
    requires |ads| == |s|
    ensures After([], OpenStream(key, ctr, nonce, ads, s)) == OpenStream(key, ctr, nonce, ads, s)
  {
    hide OpenStream;
    var r := OpenStream(key, ctr, nonce, ads, s);
    if r.Some? { assert [] + r.value == r.value; }
  }

  lemma OpenNothing(key: ChaCha20.Key, ctr: u64, nonce: ShortNonce)
    ensures OpenStream(key, ctr, nonce, [], []) == Some([])
  {}

  lemma OpenStreamNext(key: ChaCha20.Key, ctr: u64, nonce: ShortNonce, ads: seq<seq<byte>>, s: seq<Sealed>, i: nat)
    requires |ads| == |s| && i < |s|
    ensures OpenStream(key, ctr, nonce, ads[i..], s[i..]) ==
      match OpenMessage(key, ctr, nonce, ads[i], s[i])
      case None => None
      case Some(text) =>
        After([Message(ads[i], text)], OpenStream(NextKey(key, ctr, nonce), ctr, nonce, ads[i + 1..], s[i + 1..]))
  {
    hide OpenMessage, NextKey;
    assert ads[i..][1..] == ads[i + 1..] && s[i..][1..] == s[i + 1..];
  }

  lemma {:induction false} SealStreamShape(key: ChaCha20.Key, ctr: u64, nonce: ShortNonce, messages: seq<Message>, i: nat)
    requires i < |messages|
    ensures |SealStream(key, ctr, nonce, messages)[i].tag| == 16
    ensures |SealStream(key, ctr, nonce, messages)[i].cipher| == |messages[i].text|
    decreases |messages|
  {
    hide Encrypt64, Poly1305Spec.Tag, NextKey, MacData, AuthKey;
    if i > 0 { SealStreamShape(NextKey(key, ctr, nonce), ctr, nonce, messages[1..], i - 1); }
  }

  /** What one context writes, another with the same key and nonce reads. */
  method Conversation(key: ChaCha20.Key, nonce: ShortNonce, messages: seq<Message>) returns (r: Option<seq<Message>>)
    requires forall i :: 0 <= i < |messages| ==> Storable(messages[i])
    ensures r == Some(messages)
  {
    hide SealStream, OpenStream;
    var writer := new AeadContext.InitDjb(key, nonce);
    var reader := new AeadContext.InitDjb(key, nonce);
    var sealed := WriteAll(writer, messages);
    var ads := seq(|messages|, i requires 0 <= i < |messages| => messages[i].ad);
    forall i: nat | i < |messages| ensures |sealed[i].cipher| < B64 && |sealed[i].tag| == 16 {
      SealStreamShape(key, 0, nonce, messages, i);
    }
    r := ReadAll(reader, ads, sealed);
    OpenStreamIsExact(key, 0, nonce, ads, sealed, messages);
  }

  // ------------------------------------------------------------- agreement

  /** The one-time key is the same. */
  lemma SameAuthKey(key: ChaCha20.Key, ctr: u64, nonce: ShortNonce)
    requires LowWord(ctr) == 0
    ensures AuthKey(key, ctr, nonce) == OneTimeKey(key, LongNonce(ctr, nonce))
  {
    hide ChaCha20.Block, Block64;
    SameBlock(key, ctr, nonce);
  }

  /** For every text of at most 2^32 - 1 blocks the two constructions seal alike. */
  lemma SealsAgree(key: ChaCha20.Key, ctr: u64, nonce: ShortNonce, ad: seq<byte>, text: seq<byte>)
    requires LowWord(ctr) == 0 && (|text| + 63) / 64 <= 0xffff_ffff
    ensures SealMessage(key, ctr, nonce, ad, text) == Seal(key, LongNonce(ctr, nonce), ad, text)
  {
    hide Encrypt, Encrypt64, ChaCha20.Block, Block64, Poly1305Spec.Tag, MacData;
    DivModUnique(ctr + 1, HighWord(ctr), 1, B32);
    DivModUnique(ctr + 1, 0, ctr + 1, B64);
    SameHigh(Next(ctr), ctr, nonce);
    SameStream(key, Next(ctr), nonce, text);
    SameAuthKey(key, ctr, nonce);
  }

  lemma ShortIsLong(nonce: seq<byte>)
    requires |nonce| == 24
    ensures LongNonce(0, XNonce(nonce)) == ShortenNonce(nonce)
  {
    assert ToLE(0, 4) == Zeros(4);
  }

  /** The same for opening. */
  lemma OpensAgree(key: ChaCha20.Key, ctr: u64, nonce: ShortNonce, ad: seq<byte>, s: Sealed)
    requires LowWord(ctr) == 0 && (|s.cipher| + 63) / 64 <= 0xffff_ffff
    ensures OpenMessage(key, ctr, nonce, ad, s) == Open(key, LongNonce(ctr, nonce), ad, s)
  {
    hide Encrypt, Encrypt64, MacData, Poly1305Spec.Tag, OneTimeKey, AuthKey;
    DivModUnique(ctr + 1, HighWord(ctr), 1, B32);
    DivModUnique(ctr + 1, 0, ctr + 1, B64);
    SameHigh(Next(ctr), ctr, nonce);
    SameStream(key, Next(ctr), nonce, s.cipher);
    SameAuthKey(key, ctr, nonce);
  }

  /** The first message of an XChaCha20 context is sealed and opened as by the IETF construction. */
  lemma FirstMessageAgrees(key: ChaCha20.Key, nonce: seq<byte>, ad: seq<byte>, text: seq<byte>, s: Sealed)
    requires |nonce| == 24
    ensures (|text| + 63) / 64 <= 0xffff_ffff ==> SealMessage(key, 0, XNonce(nonce), ad, text) == Seal(key, ShortenNonce(nonce), ad, text)
    ensures (|s.cipher| + 63) / 64 <= 0xffff_ffff ==> OpenMessage(key, 0, XNonce(nonce), ad, s) == Open(key, ShortenNonce(nonce), ad, s)
  {
    hide Seal, SealMessage, Open, OpenMessage;
    ShortIsLong(nonce);
    if (|text| + 63) / 64 <= 0xffff_ffff { SealsAgree(key, 0, XNonce(nonce), ad, text); }
    if (|s.cipher| + 63) / 64 <= 0xffff_ffff { OpensAgree(key, 0, XNonce(nonce), ad, s); }
  }

  /** crypto_aead_lock: one message of a fresh context, and the result of the fused lock for
      every text of at most 2^32 - 1 blocks. */
  method Lock(cipherText: array<byte>, key: ChaCha20.Key, nonce: seq<byte>, ad: seq<byte>, plain: array<byte>) returns (mac: seq<byte>)
    requires |nonce| == 24 && plain.Length <= cipherText.Length && |ad| < B64 && plain.Length < B64
    modifies cipherText
    ensures var sealed, subkey := Sealed(cipherText[..plain.Length], mac), HChaCha(key, nonce[..16]);
      && sealed == SealMessage(subkey, 0, XNonce(nonce), ad, old(plain[..]))
      && ((plain.Length + 63) / 64 <= 0xffff_ffff ==> sealed == Seal(subkey, ShortenNonce(nonce), ad, old(plain[..])))
  {
    hide HChaCha, Seal, SealMessage, NextKey, Open, OpenMessage, ShortenNonce, XNonce;
    var ctx := new AeadContext.InitX(key, nonce);
    ghost var text := plain[..];
    assert plain[..plain.Length] == text;
    FirstMessageAgrees(ctx.key, nonce, ad, text, Sealed([], []));
    mac := ctx.Write(cipherText, ad, plain, plain.Length);
  }

  /** crypto_aead_unlock: 0 and the plain text exactly for a message of a fresh context. */
  method Unlock(plain: array<byte>, mac: seq<byte>, key: ChaCha20.Key, nonce: seq<byte>, ad: seq<byte>, cipherText: array<byte>)
    returns (mismatch: int)
    requires |nonce| == 24 && |mac| == 16 && cipherText.Length <= plain.Length && |ad| < B64 && cipherText.Length < B64
    modifies plain
    ensures var r := if mismatch == 0 then Some(plain[..cipherText.Length]) else None;
      var sealed, subkey := Sealed(old(cipherText[..]), mac), HChaCha(key, nonce[..16]);
      && r == OpenMessage(subkey, 0, XNonce(nonce), ad, sealed)
      && ((cipherText.Length + 63) / 64 <= 0xffff_ffff ==> r == Open(subkey, ShortenNonce(nonce), ad, sealed))
    ensures mismatch != 0 ==> plain[..] == old(plain[..])
  {
    hide HChaCha, Seal, SealMessage, NextKey, Open, OpenMessage, ShortenNonce, XNonce;
    var ctx := new AeadContext.InitX(key, nonce);
    ghost var text := cipherText[..];
    assert cipherText[..cipherText.Length] == text;
    FirstMessageAgrees(ctx.key, nonce, ad, [], Sealed(text, mac));
    mismatch := ctx.Read(plain, mac, ad, cipherText, cipherText.Length);
  }
}
