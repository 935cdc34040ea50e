/** The ChaCha20 block function and stream of section 2 of RFC 8439, and the
    HChaCha20 construction built on the same rounds. */
module ChaCha20 {
  import opened Words
  import opened Bits
  import opened WordBytes

  type State = s: seq<u32> | |s| == 16 witness seq(16, i => 0)
  type Key = k: seq<byte> | |k| == 32 witness seq(32, i => 0)
  type Nonce = n: seq<byte> | |n| == 12 witness seq(12, i => 0)

  datatype Quad = Quad(a: u32, b: u32, c: u32, d: u32)

  /** Section 2.1. */
  function Quarter(q: Quad): Quad {
    var a := Add32(q.a, q.b);
    var d := Rotl32(Xor32(q.d, a), 16);
    var c := Add32(q.c, d);
    var b := Rotl32(Xor32(q.b, c), 12);
    var a' := Add32(a, b);
    var d' := Rotl32(Xor32(d, a'), 8);
    var c' := Add32(c, d');
    var b' := Rotl32(Xor32(b, c'), 7);
    Quad(a', b', c', d')
  }

  /** Section 2.2: the quarter round on four words of the state. */
  function QuarterRound(s: State, x: nat, y: nat, z: nat, w: nat): State
    requires x < 16 && y < 16 && z < 16 && w < 16
  {
    var q := Quarter(Quad(s[x], s[y], s[z], s[w]));
    s[x := q.a][y := q.b][z := q.c][w := q.d]
  }

  function ColumnRound(s: State): State {
    QuarterRound(QuarterRound(QuarterRound(QuarterRound(s, 0, 4, 8, 12), 1, 5, 9, 13), 2, 6, 10, 14), 3, 7, 11, 15)
  }

  function DiagonalRound(s: State): State {
    QuarterRound(QuarterRound(QuarterRound(QuarterRound(s, 0, 5, 10, 15), 1, 6, 11, 12), 2, 7, 8, 13), 3, 4, 9, 14)
  }

  function Rounds(s: State, n: nat): State
    decreases n
  {
    if n == 0 then s else DiagonalRound(ColumnRound(Rounds(s, n - 1)))
  }

  const CONSTANTS: seq<u32> := [0x61707865, 0x3320646e, 0x79622d32, 0x6b206574]

  function Load32(b: seq<byte>): (w: seq<u32>)
    requires |b| % 4 == 0
    ensures |w| == |b| / 4
  {
    LoadLength(b, 4);
    Four();
    Load(b, 4)
  }

  lemma Four()
    ensures Pow(256, 4) == B32
  {}

  /** Section 2.3: constants, key, block counter, nonce. */
  function Initial(key: Key, counter: u32, nonce: Nonce): State {
    CONSTANTS + Load32(key) + [counter] + Load32(nonce)
  }

  function AddStates(s: State, t: State): State { seq(16, i requires 0 <= i < 16 => Add32(s[i], t[i])) }

  function Serialize(s: State): (b: seq<byte>)
    ensures |b| == 64
  {
    StoreLength(s, 4);
    Store(s, 4)
  }

  function Block(key: Key, counter: u32, nonce: Nonce): (b: seq<byte>)
    ensures |b| == 64
  {
    var s := Initial(key, counter, nonce);
    Serialize(AddStates(Rounds(s, 10), s))
  }

  /** Byte i of the key stream that starts at a block counter; the counter wraps. */
  function KeyByte(key: Key, counter: u32, nonce: Nonce, i: nat): byte {
    Block(key, (counter + i / 64) % B32, nonce)[i % 64]
  }

  /** Section 2.4. */
  function Encrypt(key: Key, counter: u32, nonce: Nonce, text: seq<byte>): (c: seq<byte>)
    ensures |c| == |text|
  {
    seq(|text|, i requires 0 <= i < |text| => XorByte(text[i], KeyByte(key, counter, nonce, i)))
  }

  /** The subkey of XChaCha20: the rounds without the final addition, outer rows only. */
  function HChaCha(key: Key, nonce: seq<byte>): (k: Key)
    requires |nonce| == 16
  {
    var s := Rounds(CONSTANTS + Load32(key) + Load32(nonce), 10);
    StoreLength(s[..4] + s[12..], 4);
    Store(s[..4] + s[12..], 4)
  }

  // --------------------------------------------------------------- properties

  lemma XorByteTwice(x: byte, y: byte)
    ensures XorByte(XorByte(x, y), y) == x
  {
    hide Xor;
    XorTwice(x, y);
  }

  /** Encrypting twice with the same parameters restores the text. */
  lemma EncryptTwice(key: Key, counter: u32, nonce: Nonce, text: seq<byte>)
    ensures Encrypt(key, counter, nonce, Encrypt(key, counter, nonce, text)) == text
  {
    hide KeyByte, XorByte;
    forall i | 0 <= i < |text|
      ensures Encrypt(key, counter, nonce, Encrypt(key, counter, nonce, text))[i] == text[i]
    {
      XorByteTwice(text[i], KeyByte(key, counter, nonce, i));
    }
  }

  /** The counter after the blocks of n bytes, the last one possibly incomplete. */
  function Advance(counter: u32, n: nat): u32 { (counter + (n + 63) / 64) % B32 }

  lemma CounterAfter(counter: u32, m: nat, i: nat)
    requires m % 64 == 0
    ensures (Advance(counter, m) + i / 64) % B32 == (counter + (m + i) / 64) % B32
    ensures (m + i) % 64 == i % 64 && Advance(Advance(counter, m), i) == Advance(counter, m + i)
  {
    assert (m + 63) / 64 == m / 64 && (m + i) / 64 == m / 64 + i / 64 && (m + i + 63) / 64 == m / 64 + (i + 63) / 64;
    ModSum(counter + m / 64, i / 64);
    ModSum(counter + m / 64, (i + 63) / 64);
  }

  lemma ModSum(a: int, b: int)
    ensures (a % B32 + b) % B32 == (a + b) % B32
  {
    ModPlusMultiple(a % B32 + b, a / B32, B32);
  }

  /** Encrypting piecewise, with the counter advanced by whole blocks, is encrypting at once. */
  lemma EncryptAppend(key: Key, counter: u32, nonce: Nonce, a: seq<byte>, b: seq<byte>)
    requires |a| % 64 == 0
    ensures Encrypt(key, counter, nonce, a + b)
      == Encrypt(key, counter, nonce, a) + Encrypt(key, Advance(counter, |a|), nonce, b)
  {
    hide Block, XorByte, Advance;
    forall i | 0 <= i < |b|
      ensures KeyByte(key, Advance(counter, |a|), nonce, i) == KeyByte(key, counter, nonce, |a| + i)
    {
      CounterAfter(counter, |a|, i);
    }
  }
}
