/** The serial 26-bit engine, fed 16-byte blocks from a 64-byte buffer. */
module PolySerial {
  import opened Words
  import opened Poly1305Spec
  import opened Buffers
  import opened Poly26

  class SerialEngine {
    var h: Five
    const r0Key: Five
    const padKey0: u64
    const padKey1: u64
    const buf: array<byte>
    var bufLen: nat
    ghost const key: Key
    ghost var absorbed: seq<byte>

    ghost predicate Valid()
      reads this, buf
    {
      && buf.Length == 64 && bufLen < 64
      && IsKey(r0Key, Multiplier(key), 1)
      && padKey0 == PadLow(key) && padKey1 == PadHigh(key)
      && UpTo(h, Multiplier(key), absorbed, buf[..bufLen])
    }

    constructor (key: Key)
      ensures Valid() && fresh(buf) && this.key == key && absorbed == []
    {
      hide KeyLimbs, Multiplier, IsKey;
      KeyLimbsIsKey(key);
      r0Key := KeyLimbs(key);
      padKey0, padKey1 := PadLow(key), PadHigh(key);
      h := Five(0, 0, 0, 0, 0);
      buf := new byte[64];
      bufLen := 0;
      this.key := key;
      absorbed := [];
      AbsorbedNothing(Multiplier(key));
    }

    method UpdateBlock16(block: seq<byte>, isFinalPartial: bool)
      requires if isFinalPartial then 0 < |block| < 16 else |block| == 16
      modifies this`h
      ensures h == if isFinalPartial then LastStep(old(h), block, r0Key) else BlockStep(old(h), block, true, r0Key)
    {
      var tmp := block + seq(16 - |block|, i => 0);
      if isFinalPartial {
        tmp := tmp[|block| := 1];
        assert tmp == Padded(block);
      } else {
        assert tmp == block;
      }
      h := Mul26(AddFive(h, BlockLimbs(tmp, !isFinalPartial)), r0Key);
    }

    method Update64(block: seq<byte>, ghost total: seq<byte>, ghost rest: seq<byte>)
      requires |block| == 64 && block <= rest
      requires IsKey(r0Key, Multiplier(key), 1) && UpTo(h, Multiplier(key), total, rest)
      modifies this`h
      ensures UpTo(h, Multiplier(key), total, rest[64..])
    {
      hide UpTo, BlockStep, Multiplier, IsKey;
      var i := 0;
      while i < 4
        invariant 0 <= i <= 4 && UpTo(h, Multiplier(key), total, rest[16 * i..])
      {
        BlockAdvances(h, Multiplier(key), r0Key, total, rest[16 * i..]);
        assert rest[16 * i..][..16] == block[16 * i..16 * (i + 1)];
        assert rest[16 * i..][16..] == rest[16 * (i + 1)..];
        UpdateBlock16(block[16 * i..16 * (i + 1)], false);
        i := i + 1;
      }
    }

    method Update(msg: seq<byte>)
      requires Valid()
      modifies this`h, this`bufLen, this`absorbed, buf
      ensures Valid() && absorbed == old(absorbed) + msg
    {
      hide UpTo, BlockStep, Multiplier, IsKey;
      var m := msg;
      ghost var r, total := Multiplier(key), absorbed + msg;
      UpToExtend(h, r, absorbed, buf[..bufLen], msg);
      if bufLen > 0 {
        ghost var before := buf[..bufLen];
        var n := CopyAt(buf, bufLen, m);
        bufLen := bufLen + n;
        m := m[n..];
        assert buf[..bufLen] + m == before + msg;
        if bufLen == 64 {
          assert (buf[..] + m)[64..] == m && buf[..64] == buf[..];
          Update64(buf[..], total, buf[..] + m);
          bufLen := 0;
        }
      }
      assert buf[..bufLen] + m == m || m == [];
      while |m| >= 64
        invariant bufLen < 64 && (bufLen > 0 ==> m == [])
        invariant UpTo(h, r, total, buf[..bufLen] + m)
      {
        assert buf[..bufLen] + m == m && buf[..bufLen] + m[64..] == m[64..];
        Update64(m[..64], total, m);
        m := m[64..];
      }
      if |m| > 0 {
        assert buf[..bufLen] + m == m;
        var n := CopyAt(buf, bufLen, m);
        bufLen := bufLen + n;
        assert buf[..bufLen] == m;
      } else {
        assert buf[..bufLen] + m == buf[..bufLen];
      }
      absorbed := total;
    }

    /** Writes the RFC 8439 tag of everything absorbed. */
    method Finish() returns (out: seq<byte>)
      requires Valid()
      modifies this`h, this`bufLen
      ensures out == Tag(key, absorbed)
    {
      hide UpTo, BlockStep, Multiplier, IsKey, FinishBytes, Tag, LastStep;
      var rem, offset := bufLen, 0;
      ghost var r := Multiplier(key);
      ghost var pending := buf[..bufLen];
      while rem >= 16
        invariant bufLen == old(bufLen) && 0 <= offset <= bufLen && rem == bufLen - offset
        invariant pending == buf[..bufLen]
        invariant UpTo(h, r, absorbed, pending[offset..])
      {
        BlockAdvances(h, r, r0Key, absorbed, pending[offset..]);
        SliceOfSlice(pending, offset, 16);
        assert pending[offset..offset + 16] == buf[offset..offset + 16];
        assert pending[offset..][16..] == pending[offset + 16..];
        UpdateBlock16(buf[offset..offset + 16], false);
        offset := offset + 16;
        rem := rem - 16;
      }
      if rem > 0 {
        assert buf[offset..offset + rem] == pending[offset..];
        LastAdvances(h, r, r0Key, absorbed, pending[offset..]);
        UpdateBlock16(buf[offset..offset + rem], true);
      } else {
        UpToAll(h, r, absorbed, pending[offset..]);
      }
      bufLen := 0;
      FinishIsTag(h, key, absorbed);
      CompareCarry(h, padKey0, padKey1);
      out := FinishBytesCompare(h, padKey0, padKey1);
    }
  }

  /** Here the carry into the high word is found by comparing the wrapped sum with a summand. */
  function FinishBytesCompare(h: Five, p0: u64, p1: u64): seq<byte>
    requires Reduced(h)
  {
    OnePassCanonical(h);
    SubtractReduces(Carry26(h));
    var (u0, u1, u2, u3, u4) := Subtract(Carry26(h));
    var (w0, w1) := Pack(u0, u1, u2, u3, u4);
    var f0 := Add64(w0, p0);
    var carry := if f0 < p0 then 1 else 0;
    ToLE(f0, 8) + ToLE(Add64(w1, Add64(p1, carry)), 8)
  }

  lemma CompareCarry(h: Five, p0: u64, p1: u64)
    requires Reduced(h)
    ensures FinishBytesCompare(h, p0, p1) == FinishBytes(h, p0, p1)
  {
    hide Carry26, Subtract, Pack, ToLE;
    OnePassCanonical(h);
    SubtractReduces(Carry26(h));
    var (u0, u1, u2, u3, u4) := Subtract(Carry26(h));
    var (w0, w1) := Pack(u0, u1, u2, u3, u4);
    CompareIsCarry(w0, p0);
    NestedAdd(w1, p1, (w0 + p0) / B64);
  }

  lemma CompareIsCarry(a: u64, b: u64)
    ensures (if Add64(a, b) < b then 1 else 0) == (a + b) / B64
  {}

  lemma NestedAdd(a: u64, b: u64, c: u64)
    ensures Add64(a, Add64(b, c)) == (a + b + c) % B64
  {}
}
