/** Cutting a byte stream into calls: harmless exactly when it breaks off no character. */
module VtSplit {
  import opened Words
  import opened Utf8
  import opened VtParser
  import opened VtScan

  /** Completing a kept part gives what a buffer holding all of it would give. */
  lemma {:induction false} Resume(v: Vt, part: seq<byte>, rest: seq<byte>)
    requires v.Consistent() && v.pending == [] && v.state == Ground && Partial(part)
    requires v.(pending := part).Consistent() && Unbroken(v.(pending := part), rest)
    ensures Fed(v.(pending := part), rest) == Scan(v, part + rest)
    decreases |rest|
  {
    hide Scan, Fed, Vt.Consistent, Vt.PutRune, DecodeRune;
    var w := v.(pending := part);
    PartialShape(part);
    if rest == [] {
      assert part + rest == part;
      NothingMore(v, part);
    } else {
      var more := part + [rest[0]];
      FedContinuation(w, rest[0]);
      PartialNext(part, rest[0]);
      assert more + rest[1..] == part + rest;
      if Partial(more) {
        PartialShape(more);
        Resume(v, more, rest[1..]);
        assert w.(pending := more) == v.(pending := more);
        StillPartial(w, rest);
      } else {
        Completed(v, part, rest);
      }
    }
  }

  lemma NothingMore(v: Vt, part: seq<byte>)
    requires v.Consistent() && v.pending == [] && v.state == Ground && Partial(part) && v.(pending := part).Consistent()
    ensures Fed(v.(pending := part), []) == v.(pending := part) == Scan(v, part)
  {
    PartialShape(part);
  }

  lemma StillPartial(w: Vt, rest: seq<byte>)
    requires w.Consistent() && Partial(w.pending) && rest != [] && Partial(w.pending + [rest[0]])
    ensures w.(pending := w.pending + [rest[0]]).Consistent()
    ensures Fed(w, rest) == Fed(w.(pending := w.pending + [rest[0]]), rest[1..])
  {
    hide Scan;
    PartialShape(w.pending);
    PartialShape(w.pending + [rest[0]]);
  }

  lemma Completed(v: Vt, part: seq<byte>, rest: seq<byte>)
    requires v.Consistent() && v.pending == [] && v.state == Ground && Partial(part) && v.(pending := part).Consistent()
    requires rest != [] && Complete(part + [rest[0]])
    ensures Fed(v.(pending := part), rest) == Scan(v, part + rest)
  {
    hide Control, Vt.PutRune, DecodeRune;
    var w, more := v.(pending := part), part + [rest[0]];
    PartialShape(part);
    PartialNext(part, rest[0]);
    assert more + rest[1..] == part + rest;
    DecodeStable(more, rest[1..]);
    ScanComplete(v, more, rest[1..]);
    PutRuneKeeps(v, DecodeRune(more).rune);
    assert w.(pending := []) == v;
  }

  lemma ScanComplete(v: Vt, more: seq<byte>, rest: seq<byte>)
    requires v.Consistent() && v.pending == [] && v.state == Ground && Complete(more) && FullRune(more) && more[0] >= 0x80
    ensures v.PutRune(DecodeRune(more).rune).Consistent() && v.PutRune(DecodeRune(more).rune).pending == []
    ensures Scan(v, more + rest) == Scan(v.PutRune(DecodeRune(more).rune), rest)
  {
    hide Control, Vt.PutRune;
    DecodeStable(more, rest);
    hide DecodeRune, FullRune;
    PutRuneKeeps(v, DecodeRune(more).rune);
    assert (more + rest)[|more|..] == rest;
  }

  /** One call on a buffer is one call on its first byte and one on the others. */
  lemma FirstByte(v: Vt, data: seq<byte>)
    requires v.Consistent() && data != [] && Unbroken(v, data)
    ensures Fed(v, data) == Fed(Fed(v, [data[0]]), data[1..])
  {
    hide Control, Vt.PutRune;
    var b := data[0];
    if v.pending == [] {
      FirstByteFresh(v, data);
    } else {
      var more := v.pending + [b];
      FedContinuation(v, b);
      PartialNext(v.pending, b);
      if Partial(more) {
        PartialShape(more);
      } else {
        PutRuneKeeps(v.(pending := []), DecodeRune(more).rune);
      }
    }
  }

  lemma FirstByteFresh(v: Vt, data: seq<byte>)
    requires v.Consistent() && v.pending == [] && data != [] && Unbroken(v, data)
    ensures Fed(v, data) == Fed(Fed(v, [data[0]]), data[1..])
  {
    hide Control, Vt.PutRune;
    var b := data[0];
    FedByte(v, b);
    assert [b] + data[1..] == data;
    if v.state == Ground && b >= 0x80 {
      if Partial([b]) {
        Resume(v, [b], data[1..]);
      } else {
        DecodeStable([b], data[1..]);
        PutRuneKeeps(v, RUNE_ERROR);
      }
    } else {
      ControlKeeps(v, b);
    }
  }

  /** The fast machine is the byte-at-a-time machine. */
  lemma {:induction false} FedIsFold(v: Vt, data: seq<byte>)
    requires v.Consistent() && Unbroken(v, data)
    ensures Fed(v, data) == Fold(v, data)
    decreases |data|
  {
    if data == [] {
      assert Drain(v, data) == (v, data);
    } else {
      FirstByte(v, data);
      FedIsFold(Fed(v, [data[0]]), data[1..]);
    }
  }

  lemma {:induction false} FoldAppend(v: Vt, a: seq<byte>, b: seq<byte>)
    requires v.Consistent()
    ensures Fold(v, a + b) == Fold(Fold(v, a), b)
    ensures Unbroken(v, a + b) <==> Unbroken(v, a) && Unbroken(Fold(v, a), b)
    decreases |a|
  {
    if a == [] {
      assert a + b == b;
    } else {
      assert (a + b)[1..] == a[1..] + b;
      FoldAppend(Fed(v, [a[0]]), a[1..], b);
    }
  }

  /** Two calls are one call: same automaton, same grid, same number of written cells. */
  lemma SplitIsWhole(v: Vt, a: seq<byte>, b: seq<byte>)
    requires v.Consistent() && UnbrokenText(v.state, v.pending, a + b)
    ensures Fed(v, a + b) == Fed(Fed(v, a), b)
  {
    UnbrokenByState(v, a + b);
    FoldAppend(v, a, b);
    FedIsFold(v, a + b);
    FedIsFold(v, a);
    FedIsFold(Fed(v, a), b);
  }

  // ------------------------------------------------- why the hypothesis is needed

  /** The first n bytes in one call or cut after k bytes. */
  ghost predicate CutAgrees(v: Vt, data: seq<byte>, k: nat, n: nat)
    requires v.Consistent() && k <= n <= |data|
  {
    Fed(v, data[..n]) == Fed(Fed(v, data[..k]), data[k..n])
  }

  /** A part kept at the end is the end of the stream. */
  lemma {:induction false} KeptIsSuffix(v: Vt, x: seq<byte>) returns (k: nat)
    requires v.Consistent() && v.pending == [] && Unbroken(v, x) && Fold(v, x).pending != []
    ensures k <= |x| && x[k..] == Fold(v, x).pending && Partial(Fold(v, x).pending)
    ensures Fold(v, x[..k]) == Fold(v, x).(pending := [])
    decreases |x|
  {
    hide Fed, Fold, Unbroken, Vt.Consistent;
    if x == [] {
      FoldNothing(v);
      assert false;
    } else {
      var a, b := x[..|x| - 1], x[|x| - 1];
      assert a + [b] == x;
      FoldAppend(v, a, [b]);
      var u := Fold(v, a);
      FoldOne(u, b);
      ByteKept(u, b);
      if u.pending == [] {
        k := |a|;
      } else {
        k := KeptIsSuffix(v, a);
        assert x[..k] == a[..k];
      }
    }
  }

  lemma FoldNothing(v: Vt)
    requires v.Consistent()
    ensures Fold(v, []) == v
  {}

  /** A byte after which something is kept: it was kept too, and nothing else changed. */
  lemma ByteKept(u: Vt, b: byte)
    requires u.Consistent() && Continues(u.pending, b) && Fed(u, [b]).pending != []
    ensures Fed(u, [b]) == u.(pending := u.pending + [b]) && Partial(u.pending + [b])
  {
    hide Control, Vt.PutRune, Fed;
    if u.pending == [] {
      FedByte(u, b);
      if u.state == Ground && b >= 0x80 {
        PutRuneKeeps(u, RUNE_ERROR);
        assert [] + [b] == [b];
      } else {
        ControlKeeps(u, b);
      }
    } else {
      FedContinuation(u, b);
      PutRuneKeeps(u.(pending := []), DecodeRune(u.pending + [b]).rune);
    }
  }

  lemma FoldOne(v: Vt, b: byte)
    requires v.Consistent()
    ensures Fold(v, [b]) == Fed(v, [b]) && (Unbroken(v, [b]) <==> Continues(v.pending, b))
  {
    assert [b][1..] == [];
  }

  /** Bytes above ASCII with no lead byte among them are replaced one by one. */
  lemma {:induction false} StraysAreWritten(v: Vt, strays: seq<byte>, b: byte)
    requires v.Consistent() && v.pending == [] && v.state == Ground
    requires forall i :: 0 <= i < |strays| ==> Continuation(strays[i])
    ensures Scan(v, strays + [b]).grid.writes >= v.grid.writes + |strays|
    decreases |strays|
  {
    hide Control, Vt.PutRune;
    if strays != [] {
      assert (strays + [b])[1..] == strays[1..] + [b];
      PutRuneKeeps(v, RUNE_ERROR);
      StraysAreWritten(v.PutRune(RUNE_ERROR), strays[1..], b);
    }
  }

  /** A byte that breaks a character: one call and two calls write different numbers of cells. */
  lemma BrokenCharacter(v: Vt, part: seq<byte>, b: byte)
    requires v.Consistent() && v.pending == [] && v.state == Ground && Partial(part)
    requires v.(pending := part).Consistent() && !Continues(part, b)
    ensures Fed(v, part + [b]).grid.writes != Fed(v.(pending := part), [b]).grid.writes
  {
    hide Control, Vt.PutRune;
    var w, more := v.(pending := part), part + [b];
    PartialShape(part);
    PartialNext(part, b);
    assert more[1..] == part[1..] + [b];
    PutRuneKeeps(v, RUNE_ERROR);
    assert w.(pending := []) == v;
    StraysAreWritten(v.PutRune(RUNE_ERROR), part[1..], b);
    assert Fed(v, more) == Scan(v.PutRune(RUNE_ERROR), more[1..]);
    assert [b][1..] == [];
    if |more| == 4 {
      assert Drain(w, [b]) == (v.PutRune(RUNE_ERROR), []);
      ScanNothing(v.PutRune(RUNE_ERROR));
    } else {
      KeepsAbsorbing(v, part, b);
    }
  }

  lemma KeepsAbsorbing(v: Vt, part: seq<byte>, b: byte)
    requires v.Consistent() && v.pending == [] && v.state == Ground && Partial(part) && |part| < 3
    requires v.(pending := part).Consistent() && !Continues(part, b)
    ensures Fed(v.(pending := part), [b]) == v.(pending := part + [b])
  {
    hide Control, Vt.PutRune;
    PartialNext(part, b);
    var x := v.(pending := part + [b]);
    assert [b][1..] == [];
    assert Drain(x, []) == (x, []);
    assert Drain(v.(pending := part), [b]) == Drain(x, []);
  }

  /** From a state with nothing pending, every cut of every prefix is harmless if and only if
      no character that has begun is broken off. */
  lemma CutsAgreeIffUnbroken(v: Vt, data: seq<byte>)
    requires v.Consistent() && v.pending == []
    ensures UnbrokenText(v.state, [], data) <==> forall k: nat, n: nat :: k <= n <= |data| ==> CutAgrees(v, data, k, n)
  {
    hide UnbrokenText, Unbroken, Fed, Fold, CutAgrees;
    UnbrokenByState(v, data);
    if Unbroken(v, data) {
      forall k: nat, n: nat | k <= n <= |data| ensures CutAgrees(v, data, k, n) {
        UnbrokenCut(v, data, k, n);
      }
    } else {
      var k, n := FirstBreak(v, data);
    }
  }

  lemma UnbrokenCut(v: Vt, data: seq<byte>, k: nat, n: nat)
    requires v.Consistent() && v.pending == [] && Unbroken(v, data) && k <= n <= |data|
    ensures CutAgrees(v, data, k, n)
  {
    hide UnbrokenText, Unbroken, Fed, Fold;
    assert data[..n] + data[n..] == data && data[..k] + data[k..n] == data[..n];
    FoldAppend(v, data[..n], data[n..]);
    UnbrokenByState(v, data[..n]);
    SplitIsWhole(v, data[..k], data[k..n]);
  }

  lemma FirstBreak(v: Vt, data: seq<byte>) returns (k: nat, n: nat)
    requires v.Consistent() && v.pending == [] && !Unbroken(v, data)
    ensures k <= n <= |data| && !CutAgrees(v, data, k, n)
  {
    hide Fed, Fold, Unbroken, Vt.Consistent;
    var m := BreakPosition(v, data);
    var x := data[..m];
    BreaksInside(Fold(v, x), data[m]);
    var start := KeptIsSuffix(v, x);
    var y := data[..m + 1];
    assert y == x + [data[m]] && x[..start] == data[..start] && x[start..] + [data[m]] == data[start..m + 1];
    assert data[..m] == x && data[m..m + 1] == [data[m]];
    assert x[..start] + x[start..] == x;
    DifferentCuts(v, x[..start], x[start..], data[m]);
    n := m + 1;
    hide Continues, Partial;
    k := if Fed(v, y) == Fed(Fed(v, x), [data[m]]) then start else m;
    assert Fed(v, data[..n]) == Fed(v, y);
  }

  lemma BreaksInside(u: Vt, b: byte)
    requires u.Consistent() && !Continues(u.pending, b)
    ensures u.pending != [] && u.state == Ground
  {}

  /** Cutting before a broken character and cutting inside it differ. */
  lemma DifferentCuts(v: Vt, before: seq<byte>, part: seq<byte>, b: byte)
    requires v.Consistent() && Unbroken(v, before + part)
    requires Fold(v, before).pending == [] && Fold(v, before).state == Ground && Partial(part)
    requires Fold(v, before + part) == Fold(v, before).(pending := part) && !Continues(part, b)
    ensures Fed(Fed(v, before), part + [b]) != Fed(Fed(v, before + part), [b])
  {
    hide Fed, Fold, Unbroken, Vt.Consistent, Continues, Partial;
    FoldAppend(v, before, part);
    FedIsFold(v, before);
    FedIsFold(v, before + part);
    BrokenCharacter(Fold(v, before), part, b);
  }

  lemma {:induction false} BreakPosition(v: Vt, data: seq<byte>) returns (n: nat)
    requires v.Consistent() && !Unbroken(v, data)
    ensures n < |data| && Unbroken(v, data[..n]) && !Continues(Fold(v, data[..n]).pending, data[n])
    decreases |data|
  {
    if Continues(v.pending, data[0]) {
      var m := BreakPosition(Fed(v, [data[0]]), data[1..]);
      n := m + 1;
      assert data[..n][1..] == data[1..][..m];
    } else {
      n := 0;
    }
  }

  /** E2 41: one call writes a replacement character and an A, two calls write nothing yet. */
  lemma LeadThenLetter(v: Vt)
    requires v.Consistent() && v.pending == [] && v.state == Ground
    ensures !UnbrokenText(Ground, [], [0xE2, 0x41]) && Fed(v, [0xE2, 0x41]) != Fed(Fed(v, [0xE2]), [0x41])
  {
    hide Control, Vt.PutRune;
    FedByte(v, 0xE2);
    BrokenCharacter(v, [0xE2], 0x41);
    var whole: seq<byte> := [0xE2, 0x41];
    assert [0xE2] + [0x41] == whole && whole[1..] == [0x41];
  }
}
