/** What feeding a buffer means, and when feeding it in pieces means the same. */
module VtScan {
  import opened Words
  import opened VtGrid
  import opened Utf8
  import opened VtParser

  /** Bytes that need not wait for more: a character, or four bytes that are none. */
  predicate Settled(p: seq<byte>)
    requires p != []
  {
    DecodeRune(p).rune != RUNE_ERROR || DecodeRune(p).size > 1 || !RuneStart(p[0]) || |p| == 4
  }

  /** The bytes kept from the previous buffer are completed first. */
  function Drain(v: Vt, data: seq<byte>): (r: (Vt, seq<byte>))
    requires v.Consistent()
    ensures r.0.Consistent() && (r.0.pending == [] || r.1 == []) && r.0.grid.writes >= v.grid.writes
    decreases |data|
  {
    if v.pending == [] || data == [] then (v, data) else
      var p := v.pending + [data[0]];
      var d := DecodeRune(p);
      if Settled(p) then
        PutRuneKeeps(v.(pending := []), d.rune);
        (v.(pending := []).PutRune(d.rune), data[1..])
      else Drain(v.(pending := p), data[1..])
  }

  /** One rune or one byte at a time, with no fast path. */
  function Scan(v: Vt, data: seq<byte>): (r: Vt)
    requires v.Consistent() && v.pending == []
    ensures r.Consistent() && r.grid.writes >= v.grid.writes
    decreases |data|
  {
    if data == [] then v
    else if v.state == Ground && data[0] >= 0x80 then
      if Partial(data) then
        PartialShape(data);
        v.(pending := data)
      else
        var d := DecodeRune(data);
        PutRuneKeeps(v, d.rune);
        Scan(v.PutRune(d.rune), data[d.size..])
    else
      ControlKeeps(v, data[0]);
      Scan(Control(v, data[0]), data[1..])
  }

  /** The result of one call on a buffer. */
  function Fed(v: Vt, data: seq<byte>): (r: Vt)
    requires v.Consistent()
    ensures r.Consistent() && r.grid.writes >= v.grid.writes
  {
    var (w, rest) := Drain(v, data);
    if w.pending != [] then w else Scan(w, rest)
  }

  /** The byte-at-a-time machine: one call for each byte. */
  function Fold(v: Vt, data: seq<byte>): (r: Vt)
    requires v.Consistent()
    ensures r.Consistent()
    decreases |data|
  {
    if data == [] then v else Fold(Fed(v, [data[0]]), data[1..])
  }

  // ------------------------------------------------------------- unbroken text

  /** Byte b is acceptable after the kept bytes: inside a character it continues it. */
  predicate Continues(kept: seq<byte>, b: byte) {
    kept == [] || (Partial(kept) && (Partial(kept + [b]) || Complete(kept + [b])))
  }

  /** Running the machine, no character that has begun is broken off; the last one may be unfinished. */
  predicate Unbroken(v: Vt, data: seq<byte>)
    requires v.Consistent()
    decreases |data|
  {
    data == [] || (Continues(v.pending, data[0]) && Unbroken(Fed(v, [data[0]]), data[1..]))
  }

  /** The state after one byte that is not part of multi-byte text. */
  function NextState(s: State, b: byte): State {
    match s
    case Ground => if b == 0x1B then Escape else Ground
    case Escape =>
      var c := b as char;
      if c == '[' then CSIParam else if c == ']' then OSCEntry
      else if c == 'P' || c == '_' || c == '^' || c == 'X' then DCSStr else Ground
    case CSIParam =>
      if IsDigit(b) || b == 0x3B || IsMarker(b) then CSIParam else if 0x20 <= b <= 0x2F then CSIInt
      else if IsFinal(b) || Cancel(b) then Ground else CSIIgnore
    case CSIInt => if IsFinal(b) || Cancel(b) then Ground else CSIInt
    case CSIIgnore => if IsFinal(b) || Cancel(b) then Ground else CSIIgnore
    case OSCEntry =>
      if IsDigit(b) then OSCEntry else if b == 0x07 || Cancel(b) then Ground else if b == 0x1B then OSCEscape else OSCString
    case OSCString => if b == 0x07 || Cancel(b) then Ground else if b == 0x1B then OSCEscape else OSCString
    case OSCEscape => if b == 0x5C || b == 0x07 then Ground else if b == 0x1B then OSCEscape else OSCString
    case DCSEntry =>
      if 0x20 <= b <= 0x3F then DCSInt else if IsFinal(b) then DCSStr else if Cancel(b) then Ground else DCSIgnore
    case DCSInt =>
      if 0x20 <= b <= 0x3F then DCSInt else if IsFinal(b) then DCSStr else if Cancel(b) then Ground else DCSIgnore
    case DCSIgnore => if IsFinal(b) || Cancel(b) then Ground else DCSIgnore
    case DCSStr => if b == 0x07 || Cancel(b) then Ground else if b == 0x1B then DCSEscape else DCSStr
    case DCSEscape => if b == 0x5C || b == 0x07 then Ground else if b == 0x1B then DCSEscape else DCSStr
  }

  /** State and kept bytes after one acceptable byte, without the grid. */
  function NextMode(s: State, kept: seq<byte>, b: byte): (State, seq<byte>) {
    if kept == [] && !(s == Ground && b >= 0x80) then (NextState(s, b), [])
    else (s, if Partial(kept + [b]) then kept + [b] else [])
  }

  /** The same as a scan over states and kept bytes alone. */
  predicate UnbrokenText(s: State, kept: seq<byte>, data: seq<byte>)
    decreases |data|
  {
    data == [] ||
    (Continues(kept, data[0]) && var (t, k) := NextMode(s, kept, data[0]); UnbrokenText(t, k, data[1..]))
  }

  /** And besides, no byte above ASCII stands in the ground text without beginning a character. */
  predicate WellFormedText(s: State, kept: seq<byte>, data: seq<byte>)
    decreases |data|
  {
    data == [] ||
    (Continues(kept, data[0]) && (s == Ground && kept == [] && data[0] >= 0x80 ==> Partial([data[0]]))
      && var (t, k) := NextMode(s, kept, data[0]); WellFormedText(t, k, data[1..]))
  }

  lemma {:induction false} WellFormedIsUnbroken(s: State, kept: seq<byte>, data: seq<byte>)
    requires WellFormedText(s, kept, data)
    ensures UnbrokenText(s, kept, data)
    decreases |data|
  {
    hide NextMode;
    if data != [] {
      var (t, k) := NextMode(s, kept, data[0]);
      WellFormedIsUnbroken(t, k, data[1..]);
    }
  }

  /** Any 7-bit stream qualifies. */
  lemma {:induction false} AsciiIsWellFormed(s: State, data: seq<byte>)
    requires forall i :: 0 <= i < |data| ==> data[i] < 0x80
    ensures WellFormedText(s, [], data)
    decreases |data|
  {
    if data != [] {
      AsciiIsWellFormed(NextState(s, data[0]), data[1..]);
    }
  }

  /** The automaton's states do not depend on the grid. */
  lemma ControlState(v: Vt, b: byte)
    requires v.Consistent() && (v.state == Ground ==> b < 0x80)
    ensures Control(v, b).state == NextState(v.state, b)
  {
    hide DispatchCSI, Vt.Consistent, Grid.Newline, Grid.ReverseIndex;
  }

  lemma ModeFollows(v: Vt, b: byte)
    requires v.Consistent() && Continues(v.pending, b)
    ensures (Fed(v, [b]).state, Fed(v, [b]).pending) == NextMode(v.state, v.pending, b)
  {
    hide Control, Vt.PutRune, Fed, NextState;
    if v.pending == [] {
      FedByte(v, b);
      PutRuneKeeps(v, RUNE_ERROR);
      assert [] + [b] == [b];
      if !(v.state == Ground && b >= 0x80) {
        ControlState(v, b);
        ControlKeeps(v, b);
      }
    } else {
      FedContinuation(v, b);
      PutRuneKeeps(v.(pending := []), DecodeRune(v.pending + [b]).rune);
    }
  }

  /** Whether a stream is unbroken is decided without the grid. */
  lemma {:induction false} UnbrokenByState(v: Vt, data: seq<byte>)
    requires v.Consistent()
    ensures Unbroken(v, data) <==> UnbrokenText(v.state, v.pending, data)
    decreases |data|
  {
    hide Fed, NextMode;
    if data != [] && Continues(v.pending, data[0]) {
      ModeFollows(v, data[0]);
      UnbrokenByState(Fed(v, [data[0]]), data[1..]);
    }
  }

  /** One byte with nothing pending. */
  lemma FedByte(v: Vt, b: byte)
    requires v.Consistent() && v.pending == []
    ensures Fed(v, [b]) ==
      if v.state == Ground && b >= 0x80 then if Partial([b]) then v.(pending := [b]) else v.PutRune(RUNE_ERROR)
      else Control(v, b)
  {
    hide Control, Vt.PutRune;
    assert [b][1..] == [];
    assert Drain(v, [b]) == (v, [b]);
    if v.state == Ground && b >= 0x80 {
      if !Partial([b]) {
        assert DecodeRune([b]) == Decoded(RUNE_ERROR, 1);
        PutRuneKeeps(v, RUNE_ERROR);
        ScanNothing(v.PutRune(RUNE_ERROR));
      }
    } else {
      ControlKeeps(v, b);
      ScanNothing(Control(v, b));
    }
  }

  lemma ScanNothing(v: Vt)
    requires v.Consistent() && v.pending == []
    ensures Scan(v, []) == v == Fed(v, [])
  {}

  /** One byte inside a character. */
  lemma FedContinuation(v: Vt, b: byte)
    requires v.Consistent() && Partial(v.pending) && Continues(v.pending, b)
    ensures Fed(v, [b]) ==
      if Partial(v.pending + [b]) then v.(pending := v.pending + [b])
      else v.(pending := []).PutRune(DecodeRune(v.pending + [b]).rune)
  {
    hide Control, Vt.PutRune;
    assert [b][1..] == [];
    var p := v.pending + [b];
    PartialNext(v.pending, b);
    PartialShape(v.pending);
    if Partial(p) {
      PartialShape(p);
      assert Drain(v.(pending := p), []) == (v.(pending := p), []);
      assert Drain(v, [b]) == Drain(v.(pending := p), [b][1..]);
    } else {
      var w := v.(pending := []).PutRune(DecodeRune(p).rune);
      PutRuneKeeps(v.(pending := []), DecodeRune(p).rune);
      assert Drain(v, [b]) == (w, [b][1..]);
      ScanNothing(w);
    }
  }
}
