/** The escape sequence automaton as a function on values: what each byte does. */
module VtParser {
  import opened Words
  import opened VtGrid
  import opened Utf8

  datatype State = Ground | Escape | CSIParam | CSIInt | CSIIgnore | OSCEntry | OSCString | OSCEscape
    | DCSEntry | DCSInt | DCSIgnore | DCSStr | DCSEscape

  /** Parser and grid together; `nearest` maps a colour to the palette. */
  datatype Vt = Vt(state: State, fg: byte, bg: byte, attr: byte, params: seq<nat>, num: nat, prm: nat, prmSet: bool,
      oscNum: int, private: byte, pending: seq<byte>, grid: Grid, nearest: (int, int, int) -> byte)
  {
    /** What every reachable state satisfies. */
    ghost predicate Consistent() {
      && grid.InRange()
      && |params| == 16 && num <= 16 && prm <= 65535 && (forall i :: 0 <= i < 16 ==> params[i] <= 65535)
      && |pending| <= 3 && (pending != [] ==> state == Ground && RuneStart(pending[0]) && pending[0] >= 0xC2)
    }

    function PutRune(r: u32): Vt { this.(grid := grid.Put(Cell(r, fg, bg, attr, 1))) }

    function AddParam(): Vt
      requires |params| == 16
    {
      this.(params := if num < 16 then params[num := prm] else params, num := if num < 16 then num + 1 else num,
        prm := 0, prmSet := false)
    }

    function FinishParam(): Vt
      requires |params| == 16
    {
      if prmSet || num == 0 then AddParam() else this
    }

    function Param(i: nat): nat
      requires |params| == 16 && num <= 16
    {
      if i < num then params[i] else 0
    }

    function Digit(b: byte): Vt
      requires '0' as int <= b <= '9' as int
    {
      this.(prm := if prm < 65535 then AtMost(prm * 10 + (b - 0x30), 65535) else prm, prmSet := true)
    }

    function StartSequence(s: State): Vt { this.(state := s, num := 0, prm := 0, prmSet := false, private := 0) }

    function Go(s: State): Vt { this.(state := s) }
  }

  function AtMost(x: nat, limit: nat): nat { if x > limit then limit else x }

  function AtLeastOne(x: nat): nat { if x < 1 then 1 else x }

  /** |= and &^= of a single attribute bit. */
  function SetBit(attr: byte, unit: nat): byte
    requires unit == 1 || unit == 2 || unit == 4 || unit == 8
  {
    if attr / unit % 2 == 1 then attr else attr + unit
  }

  function ClearBit(attr: byte, unit: nat): byte
    requires unit == 1 || unit == 2 || unit == 4 || unit == 8
  {
    if attr / unit % 2 == 1 then attr - unit else attr
  }

  const BOLD := 1
  const DIM := 2
  const UNDERLINE := 4
  const INVERSE := 8

  function Byte(x: nat): byte { x % 0x100 }

  /** The colour chosen by 38 or 48 and the number of parameters it used up. */
  function Extended(v: Vt, i: nat, current: byte): (byte, nat)
    requires |v.params| == 16 && i < v.num <= 16
  {
    if v.num - i >= 3 && v.params[i + 1] == 5 then (Byte(v.params[i + 2]), 3)
    else if v.num - i >= 5 && v.params[i + 1] == 2 then (v.nearest(v.params[i + 2], v.params[i + 3], v.params[i + 4]), 5)
    else (current, 1)
  }

  /** One parameter of a colour and attribute selection. */
  function SgrStep(v: Vt, i: nat): (r: (Vt, nat))
    requires |v.params| == 16 && i < v.num <= 16
    ensures r.1 >= 1 && r.0 == v.(fg := r.0.fg, bg := r.0.bg, attr := r.0.attr)
  {
    var p := v.params[i];
    if p == 0 then (v.(fg := 0, bg := 0, attr := 0), 1)
    else if p == 1 then (v.(attr := SetBit(v.attr, BOLD)), 1)
    else if p == 2 then (v.(attr := SetBit(v.attr, DIM)), 1)
    else if p == 4 then (v.(attr := SetBit(v.attr, UNDERLINE)), 1)
    else if p == 7 then (v.(attr := SetBit(v.attr, INVERSE)), 1)
    else if p == 22 then (v.(attr := ClearBit(ClearBit(v.attr, BOLD), DIM)), 1)
    else if p == 23 then (v.(attr := ClearBit(v.attr, DIM)), 1)
    else if p == 24 then (v.(attr := ClearBit(v.attr, UNDERLINE)), 1)
    else if p == 27 then (v.(attr := ClearBit(v.attr, INVERSE)), 1)
    else if p == 39 then (v.(fg := 0), 1)
    else if p == 49 then (v.(bg := 0), 1)
    else if 30 <= p <= 37 then (v.(fg := p - 30), 1)
    else if p == 38 then var (c, k) := Extended(v, i, v.fg); (v.(fg := c), k)
    else if 40 <= p <= 47 then (v.(bg := p - 40), 1)
    else if p == 48 then var (c, k) := Extended(v, i, v.bg); (v.(bg := c), k)
    else if 90 <= p <= 97 then (v.(fg := p - 90 + 8), 1)
    else if 100 <= p <= 107 then (v.(bg := p - 100 + 8), 1)
    else (v, 1)
  }

  function Sgr(v: Vt, i: nat): (r: Vt)
    requires |v.params| == 16 && v.num <= 16
    ensures r == v.(fg := r.fg, bg := r.bg, attr := r.attr)
    decreases v.num - i
  {
    if i >= v.num then v else var (w, k) := SgrStep(v, i); Sgr(w, i + k)
  }

  /** What a CSI sequence with first parameters p0 and p1 does to the grid. */
  function CSIGrid(g: Grid, num: nat, p0: nat, p1: nat, c: char): Grid
    requires 0 < g.width && 0 < g.height
  {
    var n: int := AtLeastOne(p0);
    if c == 'H' || c == 'f' then g.SetCursor(p1, p0)
    else if c == 'A' then g.Move(0, -n)
    else if c == 'B' then g.Move(0, n)
    else if c == 'C' then g.Move(n, 0)
    else if c == 'D' then g.Move(-n, 0)
    else if c == 'G' || c == '`' then g.SetCursor(p0, g.cursorY + 1)
    else if c == 'd' then g.SetCursor(g.cursorX + 1, p0)
    else if c == 'J' then g.ClearScreen(p0)
    else if c == 'K' then g.ClearLine(p0)
    else if c == 's' then g.SaveCursor()
    else if c == 'u' then g.RestoreCursor()
    else if c == 'r' then
      if num >= 2 && 1 <= p0 <= p1 <= g.height then g.(top := p0 - 1, bottom := p1 - 1) else g
    else if c == 'S' then g.ScrollUp(n)
    else if c == 'T' then g.ScrollDown(n)
    else g
  }

  /** The effect of a complete CSI sequence. */
  function DispatchCSI(v0: Vt, final: byte): Vt
    requires v0.Consistent()
  {
    var v := if v0.num == 0 then v0.AddParam() else v0;
    if final as char == 'm' then Sgr(v, 0)
    else v.(grid := CSIGrid(v.grid, v.num, v.Param(0), v.Param(1), final as char))
  }

  predicate Cancel(b: byte) { b == 0x18 || b == 0x1A }

  predicate Printable(b: byte) { 0x20 <= b < 0x80 }

  /** A control byte or printable ASCII in the ground state. */
  function GroundByte(v: Vt, b: byte): Vt
    requires v.Consistent() && b < 0x80
  {
    if Printable(b) then v.PutRune(b)
    else if b == 0x1B then v.Go(Escape)
    else if b == 0x0D then v.(grid := v.grid.(cursorX := 0, wrapPending := false))
    else if 0x0A <= b <= 0x0C then v.(grid := v.grid.Newline())
    else if b == 0x08 then
      v.(grid := v.grid.(cursorX := if v.grid.cursorX > 0 then v.grid.cursorX - 1 else 0, wrapPending := false))
    else if b == 0x09 then v.(grid := v.grid.Tab())
    else v
  }

  function EscapeByte(v: Vt, b: byte): Vt
    requires v.Consistent()
  {
    var c := b as char;
    if c == '[' then v.StartSequence(CSIParam)
    else if c == ']' then v.Go(OSCEntry).(oscNum := 0)
    else if c == 'P' || c == '_' || c == '^' || c == 'X' then v.StartSequence(DCSStr)
    else if c == '7' then v.Go(Ground).(grid := v.grid.SaveCursor())
    else if c == '8' then v.Go(Ground).(grid := v.grid.RestoreCursor())
    else if c == 'D' then v.Go(Ground).(grid := v.grid.Newline())
    else if c == 'M' then v.Go(Ground).(grid := v.grid.ReverseIndex())
    else if c == 'E' then v.Go(Ground).(grid := v.grid.(cursorX := 0).Newline())
    else if c == 'c' then v.Go(Ground).(fg := 0, bg := 0, attr := 0)
    else v.Go(Ground)
  }

  predicate IsDigit(b: byte) { 0x30 <= b <= 0x39 }

  /** Markers that only set `private`: < = > ? */
  predicate IsMarker(b: byte) { 0x3C <= b <= 0x3F }

  predicate IsFinal(b: byte) { 0x40 <= b <= 0x7E }

  function CSIByte(v: Vt, b: byte): Vt
    requires v.Consistent()
  {
    if IsDigit(b) then v.Digit(b)
    else if b == 0x3B then v.AddParam()
    else if IsMarker(b) then v.(private := b)
    else if 0x20 <= b <= 0x2F then v.Go(CSIInt)
    else if IsFinal(b) then Finished(v, b)
    else if Cancel(b) then v.Go(Ground)
    else v.Go(CSIIgnore)
  }

  function Finished(v: Vt, b: byte): Vt
    requires v.Consistent()
  {
    FinishKeeps(v);
    DispatchCSI(v.FinishParam(), b).Go(Ground)
  }

  lemma FinishKeeps(v: Vt)
    requires v.Consistent()
    ensures v.AddParam().Consistent() && v.FinishParam().Consistent()
  {}

  /** oscNum is a machine integer. */
  function Wrap(x: int): int { (x + 0x8000_0000_0000_0000) % B64 - 0x8000_0000_0000_0000 }

  function StringByte(v: Vt, b: byte): Vt
    requires v.state.OSCEntry? || v.state.OSCString? || v.state.OSCEscape?
  {
    match v.state
    case OSCEntry =>
      if IsDigit(b) then v.(oscNum := Wrap(v.oscNum * 10 + (b - 0x30)))
      else if b == 0x3B then v.Go(OSCString)
      else if b == 0x07 then v.Go(Ground)
      else if b == 0x1B then v.Go(OSCEscape)
      else if Cancel(b) then v.Go(Ground)
      else v.Go(OSCString)
    case OSCString =>
      if b == 0x07 || Cancel(b) then v.Go(Ground) else if b == 0x1B then v.Go(OSCEscape) else v
    case OSCEscape =>
      if b == 0x5C || b == 0x07 then v.Go(Ground) else if b == 0x1B then v else v.Go(OSCString)
  }

  function DeviceByte(v: Vt, b: byte): Vt
    requires v.state.DCSEntry? || v.state.DCSInt? || v.state.DCSIgnore? || v.state.DCSStr? || v.state.DCSEscape?
  {
    match v.state
    case DCSEntry =>
      if 0x20 <= b <= 0x3F then v.Go(DCSInt) else if IsFinal(b) then v.Go(DCSStr)
      else if Cancel(b) then v.Go(Ground) else v.Go(DCSIgnore)
    case DCSInt =>
      if 0x20 <= b <= 0x3F then v else if IsFinal(b) then v.Go(DCSStr)
      else if Cancel(b) then v.Go(Ground) else v.Go(DCSIgnore)
    case DCSIgnore =>
      if IsFinal(b) || Cancel(b) then v.Go(Ground) else v
    case DCSStr =>
      if b == 0x07 || Cancel(b) then v.Go(Ground) else if b == 0x1B then v.Go(DCSEscape) else v
    case DCSEscape =>
      if b == 0x5C || b == 0x07 then v.Go(Ground) else if b == 0x1B then v else v.Go(DCSStr)
  }

  /** What one byte does, except the bytes of multi-byte text. */
  function Control(v: Vt, b: byte): Vt
    requires v.Consistent() && (v.state == Ground ==> b < 0x80)
  {
    match v.state
    case Ground => GroundByte(v, b)
    case Escape => EscapeByte(v, b)
    case CSIParam => CSIByte(v, b)
    case CSIInt => if IsFinal(b) then Finished(v, b) else if Cancel(b) then v.Go(Ground) else v
    case CSIIgnore => if IsFinal(b) || Cancel(b) then v.Go(Ground) else v
    case OSCEntry => StringByte(v, b)
    case OSCString => StringByte(v, b)
    case OSCEscape => StringByte(v, b)
    case _ => DeviceByte(v, b)
  }

  // ------------------------------------------------------------- invariants

  lemma PutRuneKeeps(v: Vt, r: u32)
    requires v.Consistent()
    ensures v.PutRune(r).Consistent() && v.PutRune(r).pending == v.pending && v.PutRune(r).state == v.state
    ensures v.PutRune(r).grid.writes == v.grid.writes + 1
  {
    PutStaysInRange(v.grid, Cell(r, v.fg, v.bg, v.attr, 1));
    hide Grid.Put;
  }

  lemma CSIGridKeeps(g: Grid, num: nat, p0: nat, p1: nat, c: char)
    requires g.InRange()
    ensures CSIGrid(g, num, p0, p1, c).InRange() && CSIGrid(g, num, p0, p1, c).writes == g.writes
  {
    hide Grid.ScrollUp, Grid.ScrollDown, Grid.SetCursor, Grid.Move, Grid.ClearScreen, Grid.ClearLine;
    var n: int := AtLeastOne(p0);
    ScrollsStayInRange(g, n);
    ScrollKeepsRest(g, n);
    ClearingStaysInRange(g, p0);
    ClearingKeepsWrites(g, p0);
    CursorKeeps(g, p1, p0);
    CursorKeeps(g, p0, g.cursorY + 1);
    CursorKeeps(g, g.cursorX + 1, p0);
    CursorKeeps(g, 0, -n);
    CursorKeeps(g, 0, n);
    CursorKeeps(g, n, 0);
    CursorKeeps(g, -n, 0);
  }

  lemma ClearingKeepsWrites(g: Grid, mode: nat)
    ensures g.ClearScreen(mode).writes == g.writes && g.ClearLine(mode).writes == g.writes
  {}

  lemma CursorKeeps(g: Grid, x: int, y: int)
    requires g.InRange()
    ensures g.SetCursor(x, y).InRange() && g.SetCursor(x, y).writes == g.writes
    ensures g.Move(x, y).InRange() && g.Move(x, y).writes == g.writes
    ensures g.SaveCursor().InRange() && g.RestoreCursor().InRange()
    ensures g.SaveCursor().writes == g.RestoreCursor().writes == g.writes
  {
    CursorStaysInRange(g, x, y);
  }

  lemma DispatchKeeps(v: Vt, final: byte)
    requires v.Consistent()
    ensures DispatchCSI(v, final).Consistent() && DispatchCSI(v, final).pending == v.pending
    ensures DispatchCSI(v, final).grid.writes == v.grid.writes && DispatchCSI(v, final).state == v.state
  {
    FinishKeeps(v);
    var w := if v.num == 0 then v.AddParam() else v;
    CSIGridKeeps(w.grid, w.num, w.Param(0), w.Param(1), final as char);
    hide CSIGrid, Sgr;
  }

  lemma GroundKeeps(v: Vt, b: byte)
    requires v.Consistent() && b < 0x80 && v.pending == []
    ensures GroundByte(v, b).Consistent() && GroundByte(v, b).pending == []
    ensures v.grid.writes <= GroundByte(v, b).grid.writes <= v.grid.writes + 1
  {
    PutRuneKeeps(v, b);
    NewlineStaysInRange(v.grid);
    GridKeepsWrites(v.grid);
    hide Grid.Newline, Grid.Put;
  }

  lemma GridKeepsWrites(g: Grid)
    ensures g.Newline().writes == g.writes && g.ReverseIndex().writes == g.writes
  {
    hide Grid.ScrollUp, Grid.ScrollDown;
    ScrollKeepsRest(g, 1);
  }

  /** A change of state alone, with nothing pending. */
  lemma GoKeeps(v: Vt, s: State)
    requires v.Consistent() && v.pending == []
    ensures v.Go(s).Consistent() && v.Go(s).pending == [] && v.Go(s).grid == v.grid
    ensures v.StartSequence(s).Consistent() && v.StartSequence(s).pending == [] && v.StartSequence(s).grid == v.grid
  {}

  lemma GridKeeps(v: Vt, g: Grid)
    requires v.Consistent() && v.pending == [] && g.InRange()
    ensures v.Go(Ground).(grid := g).Consistent() && v.Go(Ground).(grid := g).pending == []
  {}

  lemma EscapeKeeps(v: Vt, b: byte)
    requires v.Consistent() && v.pending == []
    ensures EscapeByte(v, b).Consistent() && EscapeByte(v, b).pending == []
    ensures v.grid.writes == EscapeByte(v, b).grid.writes
  {
    var g, h := v.grid, v.grid.(cursorX := 0);
    assert h.InRange();
    NewlineStaysInRange(g);
    NewlineStaysInRange(h);
    GridKeepsWrites(g);
    GridKeepsWrites(h);
    CursorKeeps(g, 0, 0);
    hide Grid.Newline, Grid.ReverseIndex, Grid.SaveCursor, Grid.RestoreCursor, Grid.InRange;
    GridKeeps(v, g.Newline());
    GridKeeps(v, h.Newline());
    GridKeeps(v, g.ReverseIndex());
    GridKeeps(v, g.SaveCursor());
    GridKeeps(v, g.RestoreCursor());
    EscapeStates(v);
    hide Vt.Consistent;
  }

  lemma EscapeStates(v: Vt)
    requires v.Consistent() && v.pending == []
    ensures v.StartSequence(CSIParam).Consistent() && v.StartSequence(DCSStr).Consistent() && v.Go(Ground).Consistent()
    ensures v.Go(OSCEntry).(oscNum := 0).Consistent() && v.Go(Ground).(fg := 0, bg := 0, attr := 0).Consistent()
  {}

  lemma FinishedKeeps(v: Vt, b: byte)
    requires v.Consistent() && v.pending == []
    ensures Finished(v, b).Consistent() && Finished(v, b).pending == [] && Finished(v, b).grid.writes == v.grid.writes
  {
    hide DispatchCSI;
    FinishKeeps(v);
    DispatchKeeps(v.FinishParam(), b);
  }

  lemma CSIKeeps(v: Vt, b: byte)
    requires v.Consistent() && v.pending == []
    ensures CSIByte(v, b).Consistent() && CSIByte(v, b).pending == []
    ensures Finished(v, b).Consistent() && Finished(v, b).pending == []
    ensures v.grid.writes == CSIByte(v, b).grid.writes == Finished(v, b).grid.writes
  {
    hide Finished, Grid.InRange;
    FinishKeeps(v);
    FinishedKeeps(v, b);
  }

  lemma StringKeeps(v: Vt, b: byte)
    requires v.Consistent() && v.pending == [] && (v.state.OSCEntry? || v.state.OSCString? || v.state.OSCEscape?)
    ensures StringByte(v, b).Consistent() && StringByte(v, b).pending == [] && StringByte(v, b).grid == v.grid
  {
    hide Grid.InRange;
  }

  lemma DeviceKeeps(v: Vt, b: byte)
    requires v.Consistent() && v.pending == []
    requires v.state.DCSEntry? || v.state.DCSInt? || v.state.DCSIgnore? || v.state.DCSStr? || v.state.DCSEscape?
    ensures DeviceByte(v, b).Consistent() && DeviceByte(v, b).pending == [] && DeviceByte(v, b).grid == v.grid
  {
    hide Grid.InRange;
  }

  /** Every byte keeps the invariant, writes at most one cell, and leaves nothing pending. */
  lemma ControlKeeps(v: Vt, b: byte)
    requires v.Consistent() && (v.state == Ground ==> b < 0x80) && v.pending == []
    ensures Control(v, b).Consistent() && Control(v, b).pending == []
    ensures v.grid.writes <= Control(v, b).grid.writes <= v.grid.writes + 1
  {
    hide GroundByte, EscapeByte, CSIByte, Finished, StringByte, DeviceByte, Vt.Consistent, Vt.Go;
    GoKeeps(v, Ground);
    match v.state
    case Ground => GroundKeeps(v, b);
    case Escape => EscapeKeeps(v, b);
    case CSIParam => CSIKeeps(v, b);
    case CSIInt => CSIKeeps(v, b);
    case CSIIgnore =>
    case OSCEntry => StringKeeps(v, b);
    case OSCString => StringKeeps(v, b);
    case OSCEscape => StringKeeps(v, b);
    case _ => DeviceKeeps(v, b);
  }
}
