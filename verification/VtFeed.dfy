/** The parser as it runs: fields updated in place, fast paths for text and for CSI parameters. */
module VtFeed {
  import opened Words
  import opened VtGrid
  import opened Utf8
  import opened VtParser
  import opened VtScan
  import opened WordScan

  class Parser {
    var state: State
    var fg: byte
    var bg: byte
    var attr: byte
    const params: array<nat>
    var num: nat
    var grid: CursorGrid?
    var prm: nat
    var prmSet: bool
    var oscNum: int
    var private: byte
    const pendingUTF8: array<byte>
    var pendingLen: nat
    const nearest: (int, int, int) -> byte

    /** The fields other than the grid. */
    ghost predicate Fields()
      reads this, params, pendingUTF8
    {
      && params.Length == 16 && pendingUTF8.Length == 4 && num <= 16 && prm <= 65535
      && (forall i :: 0 <= i < 16 ==> params[i] <= 65535)
      && pendingLen <= 3
      && (pendingLen > 0 ==> state == Ground && RuneStart(pendingUTF8[0]) && pendingUTF8[0] >= 0xC2)
    }

    ghost predicate Valid()
      reads this, params, pendingUTF8, grid
    {
      Fields() && (grid != null ==> grid.Valid())
    }

    /** There is a grid to draw on. */
    ghost predicate Ready()
      reads this, params, pendingUTF8, grid
    {
      Fields() && grid != null && grid.Valid() && grid.width > 0
    }

    /** Parser and grid as one value; it satisfies the invariant of the value machine. */
    ghost function View(): (v: Vt)
      requires Ready()
      reads this, params, pendingUTF8, grid, grid.cells
      ensures v.Consistent() && |v.params| == 16
    {
      Vt(state, fg, bg, attr, params[..], num, prm, prmSet, oscNum, private, pendingUTF8[..pendingLen], grid.View(), nearest)
    }

    /** Same grid object on the same memory, nothing counted yet. */
    twostate predicate SameGrid()
      reads this, grid
    {
      && grid == old(grid)
      && (grid != null ==> grid.cells == old(grid.cells) && grid.writes == old(grid.writes) && grid.uncounted == old(grid.uncounted))
    }

    constructor (nearest: (int, int, int) -> byte)
      ensures Valid() && grid == null && fresh(params) && fresh(pendingUTF8)
    {
      this.nearest := nearest;
      params := new nat[16](i => 0);
      pendingUTF8 := new byte[4](i => 0);
      state, fg, bg, attr, num, prm, prmSet, oscNum, private, pendingLen := Ground, 0, 0, 0, 0, 0, false, 0, 0, 0;
      grid := null;
    }

    /** The ground state, ready to draw on g if there is one. */
    method Reset(g: CursorGrid?)
      requires Valid() && (g != null ==> g.Valid())
      modifies this
      ensures Valid() && grid == g && (Ready() <==> g != null && g.width > 0)
      ensures Ready() ==> View() == Vt(Ground, 0, 0, 0, params[..], 0, 0, false, 0, 0, [], g.View(), nearest)
    {
      hide CursorGrid.View, CursorGrid.Valid, Vt.Consistent, Grid.InRange;
      state, fg, bg, attr, num, prm, prmSet, oscNum, private, pendingLen := Ground, 0, 0, 0, 0, 0, false, 0, 0, 0;
      grid := g;
    }

    // ------------------------------------------------------------ parameters

    method AddParam()
      requires Ready()
      modifies this`num, this`prm, this`prmSet, params
      ensures Ready() && View() == old(View()).AddParam()
    {
      hide CursorGrid.View, CursorGrid.Valid, Vt.Consistent, Grid.InRange;
      if num < params.Length { params[num] := prm; }
      if num < params.Length { num := num + 1; }
      prm := 0;
      prmSet := false;
    }

    method FinishParam()
      requires Ready()
      modifies this`num, this`prm, this`prmSet, params
      ensures Ready() && View() == old(View()).FinishParam()
    {
      hide CursorGrid.View, CursorGrid.Valid, Vt.Consistent, Grid.InRange;
      if prmSet || num == 0 { AddParam(); }
    }

    method Digit(b: byte)
      requires Ready() && IsDigit(b)
      modifies this`prm, this`prmSet
      ensures Ready() && View() == old(View()).Digit(b)
    {
      hide CursorGrid.View, CursorGrid.Valid, Vt.Consistent, Grid.InRange;
      if prm < 65535 {
        prm := prm * 10 + (b - 0x30);
        if prm > 65535 { prm := 65535; }
      }
      prmSet := true;
    }

    function Param(i: nat): nat
      requires i < params.Length == 16 && num <= 16
      reads this, params
    {
      if i < num then params[i] else 0
    }

    /** Colours and attributes, one parameter after the other. */
    method ApplySGR()
      requires Ready()
      modifies this`fg, this`bg, this`attr
      ensures Ready() && View() == Sgr(old(View()), 0)
    {
      var i := 0;
      while i < num
        invariant Ready() && grid == old(grid) && i >= 0
        invariant Sgr(View(), i) == Sgr(old(View()), 0)
      {
        i := SgrParameter(i);
      }
    }

    method SgrParameter(i0: nat) returns (i: nat)
      requires Ready() && i0 < num
      modifies this`fg, this`bg, this`attr
      ensures Ready() && i > i0 && (View(), i - i0) == SgrStep(old(View()), i0)
    {
      hide CursorGrid.View, CursorGrid.Valid, Vt.Consistent, Grid.InRange, SgrStep;
      if params[i0] < 30 {
        SgrAttribute(i0);
        i := i0;
      } else {
        var k;
        fg, bg, k := SgrColours(i0);
        i := i0 + k;
      }
      i := i + 1;
    }

    /** The parameters from 30 on choose colours: the new ones, and how many more parameters were used. */
    method SgrColours(i: nat) returns (f: byte, b: byte, k: nat)
      requires Ready() && i < num && params[i] >= 30
      ensures SgrStep(View(), i) == (View().(fg := f, bg := b), k + 1)
    {
      hide CursorGrid.View, CursorGrid.Valid, Vt.Consistent, Grid.InRange, SetBit, ClearBit, Extended;
      var v := params[i];
      f, b, k := fg, bg, 0;
      if v == 39 { f := 0; }
      else if v == 49 { b := 0; }
      else if v >= 30 && v <= 37 { f := v - 30; }
      else if v == 38 { f, k := ExtendedColour(i, fg); }
      else if v >= 40 && v <= 47 { b := v - 40; }
      else if v == 48 { b, k := ExtendedColour(i, bg); }
      else if v >= 90 && v <= 97 { f := v - 90 + 8; }
      else if v >= 100 && v <= 107 { b := v - 100 + 8; }
    }

    /** The parameters below 30 set and clear attributes. */
    method SgrAttribute(i: nat)
      requires Ready() && i < num && params[i] < 30
      modifies this`fg, this`bg, this`attr
      ensures Ready() && (View(), 1) == SgrStep(old(View()), i)
    {
      hide CursorGrid.View, CursorGrid.Valid, Vt.Consistent, Grid.InRange, SetBit, ClearBit;
      var v := params[i];
      if v == 0 { fg, bg, attr := 0, 0, 0; }
      else if v == 1 { attr := SetBit(attr, BOLD); }
      else if v == 2 { attr := SetBit(attr, DIM); }
      else if v == 4 { attr := SetBit(attr, UNDERLINE); }
      else if v == 7 { attr := SetBit(attr, INVERSE); }
      else if v == 22 { attr := ClearBit(ClearBit(attr, BOLD), DIM); }
      else if v == 23 { attr := ClearBit(attr, DIM); }
      else if v == 24 { attr := ClearBit(attr, UNDERLINE); }
      else if v == 27 { attr := ClearBit(attr, INVERSE); }
    }

    /** After 38 or 48: an index or three channels, and how many more parameters were used. */
    method ExtendedColour(i: nat, current: byte) returns (c: byte, k: nat)
      requires Ready() && i < num
      ensures (c, k + 1) == Extended(View(), i, current)
    {
      hide CursorGrid.View, CursorGrid.Valid, Vt.Consistent, Grid.InRange;
      if num - i >= 3 && params[i + 1] == 5 {
        c, k := Byte(params[i + 2]), 2;
      } else if num - i >= 5 && params[i + 1] == 2 {
        c, k := nearest(params[i + 2], params[i + 3], params[i + 4]), 4;
      } else {
        c, k := current, 0;
      }
    }

    /** The effect of a complete CSI sequence. */
    method Dispatch(final: byte)
      requires Ready()
      modifies this, params, grid, grid.cells
      ensures Ready() && SameGrid() && View() == DispatchCSI(old(View()), final)
    {
      hide Sgr, CSIGrid;
      if num == 0 { AddParam(); }
      if final as char == 'm' {
        ApplySGR();
      } else {
        DrawCSI(grid, num, Param(0), Param(1), final as char);
      }
    }

    /** The sequences that act on the grid. */
    static method DrawCSI(g: CursorGrid, num: nat, p0: nat, p1: nat, c: char)
      requires g.Valid() && g.width > 0
      modifies g, g.cells
      ensures g.Valid() && g.width > 0 && g.cells == old(g.cells) && g.writes == old(g.writes) && g.uncounted == old(g.uncounted)
      ensures g.View() == CSIGrid(old(g.View()), num, p0, p1, c)
    {
      hide Grid.ScrollUp, Grid.ScrollDown, Grid.SetCursor, Grid.Move, Grid.ClearScreen, Grid.ClearLine, Grid.SaveCursor, Grid.RestoreCursor;
      hide CursorGrid.Valid, Grid.InRange;
      var n: int := if p0 < 1 then 1 else p0;
      if c == 'H' || c == 'f' { g.SetCursor(p1, p0); }
      else if c == 'A' { g.Move(0, -n); }
      else if c == 'B' { g.Move(0, n); }
      else if c == 'C' { g.Move(n, 0); }
      else if c == 'D' { g.Move(-n, 0); }
      else if c == 'G' || c == '`' { g.SetCursor(p0, g.cursorY + 1); }
      else if c == 'd' { g.SetCursor(g.cursorX + 1, p0); }
      else if c == 'J' { g.ClearScreen(p0); }
      else if c == 'K' { g.ClearLine(p0); }
      else if c == 's' { g.SaveCursor(); }
      else if c == 'u' { g.RestoreCursor(); }
      else if c == 'r' {
        if num >= 2 { g.SetRegion(p0, p1); }
      }
      else if c == 'S' { g.ScrollUp(n); }
      else if c == 'T' { g.ScrollDown(n); }
    }

    // ------------------------------------------------------- one byte, slowly

    /** Control bytes between pieces of text. */
    method GroundControl(b: byte)
      requires Ready() && pendingLen == 0 && state == Ground && b < 0x20
      modifies this`state, grid, grid.cells
      ensures Ready() && SameGrid() && View() == GroundByte(old(View()), b)
    {
      hide Grid.Newline, Grid.Tab;
      var g := grid;
      if b == 0x1B { state := Escape; }
      else if b == 0x0D { g.cursorX := 0; g.wrapPending := false; }
      else if b == 0x0A || b == 0x0B || b == 0x0C { g.Newline(); }
      else if b == 0x08 {
        if g.cursorX > 0 { g.cursorX := g.cursorX - 1; }
        g.wrapPending := false;
      }
      else if b == 0x09 { g.Tab(); }
    }

    method Escaped(b: byte)
      requires Ready() && pendingLen == 0
      modifies this, grid, grid.cells
      ensures Ready() && SameGrid() && View() == EscapeByte(old(View()), b)
    {
      hide Grid.Newline, Grid.ReverseIndex, Grid.SaveCursor, Grid.RestoreCursor;
      hide Vt.Consistent, CursorGrid.View, CursorGrid.Valid, Grid.InRange;
      var c, g := b as char, grid;
      if c == '[' { StartSequence(CSIParam); }
      else if c == ']' { state := OSCEntry; oscNum := 0; }
      else if c == 'P' || c == '_' || c == '^' || c == 'X' { StartSequence(DCSStr); }
      else {
        if c == '7' { g.SaveCursor(); }
        else if c == '8' { g.RestoreCursor(); }
        else if c == 'D' { g.Newline(); }
        else if c == 'M' { g.ReverseIndex(); }
        else if c == 'E' { g.NewlineAtStart(); }
        else if c == 'c' { fg, bg, attr := 0, 0, 0; }
        state := Ground;
      }
    }

    method StartSequence(s: State)
      requires Ready() && pendingLen == 0
      modifies this`state, this`num, this`prm, this`prmSet, this`private
      ensures Ready() && View() == old(View()).StartSequence(s)
    {
      hide CursorGrid.View, CursorGrid.Valid, Vt.Consistent, Grid.InRange;
      state, num, prm, prmSet, private := s, 0, 0, false, 0;
    }

    method Finish(b: byte)
      requires Ready() && pendingLen == 0
      modifies this, params, grid, grid.cells
      ensures Ready() && SameGrid() && View() == Finished(old(View()), b)
    {
      hide CursorGrid.View, CursorGrid.Valid, Vt.Consistent, Grid.InRange;
      hide DispatchCSI, Vt.FinishParam;
      FinishParam();
      Dispatch(b);
      state := Ground;
    }

    /** Parameters, intermediates and the final byte of a CSI sequence. */
    method Sequence(b: byte)
      requires Ready() && pendingLen == 0
      modifies this, params, grid, grid.cells
      ensures Ready() && SameGrid() && View() == CSIByte(old(View()), b)
    {
      hide CursorGrid.View, CursorGrid.Valid, Vt.Consistent, Grid.InRange;
      hide Finished;
      if IsDigit(b) { Digit(b); }
      else if b == 0x3B { AddParam(); }
      else if IsMarker(b) { private := b; }
      else if b >= 0x20 && b <= 0x2F { state := CSIInt; }
      else if b >= 0x40 && b <= 0x7E { Finish(b); }
      else if b == 0x18 || b == 0x1A { state := Ground; }
      else { state := CSIIgnore; }
    }

    /** Operating system commands: skipped to their end. */
    method Skipped(b: byte)
      requires Ready() && pendingLen == 0 && (state.OSCEntry? || state.OSCString? || state.OSCEscape?)
      modifies this`state, this`oscNum
      ensures Ready() && View() == StringByte(old(View()), b)
    {
      hide CursorGrid.View, CursorGrid.Valid, Vt.Consistent, Grid.InRange;
      match state
      case OSCEntry =>
        if b >= 0x30 && b <= 0x39 { oscNum := Wrap(oscNum * 10 + (b - 0x30)); }
        else if b == 0x3B { state := OSCString; }
        else if b == 0x07 { state := Ground; }
        else if b == 0x1B { state := OSCEscape; }
        else if b == 0x18 || b == 0x1A { state := Ground; }
        else { state := OSCString; }
      case OSCString =>
        if b == 0x07 { state := Ground; }
        else if b == 0x1B { state := OSCEscape; }
        else if b == 0x18 || b == 0x1A { state := Ground; }
      case OSCEscape =>
        if b == 0x5C || b == 0x07 { state := Ground; }
        else if b != 0x1B { state := OSCString; }
    }

    /** Device control and similar strings: skipped to their end. */
    method Device(b: byte)
      requires Ready() && pendingLen == 0
      requires state.DCSEntry? || state.DCSInt? || state.DCSIgnore? || state.DCSStr? || state.DCSEscape?
      modifies this`state
      ensures Ready() && View() == DeviceByte(old(View()), b)
    {
      hide CursorGrid.View, CursorGrid.Valid, Vt.Consistent, Grid.InRange;
      match state
      case DCSEntry =>
        if (b >= 0x20 && b <= 0x2F) || (b >= 0x30 && b <= 0x3F) { state := DCSInt; }
        else if b >= 0x40 && b <= 0x7E { state := DCSStr; }
        else if b == 0x18 || b == 0x1A { state := Ground; }
        else { state := DCSIgnore; }
      case DCSInt =>
        if (b >= 0x20 && b <= 0x2F) || (b >= 0x30 && b <= 0x3F) { }
        else if b >= 0x40 && b <= 0x7E { state := DCSStr; }
        else if b == 0x18 || b == 0x1A { state := Ground; }
        else { state := DCSIgnore; }
      case DCSIgnore =>
        if (b >= 0x40 && b <= 0x7E) || b == 0x18 || b == 0x1A { state := Ground; }
      case DCSStr =>
        if b == 0x07 { state := Ground; }
        else if b == 0x1B { state := DCSEscape; }
        else if b == 0x18 || b == 0x1A { state := Ground; }
      case DCSEscape =>
        if b == 0x5C || b == 0x07 { state := Ground; }
        else if b != 0x1B { state := DCSStr; }
    }

    /** The slow path for everything but text. */
    method ControlByte(b: byte)
      requires Ready() && pendingLen == 0 && (state == Ground ==> b < 0x20)
      modifies this, params, grid, grid.cells
      ensures Ready() && SameGrid() && pendingLen == 0 && View() == Control(old(View()), b)
    {
      hide GroundByte, EscapeByte, CSIByte, Finished, StringByte, DeviceByte;
      ControlKeeps(View(), b);
      match state
      case Ground => GroundControl(b);
      case Escape => Escaped(b);
      case CSIParam => Sequence(b);
      case CSIInt =>
        if b >= 0x40 && b <= 0x7E { Finish(b); } else if b == 0x18 || b == 0x1A { state := Ground; }
      case CSIIgnore =>
        if (b >= 0x40 && b <= 0x7E) || b == 0x18 || b == 0x1A { state := Ground; }
      case OSCEntry => Skipped(b);
      case OSCString => Skipped(b);
      case OSCEscape => Skipped(b);
      case _ => Device(b);
    }

    // ------------------------------------------------------------------ text

    /** One character at the cursor. */
    method PutRune(r: u32)
      requires Ready()
      modifies grid, grid.cells
      ensures Ready() && grid.cells == old(grid.cells) && grid.writes == old(grid.writes)
      ensures grid.uncounted == old(grid.uncounted) + 1 && View() == old(View()).PutRune(r)
    {
      hide Grid.Put, Vt.Consistent;
      grid.Put(r, fg, bg, attr);
    }

    /** One more byte of the kept character: a rune when it is complete or cannot be completed. */
    method Absorb(b: byte) returns (r: u32, done: bool)
      requires Ready() && pendingLen > 0
      modifies this`pendingLen, pendingUTF8
      ensures Ready()
      ensures var v, p := old(View()), old(View()).pending + [b];
        && (r, done) == (DecodeRune(p).rune, Settled(p))
        && View() == if done then v.(pending := []) else v.(pending := p)
    {
      hide DecodeRune, CursorGrid.View, CursorGrid.Valid, Vt.Consistent, Grid.InRange;
      ghost var p := View().pending + [b];
      pendingUTF8[pendingLen] := b;
      pendingLen := pendingLen + 1;
      assert pendingUTF8[..pendingLen] == p;
      var d := DecodeRune(pendingUTF8[..pendingLen]);
      r, done := d.rune, d.rune != RUNE_ERROR || d.size > 1;
      if !done && (!RuneStart(pendingUTF8[0]) || pendingLen == 4) { done := true; }
      if done { pendingLen := 0; }
    }

    /** Completes the character kept from the previous buffer. */
    method CompletePending(data0: seq<byte>) returns (data: seq<byte>, written: nat)
      requires Ready()
      modifies this`pendingLen, pendingUTF8, grid, grid.cells
      ensures Ready() && grid.cells == old(grid.cells) && grid.writes == old(grid.writes)
      ensures grid.uncounted == old(grid.uncounted) + written && (View(), data) == Drain(old(View()), data0)
    {
      hide Drain, Settled, Vt.PutRune, DecodeRune, Vt.Consistent, CursorGrid.View, CursorGrid.Valid, Grid.InRange;
      data, written := data0, 0;
      DrainStep(View(), data);
      while pendingLen > 0 && |data| > 0
        invariant Ready() && grid.cells == old(grid.cells) && grid.writes == old(grid.writes)
        invariant grid.uncounted == old(grid.uncounted) && written == 0
        invariant Drain(View(), data) == Drain(old(View()), data0)
        decreases |data|
      {
        DrainStep(View(), data);
        var r, done := Absorb(data[0]);
        data := data[1..];
        if done {
          PutRune(r);
          written := 1;
          break;
        }
      }
      if written == 0 { DrainStep(View(), data); }
    }

    /** Where the printable ASCII starting at i ends: eight bytes at a time, then one. */
    method TextEnd(data: seq<byte>, i: nat) returns (j: nat)
      requires i <= |data|
      ensures i <= j <= |data| && (forall k :: i <= k < j ==> Printable(data[k]))
      ensures j < |data| ==> !Printable(data[j])
    {
      hide TextTest, LE;
      j := i;
      while j + 8 <= |data|
        invariant i <= j <= |data| && forall k :: i <= k < j ==> Printable(data[k])
      {
        TextTestIsExact(data[j..j + 8]);
        if TextTest(LE(data[j..j + 8])) != 0 { break; }
        EightMore(data, i, j, data[j..j + 8]);
        j := j + 8;
      }
      while j < |data| && data[j] >= 0x20 && data[j] < 0x80
        invariant i <= j <= |data| && forall k :: i <= k < j ==> Printable(data[k])
      {
        j := j + 1;
      }
    }

    /** A digit, a separator or a marker. */
    method Parameter(b: byte)
      requires Ready() && state == CSIParam && (IsDigit(b) || b == 0x3B || IsMarker(b))
      modifies this`prm, this`prmSet, this`num, this`private, params
      ensures Ready() && View() == Control(old(View()), b) && View().pending == []
    {
      hide CursorGrid.View, CursorGrid.Valid, Grid.InRange, Finished;
      if IsDigit(b) { Digit(b); }
      else if b == 0x3B { AddParam(); }
      else { private := b; }
    }

    /** Tight loop over digits, separators and markers. */
    method Parameters(data: seq<byte>, i0: nat) returns (i: nat)
      requires Ready() && state == CSIParam && i0 <= |data|
      modifies this`prm, this`prmSet, this`num, this`private, params
      ensures Ready() && i0 <= i <= |data|
      ensures Scan(View(), data[i..]) == Scan(old(View()), data[i0..])
    {
      hide Control, Vt.Consistent, Scan, CursorGrid.View, CursorGrid.Valid, Grid.InRange;
      i := i0;
      while i < |data| && (IsDigit(data[i]) || data[i] == 0x3B || IsMarker(data[i]))
        invariant Ready() && i0 <= i <= |data|
        invariant Scan(View(), data[i..]) == Scan(old(View()), data[i0..])
      {
        ScanByte(View(), data, i);
        Parameter(data[i]);
        i := i + 1;
      }
    }

    /** A multi-byte character: written, or kept when the buffer ends inside it. */
    method Rune(data: seq<byte>, i0: nat) returns (i: nat, written: nat)
      requires Ready() && state == Ground && pendingLen == 0 && i0 < |data| && data[i0] >= 0x80
      modifies this`pendingLen, pendingUTF8, grid, grid.cells
      ensures Ready() && grid.cells == old(grid.cells) && grid.writes == old(grid.writes)
      ensures grid.uncounted == old(grid.uncounted) + written && i0 < i <= |data|
      ensures Remaining(View(), data[i..], Scan(old(View()), data[i0..]))
    {
      hide Vt.PutRune, Vt.Consistent;
      var rest := data[i0..];
      if !FullRune(rest) && RuneStart(data[i0]) {
        PartialShape(rest);
        forall k | 0 <= k < |rest| { pendingUTF8[k] := rest[k]; }
        pendingLen := |rest|;
        assert pendingUTF8[..pendingLen] == rest;
        i, written := |data|, 0;
      } else {
        var d := DecodeRune(rest);
        PutRuneKeeps(View(), d.rune);
        PutRune(d.rune);
        assert rest[d.size..] == data[i0 + d.size..];
        i, written := i0 + d.size, 1;
      }
    }

    /** Takes in a buffer and returns the number of cells written. Nothing happens without a grid. */
    method Feed(data0: seq<byte>) returns (written: nat)
      requires Valid() && (grid != null ==> grid.uncounted == 0)
      modifies this, params, pendingUTF8, grid, if grid != null then {grid.cells} else {}
      ensures Valid() && grid == old(grid) && (grid != null ==> grid.uncounted == 0 && grid.cells == old(grid.cells))
      ensures old(!Ready()) ==> written == 0 && !Ready() && unchanged(this, params, pendingUTF8) && (grid != null ==> unchanged(grid))
      ensures old(Ready()) ==> Ready() && View() == Fed(old(View()), data0) && written == grid.writes - old(grid.writes)
    {
      hide Drain, Scan, Fed, Vt.Consistent, Grid.InRange;
      if grid == null || grid.width < 1 || grid.height < 1 { return 0; }
      ghost var before, target := View(), Fed(View(), data0);
      var data;
      data, written := CompletePending(data0);
      DrainThenScan(before, data0);
      var more := Chars(data, target);
      written := written + more;
      grid.writes := grid.writes + written;
      grid.uncounted := 0;
    }

    /** The main loop. */
    method Chars(data: seq<byte>, ghost target: Vt) returns (written: nat)
      requires Ready() && Remaining(View(), data, target)
      modifies this, params, pendingUTF8, grid, grid.cells
      ensures Ready() && grid == old(grid) && grid.cells == old(grid.cells) && grid.writes == old(grid.writes)
      ensures grid.uncounted == old(grid.uncounted) + written && View() == target
    {
      hide Scan, Vt.Consistent, CursorGrid.View, CursorGrid.Valid, Grid.InRange;
      written := 0;
      var i := 0;
      assert data[0..] == data;
      while i < |data|
        invariant Ready() && grid == old(grid) && grid.cells == old(grid.cells) && grid.writes == old(grid.writes)
        invariant grid.uncounted == old(grid.uncounted) + written && 0 <= i <= |data|
        invariant Remaining(View(), data[i..], target)
      {
        var k;
        i, k := Step(data, i);
        written := written + k;
      }
      assert data[i..] == [];
      if pendingLen == 0 { ScanNothing(View()); }
    }

    /** One round of the loop: a run of text, the parameters of a sequence, a character or a byte. */
    method Step(data: seq<byte>, i0: nat) returns (i: nat, written: nat)
      requires Ready() && pendingLen == 0 && i0 < |data|
      modifies this, params, pendingUTF8, grid, grid.cells
      ensures Ready() && grid == old(grid) && grid.cells == old(grid.cells) && grid.writes == old(grid.writes)
      ensures grid.uncounted == old(grid.uncounted) + written && i0 < i <= |data|
      ensures Remaining(View(), data[i..], Scan(old(View()), data[i0..]))
    {
      hide Control, Scan, Vt.Consistent, CursorGrid.View, CursorGrid.Valid, Grid.InRange;
      if state == Ground {
        i := TextEnd(data, i0);
        if i > i0 {
          written := Text(data, i0, i);
          return;
        }
        if data[i] >= 0x80 {
          i, written := Rune(data, i);
          return;
        }
      }
      i, written := i0, 0;
      if state == CSIParam {
        i := Parameters(data, i);
        if i >= |data| { return; }
      }
      ScanByte(View(), data, i);
      ControlByte(data[i]);
      i := i + 1;
    }

    /** A run of printable bytes. */
    method Text(data: seq<byte>, i: nat, j: nat) returns (written: nat)
      requires Ready() && state == Ground && pendingLen == 0 && i <= j <= |data|
      requires forall k :: i <= k < j ==> Printable(data[k])
      modifies grid, grid.cells
      ensures Ready() && grid.cells == old(grid.cells) && grid.writes == old(grid.writes)
      ensures grid.uncounted == old(grid.uncounted) + written
      ensures Remaining(View(), data[j..], Scan(old(View()), data[i..]))
    {
      hide Scan, Vt.Consistent, Grid.PutAll, TextCells, CursorGrid.View, CursorGrid.Valid, Grid.InRange;
      TextRun(View(), data, i, j);
      written := grid.PutRun(data[i..j], fg, bg, attr);
    }
  }

  /** The state v still has the given bytes to go before reaching the target. */
  ghost predicate Remaining(v: Vt, rest: seq<byte>, target: Vt)
    requires v.Consistent()
  {
    if v.pending == [] then Scan(v, rest) == target else rest == [] && v == target
  }

  /** One step of completing a kept character. */
  lemma DrainStep(v: Vt, data: seq<byte>)
    requires v.Consistent()
    ensures v.pending == [] || data == [] ==> Drain(v, data) == (v, data)
    ensures v.pending != [] && data != [] ==> var p := v.pending + [data[0]];
      if Settled(p) then Drain(v, data) == (v.(pending := []).PutRune(DecodeRune(p).rune), data[1..])
      else v.(pending := p).Consistent() && Drain(v, data) == Drain(v.(pending := p), data[1..])
  {
    hide DecodeRune, Vt.PutRune;
  }

  lemma DrainThenScan(v: Vt, data: seq<byte>)
    requires v.Consistent()
    ensures var (w, rest) := Drain(v, data); Remaining(w, rest, Fed(v, data))
  {}

  lemma EightMore(data: seq<byte>, i: nat, j: nat, eight: seq<byte>)
    requires i <= j && j + 8 <= |data| && eight == data[j..j + 8] && (forall k :: i <= k < j ==> Printable(data[k]))
    requires forall k :: 0 <= k < 8 ==> 0x20 <= eight[k] < 0x80
    ensures forall k :: i <= k < j + 8 ==> Printable(data[k])
  {
    forall k | i <= k < j + 8 ensures Printable(data[k]) {
      if k >= j { assert data[k] == eight[k - j]; }
    }
  }

  lemma ScanByte(v: Vt, data: seq<byte>, i: nat)
    requires v.Consistent() && v.pending == [] && i < |data| && (v.state == Ground ==> data[i] < 0x80)
    ensures Control(v, data[i]).Consistent() && Control(v, data[i]).pending == []
    ensures Scan(v, data[i..]) == Scan(Control(v, data[i]), data[i + 1..])
  {
    hide Control, Vt.Consistent;
    ControlKeeps(v, data[i]);
    assert data[i..][1..] == data[i + 1..];
  }

  /** Text in one pass is the same text byte by byte. */
  lemma {:induction false} TextRun(v: Vt, data: seq<byte>, i: nat, j: nat)
    requires v.Consistent() && v.pending == [] && v.state == Ground && i <= j <= |data|
    requires forall k :: i <= k < j ==> Printable(data[k])
    ensures var w := v.(grid := v.grid.PutAll(TextCells(data[i..j], v.fg, v.bg, v.attr)));
      w.Consistent() && Scan(v, data[i..]) == Scan(w, data[j..])
    decreases j - i
  {
    hide Grid.Put, Scan, Vt.Consistent;
    if i < j {
      var c := Cell(data[i], v.fg, v.bg, v.attr, 1);
      var cs := TextCells(data[i..j], v.fg, v.bg, v.attr);
      ScanByte(v, data, i);
      PutRuneKeeps(v, data[i]);
      TextRun(v.PutRune(data[i]), data, i + 1, j);
      assert cs[0] == c && cs[1..] == TextCells(data[i + 1..j], v.fg, v.bg, v.attr);
    } else {
      assert data[i..j] == [];
    }
  }
}
