/** What byte strings do to a parser in the ground state: cursor, cells, colours and attributes. */
module VtEffects {
  import opened Words
  import opened VtGrid
  import opened VtDisplay
  import opened Utf8
  import opened VtParser
  import opened VtScan

  // --------------------------------------------------------- reading bytes

  /** Nothing kept and between sequences. */
  ghost predicate AtRest(v: Vt) { v.Consistent() && v.state == Ground && v.pending == [] }

  /** Colours and attributes are as before, and the parser is at rest again. */
  ghost predicate PenKept(v: Vt, r: Vt) { AtRest(r) && r.fg == v.fg && r.bg == v.bg && r.attr == v.attr }

  /** One byte that is not part of multi-byte text. */
  lemma FedStep(v: Vt, b: byte, rest: seq<byte>)
    requires v.Consistent() && v.pending == [] && (v.state == Ground ==> b < 0x80)
    ensures Control(v, b).Consistent() && Control(v, b).pending == []
    ensures Fed(v, [b] + rest) == Fed(Control(v, b), rest)
  {
    hide Control, Vt.Consistent;
    ControlKeeps(v, b);
    assert ([b] + rest)[1..] == rest;
  }

  /** The number written by decimal digits. */
  function Decimal(d: seq<byte>): nat
    requires AllDigits(d)
  {
    if d == [] then 0 else 10 * Decimal(d[..|d| - 1]) + (d[|d| - 1] - 0x30)
  }

  predicate AllDigits(d: seq<byte>) { forall i :: 0 <= i < |d| ==> IsDigit(d[i]) }

  /** As the parser keeps it. */
  function Number(d: seq<byte>): (n: nat)
    requires AllDigits(d)
    ensures n <= 65535
  {
    AtMost(Decimal(d), 65535)
  }

  /** A parser about to read a parameter. */
  ghost predicate Reading(v: Vt) {
    v.Consistent() && v.state == CSIParam && v.pending == [] && v.prm == 0 && !v.prmSet
  }

  lemma {:induction false} DigitsRead(v: Vt, d: seq<byte>, rest: seq<byte>)
    requires Reading(v) && AllDigits(d)
    ensures v.(prm := Number(d), prmSet := d != []).Consistent()
    ensures Fed(v, d + rest) == Fed(v.(prm := Number(d), prmSet := d != []), rest)
    decreases |d|
  {
    hide Fed, Grid.InRange;
    if d == [] {
      assert d + rest == rest;
    } else {
      var start, b := d[..|d| - 1], d[|d| - 1];
      assert d + rest == start + ([b] + rest);
      DigitsRead(v, start, [b] + rest);
      FedStep(v.(prm := Number(start), prmSet := start != []), b, rest);
    }
  }

  /** Parameters with semicolons between them. */
  function Joined(ds: seq<seq<byte>>): seq<byte>
    requires ds != []
  {
    if |ds| == 1 then ds[0] else ds[0] + [0x3B] + Joined(ds[1..])
  }

  predicate Parameters(ds: seq<seq<byte>>) { ds != [] && forall i :: 0 <= i < |ds| ==> AllDigits(ds[i]) }

  /** A whole control sequence. */
  function Csi(ds: seq<seq<byte>>, final: char): seq<byte>
    requires ds != [] && final < 128 as char
  {
    [0x1B, 0x5B] + Joined(ds) + [final as int]
  }

  /** How many parameters count: an empty one at the end only if it is alone, and at most sixteen. */
  function Count(k: nat, ds: seq<seq<byte>>): nat
    requires ds != []
  {
    AtMost(if ds[|ds| - 1] == [] && k + |ds| > 1 then k + |ds| - 1 else k + |ds|, 16)
  }

  /** A parameter and the semicolon after it. */
  lemma ParameterRead(v: Vt, d: seq<byte>, rest: seq<byte>) returns (w: Vt)
    requires Reading(v) && AllDigits(d)
    ensures Reading(w) && w == v.(params := w.params, num := AtMost(v.num + 1, 16))
    ensures w.params == if v.num < 16 then v.params[v.num := Number(d)] else v.params
    ensures Fed(v, d + ([0x3B] + rest)) == Fed(w, rest)
  {
    hide Fed, Grid.InRange, Number;
    var u := v.(prm := Number(d), prmSet := d != []);
    DigitsRead(v, d, [0x3B] + rest);
    FedStep(u, 0x3B, rest);
    FinishKeeps(u);
    w := u.AddParam();
  }

  /** The last parameter and the final byte. */
  lemma LastRead(v: Vt, d: seq<byte>, final: byte) returns (w: Vt)
    requires Reading(v) && AllDigits(d) && IsFinal(final)
    ensures w.Consistent() && w.num == Count(v.num, [d]) && w == v.(params := w.params, num := w.num)
    ensures w.params == if w.num > v.num then v.params[v.num := Number(d)] else v.params
    ensures Fed(v, d + [final]) == DispatchCSI(w, final).Go(Ground)
  {
    assert Number([]) == 0;
    hide Fed, DispatchCSI, Grid.InRange, Number;
    var u := v.(prm := Number(d), prmSet := d != []);
    DigitsRead(v, d, [final]);
    FinishKeeps(u);
    w := u.FinishParam();
    DispatchKeeps(w, final);
    assert [final] + [] == [final];
    FedStep(u, final, []);
    RestFed(DispatchCSI(w, final).Go(Ground));
  }

  /** The list ds read after k parameters that are already there. */
  lemma {:induction false} ListRead(v: Vt, ds: seq<seq<byte>>, final: byte) returns (w: Vt)
    requires Reading(v) && Parameters(ds) && IsFinal(final)
    ensures w.Consistent() && w.num == Count(v.num, ds)
    ensures w == v.(params := w.params, num := w.num)
    ensures forall i :: 0 <= i < w.num ==> w.params[i] == if i < v.num then v.params[i] else Number(ds[i - v.num])
    ensures Fed(v, Joined(ds) + [final]) == DispatchCSI(w, final).Go(Ground)
    decreases |ds|
  {
    hide Fed, DispatchCSI, Grid.InRange, Number;
    if |ds| == 1 {
      w := LastRead(v, ds[0], final);
    } else {
      var rest := Joined(ds[1..]) + [final];
      assert Joined(ds) + [final] == ds[0] + ([0x3B] + rest);
      var u := ParameterRead(v, ds[0], rest);
      w := ListRead(u, ds[1..], final);
    }
  }

  lemma RestFed(v: Vt)
    requires v.Consistent() && v.pending == []
    ensures Fed(v, []) == v
  {}

  /** A control sequence from rest: its parameters are in place when it is dispatched. */
  lemma SequenceRead(v: Vt, ds: seq<seq<byte>>, final: char) returns (w: Vt)
    requires AtRest(v) && Parameters(ds) && final < 128 as char && IsFinal(final as int)
    ensures w.Consistent() && w.num == Count(0, ds) && forall i :: 0 <= i < w.num ==> w.params[i] == Number(ds[i])
    ensures w == v.(state := CSIParam, params := w.params, num := w.num, prm := 0, prmSet := false, private := 0)
    ensures Fed(v, Csi(ds, final)) == DispatchCSI(w, final as int).Go(Ground)
  {
    hide Fed, DispatchCSI, Grid.InRange;
    var rest := Joined(ds) + [final as int];
    assert Csi(ds, final) == [0x1B] + ([0x5B] + rest);
    FedStep(v, 0x1B, [0x5B] + rest);
    FedStep(v.Go(Escape), 0x5B, rest);
    w := ListRead(v.Go(Escape).StartSequence(CSIParam), ds, final as int);
  }

  // ------------------------------------------------- cursor, cells and region

  /** Every sequence but the selection of colours and attributes: the grid changes, the pen does not. */
  lemma GridSequence(v: Vt, ds: seq<seq<byte>>, final: char)
    requires AtRest(v) && Parameters(ds) && |ds| <= 2 && final < 128 as char && IsFinal(final as int) && final != 'm'
    ensures var r := Fed(v, Csi(ds, final));
      && PenKept(v, r)
      && r.grid == CSIGrid(v.grid, Count(0, ds), Number(ds[0]), if |ds| == 2 then Number(ds[1]) else 0, final)
  {
    hide Fed, CSIGrid, Csi;
    var w := SequenceRead(v, ds, final);
    DispatchKeeps(w, final as int);
  }

  /** A count of steps: at least one. */
  function Steps(d: seq<byte>): (n: nat)
    requires AllDigits(d)
    ensures 1 <= n <= 65535
  {
    if Number(d) == 0 then 1 else Number(d)
  }

  function Min(a: int, b: int): int { if a <= b then a else b }

  function Max(a: int, b: int): int { if a >= b then a else b }

  /** A column or row counted from 1, kept on the screen of n. */
  function Place(d: seq<byte>, n: nat): (x: nat)
    requires AllDigits(d) && 0 < n
    ensures x < n
  {
    Max(1, Min(Number(d), n)) - 1
  }

  lemma CursorUp(v: Vt, d: seq<byte>)
    requires AtRest(v) && AllDigits(d)
    ensures var r := Fed(v, Csi([d], 'A'));
      PenKept(v, r) && r.grid == v.grid.(wrapPending := false, cursorY := Max(0, v.grid.cursorY - Steps(d)))
  {
    GridSequence(v, [d], 'A');
    hide Fed, Csi, Number;
  }

  lemma CursorDown(v: Vt, d: seq<byte>)
    requires AtRest(v) && AllDigits(d)
    ensures var r := Fed(v, Csi([d], 'B'));
      PenKept(v, r) && r.grid == v.grid.(wrapPending := false, cursorY := Min(v.grid.height - 1, v.grid.cursorY + Steps(d)))
  {
    GridSequence(v, [d], 'B');
    hide Fed, Csi, Number;
  }

  lemma CursorForward(v: Vt, d: seq<byte>)
    requires AtRest(v) && AllDigits(d)
    ensures var r := Fed(v, Csi([d], 'C'));
      PenKept(v, r) && r.grid == v.grid.(wrapPending := false, cursorX := Min(v.grid.width - 1, v.grid.cursorX + Steps(d)))
  {
    GridSequence(v, [d], 'C');
    hide Fed, Csi, Number;
  }

  lemma CursorBack(v: Vt, d: seq<byte>)
    requires AtRest(v) && AllDigits(d)
    ensures var r := Fed(v, Csi([d], 'D'));
      PenKept(v, r) && r.grid == v.grid.(wrapPending := false, cursorX := Max(0, v.grid.cursorX - Steps(d)))
  {
    GridSequence(v, [d], 'D');
    hide Fed, Csi, Number;
  }

  /** Row first, column second; without a column the first one. */
  lemma CursorPosition(v: Vt, d: seq<byte>, e: seq<byte>, final: char)
    requires AtRest(v) && AllDigits(d) && AllDigits(e) && (final == 'H' || final == 'f')
    ensures var g, r, s := v.grid, Fed(v, Csi([d, e], final)), Fed(v, Csi([d], final));
      && PenKept(v, r) && PenKept(v, s)
      && r.grid == g.(wrapPending := false, cursorY := Place(d, g.height), cursorX := Place(e, g.width))
      && s.grid == g.(wrapPending := false, cursorY := Place(d, g.height), cursorX := 0)
  {
    GridSequence(v, [d, e], final);
    GridSequence(v, [d], final);
    hide Fed, Csi, Number;
  }

  lemma CursorColumn(v: Vt, d: seq<byte>, final: char)
    requires AtRest(v) && AllDigits(d) && (final == 'G' || final == '`')
    ensures var r := Fed(v, Csi([d], final));
      PenKept(v, r) && r.grid == v.grid.(wrapPending := false, cursorX := Place(d, v.grid.width))
  {
    GridSequence(v, [d], final);
    hide Fed, Csi, Number;
  }

  lemma CursorRow(v: Vt, d: seq<byte>)
    requires AtRest(v) && AllDigits(d)
    ensures var r := Fed(v, Csi([d], 'd'));
      PenKept(v, r) && r.grid == v.grid.(wrapPending := false, cursorY := Place(d, v.grid.height))
  {
    GridSequence(v, [d], 'd');
    hide Fed, Csi, Number;
  }

  /** Erasing on the screen: 0 from the cursor on, 1 up to it, 2 and 3 all, other numbers nothing. */
  lemma EraseScreen(v: Vt, d: seq<byte>, x: nat, y: nat)
    requires AtRest(v) && AllDigits(d) && x < v.grid.width && y < v.grid.height
    ensures var g, r, n := v.grid, Fed(v, Csi([d], 'J')), Number(d);
      && PenKept(v, r) && r.grid.(cells := g.cells) == g
      && CellAt(r.grid, x, y) ==
        if (n == 0 && (y > g.cursorY || (y == g.cursorY && x >= g.cursorX)))
          || (n == 1 && (y < g.cursorY || (y == g.cursorY && x <= g.cursorX))) || n == 2 || n == 3
        then BLANK else CellAt(g, x, y)
  {
    GridSequence(v, [d], 'J');
    ClearScreenShows(v.grid, Number(d), x, y);
    hide Fed, Csi, Number, Grid.ClearScreen;
  }

  lemma EraseLine(v: Vt, d: seq<byte>, x: nat, y: nat)
    requires AtRest(v) && AllDigits(d) && x < v.grid.width && y < v.grid.height
    ensures var g, r, n := v.grid, Fed(v, Csi([d], 'K')), Number(d);
      && PenKept(v, r) && r.grid.(cells := g.cells) == g
      && CellAt(r.grid, x, y) ==
        if y == g.cursorY && ((n == 0 && x >= g.cursorX) || (n == 1 && x <= g.cursorX) || n == 2)
        then BLANK else CellAt(g, x, y)
  {
    GridSequence(v, [d], 'K');
    ClearLineShows(v.grid, Number(d), x, y);
    hide Fed, Csi, Number, Grid.ClearLine;
  }

  /** Saving and restoring the cursor, as a control sequence and as an escape. */
  lemma CursorSaved(v: Vt, d: seq<byte>)
    requires AtRest(v) && AllDigits(d)
    ensures var g := v.grid;
      var s, u := Fed(v, Csi([d], 's')), Fed(v, Csi([d], 'u'));
      && PenKept(v, s) && s.grid == g.(savedX := g.cursorX, savedY := g.cursorY)
      && PenKept(v, u) && u.grid == g.(cursorX := g.savedX, cursorY := g.savedY)
  {
    GridSequence(v, [d], 's');
    GridSequence(v, [d], 'u');
    hide Fed, Csi, Number;
  }

  /** The scroll region: both rows given, in order and on the screen; otherwise nothing changes. */
  lemma ScrollRegion(v: Vt, d: seq<byte>, e: seq<byte>)
    requires AtRest(v) && AllDigits(d) && AllDigits(e)
    ensures var g, r, s := v.grid, Fed(v, Csi([d, e], 'r')), Fed(v, Csi([d], 'r'));
      && PenKept(v, r) && PenKept(v, s) && s.grid == g
      && r.grid == if 1 <= Number(d) <= Number(e) <= g.height
        then g.(top := Number(d) - 1, bottom := Number(e) - 1) else g
  {
    GridSequence(v, [d, e], 'r');
    GridSequence(v, [d], 'r');
    assert Number([]) == 0;
    hide Fed, Csi, Number;
  }

  /** Scrolling by a number of rows, inside the region. */
  lemma ScrolledRows(v: Vt, d: seq<byte>, x: nat, y: nat)
    requires AtRest(v) && AllDigits(d) && x < v.grid.width && y < v.grid.height
    ensures var g, n, up, down := v.grid, Steps(d), Fed(v, Csi([d], 'S')), Fed(v, Csi([d], 'T'));
      var inside := g.top < g.bottom && g.top <= y <= g.bottom;
      && PenKept(v, up) && up.grid.(cells := g.cells) == g && PenKept(v, down) && down.grid.(cells := g.cells) == g
      && CellAt(up.grid, x, y) == (if inside then if y + n <= g.bottom then CellAt(g, x, y + n) else BLANK else CellAt(g, x, y))
      && CellAt(down.grid, x, y) == (if inside then if y >= g.top + n then CellAt(g, x, y - n) else BLANK else CellAt(g, x, y))
  {
    GridSequence(v, [d], 'S');
    GridSequence(v, [d], 'T');
    ScrollUpShows(v.grid, Steps(d), x, y);
    ScrollDownShows(v.grid, Steps(d), x, y);
    hide Fed, Csi, Number, Grid.ScrollUp, Grid.ScrollDown;
  }

  /** Final bytes with a meaning. */
  predicate Meant(c: char) {
    c == 'm' || c == 'H' || c == 'f' || c == 'A' || c == 'B' || c == 'C' || c == 'D' || c == 'G' || c == '`' || c == 'd'
    || c == 'J' || c == 'K' || c == 's' || c == 'u' || c == 'r' || c == 'S' || c == 'T'
  }

  /** All other sequences leave pen and grid alone. */
  lemma OthersIgnored(v: Vt, ds: seq<seq<byte>>, final: char)
    requires AtRest(v) && Parameters(ds) && final < 128 as char && IsFinal(final as int) && !Meant(final)
    ensures PenKept(v, Fed(v, Csi(ds, final))) && Fed(v, Csi(ds, final)).grid == v.grid
  {
    hide Fed, Csi;
    var w := SequenceRead(v, ds, final);
    DispatchKeeps(w, final as int);
  }
}
