/** What control bytes, escapes, neutralised strings and text do to a parser in the ground state. */
module VtControls {
  import opened Words
  import opened VtGrid
  import opened VtDisplay
  import opened Utf8
  import opened VtParser
  import opened VtScan
  import opened VtEffects

  // ----------------------------------------------------------- control bytes

  /** One 7-bit byte from rest. */
  lemma OneByte(v: Vt, b: byte)
    requires AtRest(v) && b < 0x80
    ensures Fed(v, [b]) == GroundByte(v, b)
  {
    hide Fed, GroundByte;
    FedByte(v, b);
  }

  /** To the first column. */
  lemma CarriageReturn(v: Vt)
    requires AtRest(v)
    ensures var r := Fed(v, [0x0D]); PenKept(v, r) && r.grid == v.grid.(cursorX := 0, wrapPending := false)
  {
    hide Fed;
    OneByte(v, 0x0D);
  }

  lemma Backspace(v: Vt)
    requires AtRest(v)
    ensures var r := Fed(v, [0x08]); PenKept(v, r) && r.grid == v.grid.(cursorX := Max(0, v.grid.cursorX - 1), wrapPending := false)
  {
    hide Fed;
    OneByte(v, 0x08);
  }

  /** To the next multiple of eight, or the last column. */
  lemma HorizontalTab(v: Vt)
    requires AtRest(v)
    ensures var g, r := v.grid, Fed(v, [0x09]);
      && PenKept(v, r) && r.grid == g.(cursorX := r.grid.cursorX) && g.cursorX <= r.grid.cursorX
      && (r.grid.cursorX % 8 == 0 || r.grid.cursorX == g.width - 1)
      && (r.grid.cursorX == g.cursorX ==> g.cursorX == g.width - 1)
      && forall x: nat :: g.cursorX < x < r.grid.cursorX ==> x % 8 != 0
  {
    OneByte(v, 0x09);
    TabStop(v.grid);
    hide Fed, Grid.Tab;
  }

  /** A line down, keeping the column: the region moves up one row from its last row on. */
  ghost predicate LineDown(g: Grid, r: Grid, x: nat, y: nat)
    requires g.InRange() && x < g.width && y < g.height
  {
    && r.InRange() && r == g.(cells := r.cells, cursorY := if g.cursorY < g.bottom then g.cursorY + 1 else g.bottom)
    && CellAt(r, x, y) ==
      if g.cursorY >= g.bottom && g.top < g.bottom && g.top <= y <= g.bottom then
        if y < g.bottom then CellAt(g, x, y + 1) else BLANK
      else CellAt(g, x, y)
  }

  lemma LineFeed(v: Vt, b: byte, x: nat, y: nat)
    requires AtRest(v) && 0x0A <= b <= 0x0C && x < v.grid.width && y < v.grid.height
    ensures PenKept(v, Fed(v, [b])) && LineDown(v.grid, Fed(v, [b]).grid, x, y)
  {
    OneByte(v, b);
    NewlineShows(v.grid, x, y);
    hide Fed, Grid.Newline;
  }

  /** All other control bytes but escape do nothing. */
  lemma SilentByte(v: Vt, b: byte)
    requires AtRest(v) && b < 0x20 && b != 0x1B && b != 0x0D && !(0x08 <= b <= 0x0C)
    ensures Fed(v, [b]) == v
  {
    hide Fed;
    OneByte(v, b);
  }

  // ----------------------------------------------------------------- escapes

  /** Bytes that open a string after an escape. */
  predicate Opens(c: char) { c == ']' || c == 'P' || c == '_' || c == '^' || c == 'X' }

  function Esc(c: char): seq<byte>
    requires c < 128 as char
  {
    [0x1B, c as int]
  }

  lemma EscapeRead(v: Vt, c: char, rest: seq<byte>)
    requires AtRest(v) && c < 128 as char
    ensures v.Go(Escape).Consistent() && Control(v.Go(Escape), c as int).Consistent()
    ensures Control(v.Go(Escape), c as int).pending == []
    ensures Fed(v, Esc(c) + rest) == Fed(Control(v.Go(Escape), c as int), rest)
  {
    assert Esc(c) + rest == [0x1B] + ([c as int] + rest);
    FedStep(v, 0x1B, [c as int] + rest);
    assert Control(v, 0x1B) == v.Go(Escape);
    hide Fed, Control, Grid.InRange;
    FedStep(v.Go(Escape), c as int, rest);
  }

  lemma EscapeDone(v: Vt, c: char)
    requires AtRest(v) && c < 128 as char
    ensures v.Go(Escape).Consistent() && Fed(v, Esc(c)) == EscapeByte(v.Go(Escape), c as int)
  {
    EscapeRead(v, c, []);
    hide Fed, EscapeByte, Grid.InRange;
    assert Esc(c) + [] == Esc(c);
    RestFed(Control(v.Go(Escape), c as int));
  }

  lemma SaveAndRestore(v: Vt)
    requires AtRest(v)
    ensures var g, s, u := v.grid, Fed(v, Esc('7')), Fed(v, Esc('8'));
      && PenKept(v, s) && s.grid == g.(savedX := g.cursorX, savedY := g.cursorY)
      && PenKept(v, u) && u.grid == g.(cursorX := g.savedX, cursorY := g.savedY)
  {
    EscapeDone(v, '7');
    EscapeDone(v, '8');
    hide Fed;
  }

  /** Index and next line. */
  lemma IndexDown(v: Vt, x: nat, y: nat)
    requires AtRest(v) && x < v.grid.width && y < v.grid.height
    ensures PenKept(v, Fed(v, Esc('D'))) && LineDown(v.grid, Fed(v, Esc('D')).grid, x, y)
    ensures PenKept(v, Fed(v, Esc('E'))) && LineDown(v.grid.(cursorX := 0), Fed(v, Esc('E')).grid, x, y)
  {
    EscapeDone(v, 'D');
    EscapeDone(v, 'E');
    NewlineShows(v.grid, x, y);
    NewlineShows(v.grid.(cursorX := 0), x, y);
    hide Fed, Grid.Newline;
  }

  /** Reverse index: a line up, the region moving down one row from its first row. */
  lemma IndexUp(v: Vt, x: nat, y: nat)
    requires AtRest(v) && x < v.grid.width && y < v.grid.height
    ensures var g, r := v.grid, Fed(v, Esc('M'));
      && PenKept(v, r)
      && r.grid == g.(cells := r.grid.cells, cursorY := if g.cursorY != g.top && g.cursorY > 0 then g.cursorY - 1 else g.cursorY)
      && CellAt(r.grid, x, y) ==
        if g.cursorY == g.top && g.top < g.bottom && g.top <= y <= g.bottom then
          if y > g.top then CellAt(g, x, y - 1) else BLANK
        else CellAt(g, x, y)
  {
    EscapeDone(v, 'M');
    ReverseIndexShows(v.grid, x, y);
    hide Fed, Grid.ReverseIndex;
  }

  /** Reset clears colours and attributes, not the grid. */
  lemma PenReset(v: Vt)
    requires AtRest(v)
    ensures var r := Fed(v, Esc('c')); AtRest(r) && r.fg == 0 && r.bg == 0 && r.attr == 0 && r.grid == v.grid
  {
    EscapeDone(v, 'c');
    hide Fed;
  }

  /** An escape with any other byte that opens nothing is dropped. */
  lemma EscapeDropped(v: Vt, c: char)
    requires AtRest(v) && c < 128 as char && !Opens(c) && c != '['
    requires c != '7' && c != '8' && c != 'D' && c != 'E' && c != 'M' && c != 'c'
    ensures Fed(v, Esc(c)) == v
  {
    EscapeDone(v, c);
    hide Fed;
  }

  // ----------------------------------------------------------------- strings

  predicate EndsInEscape(p: seq<byte>) { p != [] && p[|p| - 1] == 0x1B }

  /** The byte that ends a string after the payload p: BEL anywhere, a backslash only after an escape,
      CAN and SUB only elsewhere. */
  predicate Closes(p: seq<byte>, b: byte) {
    b == 0x07 || (if EndsInEscape(p) then b == 0x5C else Cancel(b))
  }

  /** Nothing in p ends the string. */
  predicate StaysOpen(p: seq<byte>) { forall i :: 0 <= i < |p| ==> !Closes(p[..i], p[i]) }

  ghost predicate InString(v: Vt, p: seq<byte>) {
    && v.Consistent() && v.pending == []
    && (if EndsInEscape(p) then v.state == OSCEscape || v.state == DCSEscape
        else v.state == OSCEntry || v.state == OSCString || v.state == DCSStr)
  }

  /** Grid and pen are the same. */
  predicate Untouched(v: Vt, w: Vt) { w.grid == v.grid && w.fg == v.fg && w.bg == v.bg && w.attr == v.attr }

  lemma InStringStep(v: Vt, p: seq<byte>, b: byte)
    requires InString(v, p)
    ensures Control(v, b).Consistent() && Control(v, b).pending == [] && Untouched(v, Control(v, b))
    ensures if Closes(p, b) then Control(v, b).state == Ground else InString(Control(v, b), p + [b])
  {
    hide Grid.InRange;
    ControlKeeps(v, b);
  }

  lemma {:induction false} PayloadRead(v: Vt, p: seq<byte>, rest: seq<byte>) returns (w: Vt)
    requires InString(v, []) && StaysOpen(p)
    ensures InString(w, p) && Untouched(v, w) && Fed(v, p + rest) == Fed(w, rest)
    decreases |p|
  {
    hide Fed, Control, Closes;
    if p == [] {
      assert p + rest == rest;
      w := v;
    } else {
      var start, b := p[..|p| - 1], p[|p| - 1];
      assert p + rest == start + ([b] + rest);
      forall i | 0 <= i < |start| ensures !Closes(start[..i], start[i]) { assert start[..i] == p[..i]; }
      var u := PayloadRead(v, start, [b] + rest);
      InStringStep(u, start, b);
      assert start + [b] == p;
      FedStep(u, b, rest);
      w := Control(u, b);
    }
  }

  /** Introduction and payload. */
  lemma PayloadFed(v: Vt, c: char, p: seq<byte>, rest: seq<byte>) returns (w: Vt)
    requires AtRest(v) && c < 128 as char && Opens(c) && StaysOpen(p)
    ensures InString(w, p) && Untouched(v, w) && Fed(v, Esc(c) + p + rest) == Fed(w, rest)
  {
    hide Fed, Closes, Grid.InRange;
    EscapeRead(v, c, p + rest);
    assert Esc(c) + p + rest == Esc(c) + (p + rest);
    var u := Control(v.Go(Escape), c as int);
    assert u.state == (if c == ']' then OSCEntry else DCSStr) && Untouched(v, u);
    hide Control, StaysOpen, Esc;
    w := PayloadRead(u, p, rest);
  }

  /** Whatever a string contains, its bytes reach neither grid nor pen, and exactly its first closing
      byte ends it. */
  lemma StringSwallowed(v: Vt, c: char, p: seq<byte>, last: byte)
    requires AtRest(v) && c < 128 as char && Opens(c) && StaysOpen(p)
    ensures Untouched(v, Fed(v, Esc(c) + p)) && !AtRest(Fed(v, Esc(c) + p))
    ensures Untouched(v, Fed(v, Esc(c) + p + [last])) && (AtRest(Fed(v, Esc(c) + p + [last])) <==> Closes(p, last))
  {
    hide Fed, Closes, Vt.Consistent, Control, StaysOpen, Esc, Opens;
    var w := PayloadFed(v, c, p, []);
    var z := PayloadFed(v, c, p, [last]);
    assert Esc(c) + p + [] == Esc(c) + p && [last] + [] == [last];
    RestFed(w);
    InStringStep(z, p, last);
    FedStep(z, last, []);
    RestFed(Control(z, last));
  }

  // -------------------------------------------------------------------- text

  /** Scalar values that are shown. */
  type Character = r: u32 | Scalar(r) && r >= 0x20 witness 0x20

  function TextCell(v: Vt, r: Character): Cell { Cell(r, v.fg, v.bg, v.attr, 1) }

  lemma CharacterRead(v: Vt, r: Character, rest: seq<byte>)
    requires AtRest(v)
    ensures AtRest(v.PutRune(r)) && Fed(v, Encode(r) + rest) == Fed(v.PutRune(r), rest)
  {
    hide Vt.PutRune;
    var e := Encode(r);
    PutRuneKeeps(v, r);
    DecodeEncoded(r, rest);
    assert (e + rest)[|e|..] == rest;
    if r < 0x80 {
      assert v.PutRune(r) == Control(v, r);
    } else {
      LeadByte(r);
    }
    hide DecodeRune, FullRune, Encode, Control, Vt.Consistent;
  }

  lemma LeadByte(r: nat)
    requires Scalar(r) && r >= 0x80
    ensures Encode(r)[0] >= 0x80
  {}

  /** The bytes of a text. */
  function EncodeAll(rs: seq<Character>): seq<byte> {
    if rs == [] then [] else Encode(rs[0]) + EncodeAll(rs[1..])
  }

  function TextCells(v: Vt, rs: seq<Character>): (cs: seq<Cell>) {
    seq(|rs|, i requires 0 <= i < |rs| => TextCell(v, rs[i]))
  }

  /** A text puts one cell for each character, in the colours and attributes of the moment. */
  lemma {:induction false} TextPuts(v: Vt, rs: seq<Character>)
    requires AtRest(v)
    ensures PenKept(v, Fed(v, EncodeAll(rs))) && Fed(v, EncodeAll(rs)).grid == v.grid.PutAll(TextCells(v, rs))
    decreases |rs|
  {
    hide Fed, Encode, Grid.Put, Grid.InRange;
    if rs == [] {
      RestFed(v);
    } else {
      var w := v.PutRune(rs[0]);
      CharacterRead(v, rs[0], EncodeAll(rs[1..]));
      TextPuts(w, rs[1..]);
      var cs := TextCells(v, rs);
      assert cs[0] == TextCell(v, rs[0]) && cs[1..] == TextCells(w, rs[1..]);
    }
  }

  /** One character at the cursor, after a pending wrap; no other cell changes. */
  lemma CharacterShows(v: Vt, r: Character, x: nat, y: nat)
    requires AtRest(v) && x < v.grid.width && y < v.grid.height
    ensures var g, w := v.grid.Wrapped(), Fed(v, Encode(r));
      && PenKept(v, w) && g.InRange() && g.width == v.grid.width && g.height == v.grid.height
      && g == (if v.grid.wrapPending then v.grid.(wrapPending := false, cursorX := 0).Newline() else v.grid)
      && w.grid == g.(cells := w.grid.cells, writes := v.grid.writes + 1, wrapPending := g.cursorX == g.width - 1,
           cursorX := if g.cursorX == g.width - 1 then g.cursorX else g.cursorX + 1)
      && CellAt(w.grid, x, y) == (if x == g.cursorX && y == g.cursorY then TextCell(v, r) else CellAt(g, x, y))
  {
    CharacterRead(v, r, []);
    assert Encode(r) + [] == Encode(r);
    hide Fed, Encode, Grid.Put, Grid.Newline;
    RestFed(v.PutRune(r));
    WrapKeepsSize(v.grid);
    PutShows(v.grid, TextCell(v, r), x, y);
  }

  /** A text on a blank screen of more than one row: its last lines that fit, from the top. */
  lemma TextShows(v: Vt, w: nat, h: nat, rs: seq<Character>, x: nat, y: nat)
    requires 0 < w && 1 < h && v.grid == BlankGrid(w, h) && AtRest(v) && x < w && y < h
    requires rs != []
    ensures var g, lines := Fed(v, EncodeAll(rs)).grid, Lines(|rs|, w);
      var first := if lines > h then lines - h else 0;
      var n := (first + y) * w + x;
      && g.InRange() && g.width == w && g.height == h && n >= 0
      && CellAt(g, x, y) == if n < |rs| then TextCell(v, rs[n]) else BLANK
  {
    hide Fed, EncodeAll, BlankGrid, Grid.PutAll, Lines, AtRest, PenKept, Grid.InRange, CellAt;
    TextPuts(v, rs);
    RunShows(w, h, TextCells(v, rs), x, y);
  }

  /** A byte above ASCII that begins no character is shown as the replacement character. */
  lemma StrayByte(v: Vt, b: byte)
    requires AtRest(v) && b >= 0x80 && Size(b) == 1
    ensures Fed(v, [b]) == v.PutRune(RUNE_ERROR)
  {
    hide Fed, Vt.PutRune;
    FedByte(v, b);
  }
}
