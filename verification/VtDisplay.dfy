/** What the grid operations show, cell by cell, in columns and rows. */
module VtDisplay {
  import opened Words
  import opened VtGrid

  ghost function CellAt(g: Grid, x: nat, y: nat): Cell
    requires g.InRange() && x < g.width && y < g.height
  {
    RowInside(y, g.width, g.height);
    g.cells[y * g.width + x]
  }

  // -------------------------------------------------------------- scrolling

  /** Cell (x, y) is in rows lo to hi exactly if its index is. */
  lemma RowsAsIndices(w: nat, x: nat, y: nat, lo: nat, hi: nat)
    requires x < w
    ensures lo * w <= y * w + x < (hi + 1) * w <==> lo <= y <= hi
    ensures lo * w >= 0
  {
    if y < lo { MulMono(y + 1, lo, w); } else { MulMono(lo, y, w); }
    if y <= hi { MulMono(y + 1, hi + 1, w); } else { MulMono(hi + 1, y, w); }
    MulMono(0, lo, w);
  }

  /** Rows of the region come from n rows below, blank where there is none; a region of one row stays. */
  lemma ScrollUpShows(g: Grid, n: nat, x: nat, y: nat)
    requires g.InRange() && x < g.width && y < g.height
    ensures g.ScrollUp(n).InRange() && g.ScrollUp(n).(cells := g.cells) == g
    ensures CellAt(g.ScrollUp(n), x, y) ==
      if g.top < g.bottom && g.top <= y <= g.bottom then if y + n <= g.bottom then CellAt(g, x, y + n) else BLANK
      else CellAt(g, x, y)
  {
    ScrollsStayInRange(g, n);
    hide Grid.ScrollUp;
    ScrollKeepsRest(g, n);
    if g.top < g.bottom {
      RowInside(y, g.width, g.height);
      ScrollUpAt(g, n, n * g.width, y * g.width + x);
      RowsAsIndices(g.width, x, y, g.top, g.bottom);
      RowsAsIndices(g.width, x, y + n, 0, g.bottom);
      SumTimes(y, n, g.width);
    } else {
      NoScroll(g);
    }
  }

  lemma ScrollDownShows(g: Grid, n: nat, x: nat, y: nat)
    requires g.InRange() && x < g.width && y < g.height
    ensures g.ScrollDown(n).InRange() && g.ScrollDown(n).(cells := g.cells) == g
    ensures CellAt(g.ScrollDown(n), x, y) ==
      if g.top < g.bottom && g.top <= y <= g.bottom then if y >= g.top + n then CellAt(g, x, y - n) else BLANK
      else CellAt(g, x, y)
  {
    ScrollsStayInRange(g, n);
    hide Grid.ScrollDown;
    ScrollKeepsRest(g, n);
    if g.top < g.bottom {
      RowInside(y, g.width, g.height);
      ScrollDownAt(g, n, n * g.width, y * g.width + x);
      RowsAsIndices(g.width, x, y, g.top, g.bottom);
      RowsAsIndices(g.width, x, y, g.top + n, y);
      SumTimes(g.top, n, g.width);
      if y >= n { SumTimes(y - n, n, g.width); }
    } else {
      NoScroll(g);
    }
  }

  // ------------------------------------------------------------------ lines

  /** Above the last row of the region, or outside it, a newline only moves down; from the last row
      on the region moves up one row and the cursor is in its last row. */
  lemma NewlineShows(g: Grid, x: nat, y: nat)
    requires g.InRange() && x < g.width && y < g.height
    ensures var r := g.Newline();
      && r.InRange() && r == g.(cells := r.cells, cursorY := if g.cursorY < g.bottom then g.cursorY + 1 else g.bottom)
      && CellAt(r, x, y) ==
        if g.cursorY >= g.bottom && g.top < g.bottom && g.top <= y <= g.bottom then
          if y < g.bottom then CellAt(g, x, y + 1) else BLANK
        else CellAt(g, x, y)
  {
    NewlineStaysInRange(g);
    ScrollUpShows(g, 1, x, y);
    hide Grid.ScrollUp;
  }

  /** In the first row of the region the region moves down one row; elsewhere the cursor moves up, if it can. */
  lemma ReverseIndexShows(g: Grid, x: nat, y: nat)
    requires g.InRange() && x < g.width && y < g.height
    ensures var r := g.ReverseIndex();
      && r.InRange()
      && r == g.(cells := r.cells, cursorY := if g.cursorY != g.top && g.cursorY > 0 then g.cursorY - 1 else g.cursorY)
      && CellAt(r, x, y) ==
        if g.cursorY == g.top && g.top < g.bottom && g.top <= y <= g.bottom then
          if y > g.top then CellAt(g, x, y - 1) else BLANK
        else CellAt(g, x, y)
  {
    NewlineStaysInRange(g);
    ScrollDownShows(g, 1, x, y);
    hide Grid.ScrollDown;
  }

  /** The next multiple of eight, or the last column. */
  lemma TabStop(g: Grid)
    requires g.InRange()
    ensures var r := g.Tab();
      && r == g.(cursorX := r.cursorX) && g.cursorX <= r.cursorX < g.width
      && (r.cursorX % 8 == 0 || r.cursorX == g.width - 1)
      && (r.cursorX == g.cursorX ==> g.cursorX == g.width - 1)
      && forall x: nat :: g.cursorX < x < r.cursorX ==> x % 8 != 0
  {
    forall x: nat | g.cursorX < x < g.Tab().cursorX ensures x % 8 != 0 {
      NoStopBetween(g.cursorX, x);
    }
  }

  lemma NoStopBetween(c: nat, x: nat)
    requires c < x < (c / 8 + 1) * 8
    ensures x % 8 != 0
  {
    DivModUnique(x, c / 8, x - c / 8 * 8, 8);
  }

  // ---------------------------------------------------------------- clearing

  /** From the cursor to the end, from the beginning to the cursor, or all; nothing else changes. */
  lemma ClearScreenShows(g: Grid, mode: nat, x: nat, y: nat)
    requires g.InRange() && x < g.width && y < g.height
    ensures var r := g.ClearScreen(mode);
      && r.InRange() && r.(cells := g.cells) == g
      && CellAt(r, x, y) ==
        if (mode == 0 && (y > g.cursorY || (y == g.cursorY && x >= g.cursorX)))
          || (mode == 1 && (y < g.cursorY || (y == g.cursorY && x <= g.cursorX))) || mode == 2 || mode == 3
        then BLANK else CellAt(g, x, y)
  {
    ClearingStaysInRange(g, mode);
    RowInside(y, g.width, g.height);
    RowInside(g.cursorY, g.width, g.height);
    Reading(g.width, x, y, g.cursorX, g.cursorY);
    hide Grid.InRange;
    ClearedAt(g, 0, g.cursorY * g.width + g.cursorX + 1, y * g.width + x);
    ClearedAt(g, g.cursorY * g.width + g.cursorX, g.height * g.width, y * g.width + x);
    ClearedAt(g, 0, g.height * g.width, y * g.width + x);
    hide Grid.Cleared;
  }

  lemma ClearedAt(g: Grid, lo: nat, hi: nat, i: nat)
    requires i < |g.cells|
    ensures |g.Cleared(lo, hi).cells| == |g.cells| && g.Cleared(lo, hi).(cells := g.cells) == g
    ensures g.Cleared(lo, hi).cells[i] == if lo <= i < hi then BLANK else g.cells[i]
  {}

  lemma ClearLineShows(g: Grid, mode: nat, x: nat, y: nat)
    requires g.InRange() && x < g.width && y < g.height
    ensures var r := g.ClearLine(mode);
      && r.InRange() && r.(cells := g.cells) == g
      && CellAt(r, x, y) ==
        if y == g.cursorY && ((mode == 0 && x >= g.cursorX) || (mode == 1 && x <= g.cursorX) || mode == 2)
        then BLANK else CellAt(g, x, y)
  {
    ClearingStaysInRange(g, mode);
    RowInside(y, g.width, g.height);
    RowInside(g.cursorY, g.width, g.height);
    hide Grid.InRange;
    var row, i := g.cursorY * g.width, y * g.width + x;
    LineIndices(g.width, x, y, g.cursorX, g.cursorY, row, i);
    ClearedAt(g, row + g.cursorX, row + g.width, i);
    ClearedAt(g, row, row + g.cursorX + 1, i);
    ClearedAt(g, row, row + g.width, i);
    hide Grid.Cleared;
  }

  /** Cell (x, y) against the stretches of the cursor's line. */
  lemma LineIndices(w: nat, x: nat, y: nat, cx: nat, cy: nat, row: int, i: int)
    requires x < w && cx < w && row == cy * w && i == y * w + x
    ensures row + cx <= i < row + w <==> y == cy && x >= cx
    ensures row <= i < row + cx + 1 <==> y == cy && x <= cx
    ensures row <= i < row + w <==> y == cy
  {
    if y > cy { MulMono(cy + 1, y, w); }
    if y < cy { MulMono(y + 1, cy, w); }
  }

  /** Reading order is index order. */
  lemma Reading(w: nat, x: nat, y: nat, cx: nat, cy: nat)
    requires x < w && cx < w
    ensures y * w + x >= cy * w + cx <==> y > cy || (y == cy && x >= cx)
    ensures y * w + x <= cy * w + cx <==> y < cy || (y == cy && x <= cx)
  {
    if y > cy { MulMono(cy + 1, y, w); }
    if y < cy { MulMono(y + 1, cy, w); }
  }

  // ----------------------------------------------------------------- writing

  /** After a pending wrap the cell at the cursor is the new one, no other changes, and the cursor is
      in the next column, or stays in the last one with the wrap pending. */
  lemma PutShows(g: Grid, c: Cell, x: nat, y: nat)
    requires g.InRange() && x < g.width && y < g.height
    ensures var v, r := g.Wrapped(), g.Put(c);
      && v.InRange() && r.InRange() && v == (if g.wrapPending then g.(wrapPending := false, cursorX := 0).Newline() else g)
      && CellAt(r, x, y) == (if x == v.cursorX && y == v.cursorY then c else CellAt(v, x, y))
      && r == v.(cells := r.cells, writes := g.writes + 1, wrapPending := v.cursorX == g.width - 1,
           cursorX := if v.cursorX == g.width - 1 then v.cursorX else v.cursorX + 1)
  {
    PutStaysInRange(g, c);
    PutFirst(g, g.Wrapped(), c);
    WrapKeepsSize(g);
    RowInside(y, g.width, g.height);
    hide Grid.Wrapped, Grid.Put;
    var v := g.Wrapped();
    Reading(g.width, x, y, v.cursorX, v.cursorY);
  }

  lemma WrapKeepsSize(g: Grid)
    requires g.InRange()
    ensures g.Wrapped().width == g.width && g.Wrapped().height == g.height && g.Wrapped().writes == g.writes
    ensures !g.Wrapped().wrapPending
  {
    hide Grid.ScrollUp;
    ScrollKeepsRest(g.(wrapPending := false, cursorX := 0), 1);
  }

  /** The grid shows what was written on a blank screen, `first` lines having left it at the top. */
  ghost predicate Shows(g: Grid, cs: seq<Cell>, first: nat, gone: nat) {
    && g.InRange() && g.top == 0 && g.bottom == g.height - 1 && g.height > 1 && gone == first * g.width
    && (first > 0 ==> g.cursorY == g.bottom)
    && gone + g.cursorY * g.width + g.cursorX == |cs| - (if g.wrapPending then 1 else 0)
    && (g.wrapPending ==> g.cursorX == g.width - 1)
    && forall i :: 0 <= i < |g.cells| ==> g.cells[i] == if gone + i < |cs| then cs[gone + i] else BLANK
  }

  /** The cursor is not at the start of a line it has not written to. */
  predicate Behind(g: Grid, cs: seq<Cell>) { cs == [] || g.wrapPending || g.cursorX > 0 }

  /** A pending wrap makes room for the next cell, in the next row or by scrolling. */
  lemma WrapShows(g: Grid, cs: seq<Cell>, first: nat, gone: nat) returns (first': nat, gone': nat)
    requires Shows(g, cs, first, gone) && g.wrapPending
    ensures Shows(g.Wrapped(), cs, first', gone') && !g.Wrapped().wrapPending
    ensures g.Wrapped().width == g.width && g.Wrapped().height == g.height
  {
    var h := g.(wrapPending := false, cursorX := 0);
    WrapKeepsSize(g);
    NewlineStaysInRange(h);
    SumTimes(g.cursorY, 1, g.width);
    SumTimes(first, 1, g.width);
    if g.cursorY < g.bottom {
      first', gone' := first, gone;
    } else {
      first', gone' := first + 1, gone + g.width;
      WholeHeight(g);
      hide Grid.ScrollUp;
      forall i: nat | i < |g.cells| ensures h.ScrollUp(1).cells[i] == if gone' + i < |cs| then cs[gone' + i] else BLANK {
        ScrollUpAt(h, 1, g.width, i);
      }
      ScrollKeepsRest(h, 1);
    }
  }

  lemma WholeHeight(g: Grid)
    requires g.InRange() && g.bottom == g.height - 1
    ensures g.bottom * g.width + g.width == |g.cells| == (g.bottom + 1) * g.width
  {}

  /** One more cell. */
  lemma PutShowsOne(g: Grid, cs: seq<Cell>, c: Cell, first: nat, gone: nat) returns (first': nat, gone': nat)
    requires Shows(g, cs, first, gone)
    ensures Shows(g.Put(c), cs + [c], first', gone') && Behind(g.Put(c), cs + [c])
    ensures g.Put(c).width == g.width && g.Put(c).height == g.height
  {
    hide Grid.Newline;
    first', gone' := first, gone;
    if g.wrapPending { first', gone' := WrapShows(g, cs, first, gone); }
    var v := g.Wrapped();
    RowInside(v.cursorY, v.width, v.height);
    PutStaysInRange(g, c);
    WrapKeepsSize(g);
    hide Grid.Wrapped;
    StoredNext(v, g.Put(c), cs, c, first', gone');
  }

  lemma StoredNext(v: Grid, r: Grid, cs: seq<Cell>, c: Cell, first: nat, gone: nat)
    requires Shows(v, cs, first, gone) && !v.wrapPending && r.InRange()
    requires v.cursorY * v.width + v.cursorX < |v.cells|
    requires r == v.(cells := v.cells[v.cursorY * v.width + v.cursorX := c], writes := v.writes + 1,
        wrapPending := v.cursorX + 1 >= v.width, cursorX := if v.cursorX + 1 >= v.width then v.cursorX else v.cursorX + 1)
    ensures Shows(r, cs + [c], first, gone) && Behind(r, cs + [c])
  {}

  lemma {:induction false} AllShow(g: Grid, before: seq<Cell>, cs: seq<Cell>, first: nat, gone: nat) returns (first': nat, gone': nat)
    requires Shows(g, before, first, gone) && Behind(g, before)
    ensures Shows(g.PutAll(cs), before + cs, first', gone') && Behind(g.PutAll(cs), before + cs)
    ensures g.PutAll(cs).width == g.width && g.PutAll(cs).height == g.height
    decreases |cs|
  {
    hide Shows, Grid.Put;
    if cs == [] {
      assert before + cs == before;
      first', gone' := first, gone;
    } else {
      first', gone' := PutShowsOne(g, before, cs[0], first, gone);
      first', gone' := AllShow(g.Put(cs[0]), before + [cs[0]], cs[1..], first', gone');
      assert before + [cs[0]] + cs[1..] == before + cs;
    }
  }

  lemma BlankShows(w: nat, h: nat)
    requires 0 < w && 1 < h
    ensures Shows(BlankGrid(w, h), [], 0, 0)
  {
    RowInside(0, w, h);
  }

  /** Number of lines that n cells fill, the last one possibly in part. */
  function Lines(n: nat, w: nat): nat
    requires 0 < w
  {
    (n + w - 1) / w
  }

  /** A run on a blank screen of more than one row: the last lines that fit, line after line from the
      top, blanks after the last cell, and the cursor behind it, or on it with the wrap pending. */
  lemma RunShows(w: nat, h: nat, cs: seq<Cell>, x: nat, y: nat)
    requires 0 < w && 1 < h && cs != [] && x < w && y < h
    ensures var g, lines := BlankGrid(w, h).PutAll(cs), Lines(|cs|, w);
      var first := if lines > h then lines - h else 0;
      var n := (first + y) * w + x;
      && g.InRange() && g.width == w && g.height == h && n >= 0
      && CellAt(g, x, y) == (if n < |cs| then cs[n] else BLANK)
      && g.cursorY == lines - 1 - first
      && g.cursorX == (if |cs| % w == 0 then w - 1 else |cs| % w) && g.wrapPending == (|cs| % w == 0)
  {
    hide Shows, BlankGrid, Grid.PutAll, Lines;
    BlankShows(w, h);
    BlankSize(w, h);
    var first, gone := AllShow(BlankGrid(w, h), [], cs, 0, 0);
    assert [] + cs == cs;
    ShownAt(BlankGrid(w, h).PutAll(cs), cs, first, gone, x, y);
  }

  lemma BlankSize(w: nat, h: nat)
    requires 0 < w && 0 < h
    ensures BlankGrid(w, h).width == w && BlankGrid(w, h).height == h
  {}

  lemma ShownAt(g: Grid, cs: seq<Cell>, first: nat, gone: nat, x: nat, y: nat)
    requires Shows(g, cs, first, gone) && Behind(g, cs) && cs != [] && x < g.width && y < g.height
    ensures var w, lines := g.width, Lines(|cs|, g.width);
      var n := (first + y) * w + x;
      && g.InRange() && n >= 0 && first == (if lines > g.height then lines - g.height else 0)
      && CellAt(g, x, y) == (if n < |cs| then cs[n] else BLANK)
      && g.cursorY == lines - 1 - first
      && g.cursorX == (if |cs| % w == 0 then w - 1 else |cs| % w) && g.wrapPending == (|cs| % w == 0)
  {
    hide Lines;
    RowInside(y, g.width, g.height);
    SumTimes(first, y, g.width);
    SumTimes(first, g.cursorY, g.width);
    LastCell(g.width, first + g.cursorY, g.cursorX, g.wrapPending, |cs|);
  }

  /** Where the last of n cells is. */
  lemma LastCell(w: nat, line: nat, x: nat, wrap: bool, n: nat)
    requires 0 < w && x < w && n > 0 && (wrap ==> x == w - 1)
    requires line * w + x == n - (if wrap then 1 else 0) && (wrap || x > 0)
    ensures Lines(n, w) == line + 1 && wrap == (n % w == 0) && x == if wrap then w - 1 else n % w
  {
    if wrap {
      DivModUnique(n, line + 1, 0, w);
      DivModUnique(n + w - 1, line + 1, w - 1, w);
    } else {
      DivModUnique(n, line, x, w);
      DivModUnique(n + w - 1, line + 1, x - 1, w);
    }
  }
}
