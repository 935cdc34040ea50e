/** The drawing grid of the terminal: cursor, wrap flag, scroll region and cells. */
module VtGrid {
  import opened Words

  datatype Cell = Cell(rune: u32, fg: byte, bg: byte, flags: byte, width: byte)

  const BLANK := Cell(0, 0, 0, 0, 0)

  /** A grid as a value; `writes` counts the cells written. */
  datatype Grid = Grid(cells: seq<Cell>, width: nat, height: nat, cursorX: nat, cursorY: nat, savedX: nat, savedY: nat,
      top: nat, bottom: nat, wrapPending: bool, writes: nat)
  {
    /** What every reachable grid satisfies. */
    ghost predicate InRange() {
      && 0 < width && 0 < height && |cells| == width * height
      && cursorX < width && cursorY < height && savedX < width && savedY < height
      && top <= bottom < height
    }

    function Cleared(lo: nat, hi: nat): Grid {
      this.(cells := seq(|cells|, i requires 0 <= i < |cells| => if lo <= i < hi then BLANK else cells[i]))
    }

    function ClearRowPart(y: nat, x0: nat, x1: nat): Grid { Cleared(y * width + x0, y * width + x1) }

    /** First and one-past-last cell of the scroll region. */
    function RegionStart(): nat { top * width }

    function RegionEnd(): nat { (bottom + 1) * width }

    /** Rows of the region move up by n; what is uncovered is blank. A region of one
        row does not scroll. */
    function ScrollUp(n: nat): (r: Grid)
      ensures |r.cells| == |cells|
    {
      if top >= bottom then this else
        this.(cells := seq(|cells|, i requires 0 <= i < |cells| =>
          if RegionStart() <= i < RegionEnd() then
            if i + n * width < RegionEnd() && i + n * width < |cells| then cells[i + n * width] else BLANK
          else cells[i]))
    }

    function ScrollDown(n: nat): (r: Grid)
      ensures |r.cells| == |cells|
    {
      if top >= bottom then this else
        this.(cells := seq(|cells|, i requires 0 <= i < |cells| =>
          if RegionStart() <= i < RegionEnd() then
            if RegionStart() + n * width <= i then cells[i - n * width] else BLANK
          else cells[i]))
    }

    function Newline(): Grid {
      if cursorY + 1 > bottom then ScrollUp(1).(cursorY := bottom) else this.(cursorY := cursorY + 1)
    }

    function ReverseIndex(): Grid {
      if cursorY == top then ScrollDown(1)
      else if cursorY > 0 then this.(cursorY := cursorY - 1) else this
    }

    function Tab(): Grid
      requires 0 < width
    {
      this.(cursorX := if (cursorX / 8 + 1) * 8 < width then (cursorX / 8 + 1) * 8 else width - 1)
    }

    /** One-based, clamped. */
    function SetCursor(x: int, y: int): Grid
      requires 0 < width && 0 < height
    {
      this.(wrapPending := false, cursorX := Clamp(x - 1, width), cursorY := Clamp(y - 1, height))
    }

    function Move(dx: int, dy: int): Grid
      requires 0 < width && 0 < height
    {
      this.(wrapPending := false, cursorX := Clamp(cursorX + dx, width), cursorY := Clamp(cursorY + dy, height))
    }

    function ClearScreen(mode: nat): Grid {
      if mode == 0 then Cleared(cursorY * width + cursorX, height * width)
      else if mode == 1 then Cleared(0, cursorY * width + cursorX + 1)
      else if mode == 2 || mode == 3 then Cleared(0, height * width)
      else this
    }

    function ClearLine(mode: nat): Grid {
      if mode == 0 then ClearRowPart(cursorY, cursorX, width)
      else if mode == 1 then ClearRowPart(cursorY, 0, cursorX + 1)
      else if mode == 2 then ClearRowPart(cursorY, 0, width)
      else this
    }

    /** The pending wrap, performed. */
    function Wrapped(): Grid { if wrapPending then this.(wrapPending := false, cursorX := 0).Newline() else this }

    /** One cell at the cursor; at the end of a line the wrap is left pending. */
    function Put(c: Cell): Grid {
      var g := Wrapped();
      var i := g.cursorY * g.width + g.cursorX;
      var h := g.(cells := if i < |g.cells| then g.cells[i := c] else g.cells, writes := g.writes + 1);
      if g.cursorX + 1 >= g.width then h.(wrapPending := true) else h.(cursorX := g.cursorX + 1)
    }

    function SaveCursor(): Grid { this.(savedX := cursorX, savedY := cursorY) }

    function RestoreCursor(): Grid { this.(cursorX := savedX, cursorY := savedY) }

    /** Puts the cells one after the other. */
    function PutAll(cs: seq<Cell>): Grid
      decreases |cs|
    {
      if cs == [] then this else Put(cs[0]).PutAll(cs[1..])
    }
  }

  function BlankGrid(w: nat, h: nat): Grid
    requires 0 < w && 0 < h
  {
    MulMono(0, w, h);
    Grid(seq(w * h, i => BLANK), w, h, 0, 0, 0, 0, 0, h - 1, false, 0)
  }

  /** The nearest value in [0, n). */
  function Clamp(v: int, n: nat): (r: nat)
    requires 0 < n
    ensures r < n && (0 <= v < n ==> r == v) && (v < 0 ==> r == 0) && (v >= n ==> r == n - 1)
  {
    if v < 0 then 0 else if v >= n then n - 1 else v
  }

  // ------------------------------------------------------------- invariants

  lemma ScrollsStayInRange(g: Grid, n: nat)
    requires g.InRange()
    ensures g.ScrollUp(n).InRange() && g.ScrollDown(n).InRange()
  {}

  lemma NewlineStaysInRange(g: Grid)
    requires g.InRange()
    ensures g.Newline().InRange() && g.ReverseIndex().InRange()
  {
    hide Grid.ScrollUp, Grid.ScrollDown;
    ScrollsStayInRange(g, 1);
    ScrollKeepsRest(g, 1);
  }

  lemma NoScroll(g: Grid)
    ensures g.ScrollUp(0) == g == g.ScrollDown(0)
    ensures g.top >= g.bottom ==> forall n: nat :: g.ScrollUp(n) == g == g.ScrollDown(n)
  {
    assert g.cells == g.ScrollUp(0).cells == g.ScrollDown(0).cells;
  }

  lemma ScrollKeepsRest(g: Grid, n: nat)
    ensures g.ScrollUp(n).(cells := g.cells) == g && g.ScrollDown(n).(cells := g.cells) == g
  {}

  lemma CursorStaysInRange(g: Grid, x: int, y: int)
    requires g.InRange()
    ensures g.Tab().InRange() && g.SetCursor(x, y).InRange() && g.Move(x, y).InRange()
    ensures g.SaveCursor().InRange() && g.RestoreCursor().InRange()
  {}

  lemma ClearingStaysInRange(g: Grid, n: nat)
    requires g.InRange()
    ensures g.ClearScreen(n).InRange() && g.ClearLine(n).InRange()
  {}

  lemma PutStaysInRange(g: Grid, c: Cell)
    requires g.InRange()
    ensures g.Wrapped().InRange() && g.Put(c).InRange() && g.Put(c).writes == g.writes + 1
    ensures g.Put(c).top == g.top && g.Put(c).bottom == g.bottom && g.Put(c).width == g.width
  {
    hide Grid.ScrollUp;
    var h := g.(wrapPending := false, cursorX := 0);
    ScrollsStayInRange(h, 1);
    ScrollKeepsRest(h, 1);
  }

  /** Every operation keeps the grid in range. */
  lemma OperationsStayInRange(g: Grid, n: nat, x: int, y: int, c: Cell)
    requires g.InRange()
    ensures g.ScrollUp(n).InRange() && g.ScrollDown(n).InRange() && g.Newline().InRange() && g.ReverseIndex().InRange()
    ensures g.Tab().InRange() && g.SetCursor(x, y).InRange() && g.Move(x, y).InRange()
    ensures g.ClearScreen(n).InRange() && g.ClearLine(n).InRange() && g.Put(c).InRange()
    ensures g.SaveCursor().InRange() && g.RestoreCursor().InRange()
  {
    hide *;
    ScrollsStayInRange(g, n);
    NewlineStaysInRange(g);
    CursorStaysInRange(g, x, y);
    ClearingStaysInRange(g, n);
    PutStaysInRange(g, c);
  }

  lemma {:induction false} PutAllInRange(g: Grid, cs: seq<Cell>)
    requires g.InRange()
    ensures g.PutAll(cs).InRange() && g.PutAll(cs).writes == g.writes + |cs|
    decreases |cs|
  {
    if cs != [] {
      PutStaysInRange(g, cs[0]);
      hide Grid.Put;
      PutAllInRange(g.Put(cs[0]), cs[1..]);
    }
  }

  // ---------------------------------------------------------- scrolling laws

  /** Rows outside the region keep their cells, and nothing but cells changes. */
  lemma ScrollKeepsOutside(g: Grid, n: nat, i: nat)
    requires g.InRange() && i < |g.cells| && !(g.RegionStart() <= i < g.RegionEnd())
    ensures g.ScrollUp(n).cells[i] == g.cells[i] && g.ScrollDown(n).cells[i] == g.cells[i]
    ensures g.ScrollUp(n).(cells := g.cells) == g && g.ScrollDown(n).(cells := g.cells) == g
  {}

  lemma RegionInside(g: Grid)
    requires g.InRange()
    ensures 0 <= g.RegionStart() <= g.RegionEnd() <= |g.cells|
  {
    MulMono(g.bottom + 1, g.height, g.width);
    MulMono(g.top, g.bottom + 1, g.width);
  }

  lemma ScrollUpAt(g: Grid, n: nat, k: int, i: nat)
    requires g.InRange() && i < |g.cells| && g.top < g.bottom && k == n * g.width
    ensures g.ScrollUp(n).InRange() && g.ScrollUp(n).(cells := g.cells) == g
    ensures g.RegionEnd() <= |g.cells| && k >= 0
    ensures g.ScrollUp(n).cells[i] == if !(g.RegionStart() <= i < g.RegionEnd()) then g.cells[i]
      else if i + k < g.RegionEnd() then g.cells[i + k] else BLANK
  {
    RegionInside(g);
    MulMono(0, n, g.width);
  }

  lemma ScrollDownAt(g: Grid, n: nat, k: int, i: nat)
    requires g.InRange() && i < |g.cells| && g.top < g.bottom && k == n * g.width
    ensures g.ScrollDown(n).InRange() && g.ScrollDown(n).(cells := g.cells) == g
    ensures g.RegionStart() >= 0 && k >= 0
    ensures g.ScrollDown(n).cells[i] == if !(g.RegionStart() <= i < g.RegionEnd()) then g.cells[i]
      else if g.RegionStart() + k <= i then g.cells[i - k] else BLANK
  {
    RegionInside(g);
    MulMono(0, n, g.width);
  }

  /** Scrolling up twice is scrolling up by the sum. */
  lemma ScrollUpAdds(g: Grid, a: nat, b: nat)
    requires g.InRange()
    ensures g.ScrollUp(a).ScrollUp(b) == g.ScrollUp(a + b)
  {
    if g.top < g.bottom {
      hide Grid.ScrollUp;
      var l, r := g.ScrollUp(a).ScrollUp(b), g.ScrollUp(a + b);
      forall i: nat | i < |g.cells| ensures l.cells[i] == r.cells[i] { ScrollUpTwiceAt(g, a, b, i); }
      ScrollUpTwiceAt(g, a, b, 0);
    }
  }

  lemma ScrollUpTwiceAt(g: Grid, a: nat, b: nat, i: nat)
    requires g.InRange() && g.top < g.bottom && i < |g.cells|
    ensures g.ScrollUp(a).ScrollUp(b).cells[i] == g.ScrollUp(a + b).cells[i]
    ensures g.ScrollUp(a).ScrollUp(b).(cells := g.cells) == g.ScrollUp(a + b).(cells := g.cells)
  {
    hide Grid.ScrollUp;
    var j, k := a * g.width, b * g.width;
    SumTimes(a, b, g.width);
    RegionInside(g);
    ScrollUpAt(g, a, j, i);
    var m := g.ScrollUp(a);
    ScrollUpAt(m, b, k, i);
    ScrollUpAt(g, a + b, j + k, i);
    if i + k < |g.cells| { ScrollUpAt(g, a, j, i + k); }
  }

  lemma ScrollDownAdds(g: Grid, a: nat, b: nat)
    requires g.InRange()
    ensures g.ScrollDown(a).ScrollDown(b) == g.ScrollDown(a + b)
  {
    if g.top < g.bottom {
      hide Grid.ScrollDown;
      var l, r := g.ScrollDown(a).ScrollDown(b), g.ScrollDown(a + b);
      forall i: nat | i < |g.cells| ensures l.cells[i] == r.cells[i] { ScrollDownTwiceAt(g, a, b, i); }
      ScrollDownTwiceAt(g, a, b, 0);
    }
  }

  lemma ScrollDownTwiceAt(g: Grid, a: nat, b: nat, i: nat)
    requires g.InRange() && g.top < g.bottom && i < |g.cells|
    ensures g.ScrollDown(a).ScrollDown(b).cells[i] == g.ScrollDown(a + b).cells[i]
    ensures g.ScrollDown(a).ScrollDown(b).(cells := g.cells) == g.ScrollDown(a + b).(cells := g.cells)
  {
    hide Grid.ScrollDown;
    var j, k := a * g.width, b * g.width;
    SumTimes(a, b, g.width);
    RegionInside(g);
    ScrollDownAt(g, a, j, i);
    var m := g.ScrollDown(a);
    ScrollDownAt(m, b, k, i);
    ScrollDownAt(g, a + b, j + k, i);
    if i - k >= 0 { ScrollDownAt(g, a, j, i - k); }
  }

  lemma SumTimes(a: nat, b: nat, w: nat)
    ensures (a + b) * w == a * w + b * w && 0 <= a * w && 0 <= b * w
  {
    MulMono(0, a, w);
    MulMono(0, b, w);
  }

  /** Scrolling by the height of the region or more blanks it. */
  lemma ScrollAllBlanks(g: Grid, n: nat, i: nat)
    requires g.InRange() && g.top < g.bottom && n > g.bottom - g.top && g.RegionStart() <= i < g.RegionEnd()
    ensures i < |g.cells| && g.ScrollUp(n).cells[i] == BLANK && g.ScrollDown(n).cells[i] == BLANK
  {
    RegionInside(g);
    MulMono(g.bottom + 1 - g.top, n, g.width);
    assert g.RegionEnd() - g.RegionStart() == (g.bottom + 1 - g.top) * g.width;
  }

  // ------------------------------------------------------------- the object

  const MAX_INT := 0x7fff_ffff_ffff_ffff

  class CursorGrid {
    var cells: array<Cell>
    var count: nat  // length of the cell slice within its array
    var width: nat
    var height: nat
    var cursorX: nat
    var cursorY: nat
    var savedX: nat
    var savedY: nat
    var top: nat
    var bottom: int
    var fg: byte  // the colours and attributes of the grid itself are only ever cleared
    var bg: byte
    var attr: byte
    var wrapPending: bool
    var writes: nat
    ghost var uncounted: nat  // cells written since the caller last added to writes

    ghost predicate Valid()
      reads this
    {
      && count <= cells.Length
      && (width == 0 ==> height == 0 && count == 0 && bottom == -1)
      && (width > 0 ==> 0 < height && count == width * height && top <= bottom < height)
      && (width > 0 ==> cursorX < width && cursorY < height && savedX < width && savedY < height)
    }

    /** The abstract grid; an empty one has no rows. */
    ghost function View(): (g: Grid)
      requires Valid()
      reads this, cells
      ensures width > 0 ==> g.InRange()
    {
      Grid(cells[..count], width, height, cursorX, cursorY, savedX, savedY, top,
        if bottom < 0 then 0 else bottom, wrapPending, writes + uncounted)
    }

    constructor ()
      ensures Valid() && width == 0 && uncounted == 0 && fresh(cells)
    {
      fg, bg, attr := 0, 0, 0;
      cells := new Cell[0];
      count, width, height, cursorX, cursorY, savedX, savedY, top, bottom := 0, 0, 0, 0, 0, 0, 0, 0, -1;
      wrapPending, writes, uncounted := false, 0, 0;
    }

    /** A blank grid, or an empty one for impossible sizes; memory is reused when it suffices. */
    method Reset(w: int, h: int)
      requires Valid()
      modifies this, cells
      ensures Valid() && (cells == old(cells) || fresh(cells)) && uncounted == 0 && fg == bg == attr == 0
      ensures if w < 1 || h < 1 || w > MAX_INT / h then width == 0 else View() == BlankGrid(w, h)
    {
      hide BlankGrid, CursorGrid.View, CursorGrid.Valid;
      cursorX, cursorY, savedX, savedY := 0, 0, 0, 0;
      fg, bg, attr := 0, 0, 0;
      wrapPending, writes, uncounted := false, 0, 0;
      if w < 1 || h < 1 || w > MAX_INT / h { SetEmpty(); } else { Resize(w, h); }
    }

    method SetEmpty()
      modifies this`width, this`height, this`top, this`bottom, this`count
      ensures Valid() && width == 0
    {
      width, height, top, bottom, count := 0, 0, 0, -1, 0;
    }

    method Resize(w: nat, h: nat)
      requires 1 <= w && 1 <= h && cursorX == cursorY == savedX == savedY == 0 && !wrapPending && writes == uncounted == 0
      modifies this`width, this`height, this`top, this`bottom, this`cells, this`count, cells
      ensures Valid() && (cells == old(cells) || fresh(cells)) && View() == BlankGrid(w, h)
    {
      RowInside(0, w, h);
      width, height, top, bottom := w, h, 0, h - 1;
      ResetCells(w * h);
    }

    /** n blank cells, in the same array if it is long enough. */
    method ResetCells(n: nat)
      modifies this`cells, this`count, cells
      ensures count == n <= cells.Length && (cells == old(cells) || fresh(cells))
      ensures cells[..count] == seq(n, i => BLANK)
    {
      if cells.Length < n {
        cells := new Cell[n](i => BLANK);
      } else {
        forall i | 0 <= i < n { cells[i] := BLANK; }
      }
      count := n;
    }

    /** clear(cells[lo:hi]) */
    method ClearCells(lo: nat, hi: nat)
      requires Valid() && lo <= hi <= count
      modifies cells
      ensures Valid() && View() == old(View()).Cleared(lo, hi)
    {
      forall i | lo <= i < hi { cells[i] := BLANK; }
      assert cells[..count] == old(View()).Cleared(lo, hi).cells;
    }

    method ClearRowPart(y: int, x0: int, x1: int)
      requires Valid() && width > 0
      modifies cells
      ensures Valid()
      ensures View() == if y < 0 || y >= height then old(View()) else
        old(View()).ClearRowPart(y, if x0 < 0 then 0 else x0, if x1 > width then width else if x1 < 0 then 0 else x1)
    {
      if y < 0 || y >= height { return; }
      var row := y * width;
      var lo := if x0 < 0 then 0 else x0;
      var hi := if x1 > width then width else x1;
      RowInside(y, width, height);
      if lo < hi {
        ClearCells(row + lo, row + hi);
      } else {
        assert cells[..count] == old(View()).Cleared(row + lo, row + if hi < 0 then 0 else hi).cells;
      }
    }

    /** copy between two stretches of the cells, which may overlap. */
    method CopyCells(dst: nat, src: nat, n: nat)
      requires Valid() && dst + n <= count && src + n <= count
      modifies cells
      ensures Valid() && View() == old(View()).(cells := Copied(old(View().cells), dst, src, n))
    {
      forall i | dst <= i < dst + n { cells[i] := cells[i - dst + src]; }
      assert cells[..count] == Copied(old(View().cells), dst, src, n);
    }

    /** Blanks the rows from y0 up to but not including y1. */
    method ClearRows(y0: nat, y1: nat)
      requires Valid() && width > 0 && y0 <= y1 <= height
      modifies cells
      ensures Valid() && View() == old(View()).Cleared(y0 * width, y1 * width)
    {
      ghost var g := View();
      var y := y0;
      assert g.cells == g.Cleared(y0 * width, y0 * width).cells;
      while y < y1
        invariant y0 <= y <= y1 && Valid()
        invariant View() == g.Cleared(y0 * width, y * width)
      {
        ClearRowPart(y, 0, width);
        ClearedTwice(g, y0, y);
        y := y + 1;
      }
    }

    method ScrollUp(n: int)
      requires Valid() && width > 0
      modifies cells
      ensures Valid() && View() == old(View()).ScrollUp(if n > 0 then n else 0)
    {
      hide Grid.ScrollUp, Grid.Cleared, Copied, Grid.RegionStart, Grid.RegionEnd;
      ghost var g := View();
      NoScroll(g);
      if top >= bottom || n <= 0 { return; }
      var line := bottom - top + 1;
      var k := if n > line then line else n;
      ghost var kw, rest := k * width, (line - k) * width;
      MoveRowsUp(k, kw, rest);
      ScrollUpByCopy(g, View(), n, k, kw, rest);
    }

    /** The fields are those of the abstract grid. */
    lemma ViewIsGrid()
      requires Valid() && width > 0
      ensures View().InRange() && View().top == top && View().bottom == bottom && bottom < height
      ensures View().width == width && |View().cells| == count
    {}

    /** The rows from the k-th on move to the top of the region; the last k are blanked. */
    method MoveRowsUp(k: nat, ghost kw: int, ghost rest: int)
      requires Valid() && width > 0 && top < bottom && 0 < k <= bottom - top + 1
      requires kw == k * width && rest == (bottom - top + 1 - k) * width
      modifies cells
      ensures var g := old(View());
        && Valid() && kw >= 0 && rest >= 0 && 0 <= g.RegionStart() && g.RegionStart() + kw + rest == g.RegionEnd() <= |g.cells|
        && View() == g.(cells := Copied(g.cells, g.RegionStart(), g.RegionStart() + kw, rest)).Cleared(g.RegionEnd() - kw, g.RegionEnd())
    {
      hide Grid.Cleared, Copied, Grid.InRange, CursorGrid.Valid;
      ViewIsGrid();
      hide CursorGrid.View;
      ScrollBounds(View(), k);
      var line := bottom - top + 1;
      CopyCells(top * width, (top + k) * width, (line - k) * width);
      ClearRows(bottom + 1 - k, bottom + 1);
    }

    method ScrollDown(n: int)
      requires Valid() && width > 0
      modifies cells
      ensures Valid() && View() == old(View()).ScrollDown(if n > 0 then n else 0)
    {
      hide Grid.ScrollDown, Grid.Cleared, Copied, Grid.RegionStart, Grid.RegionEnd;
      ghost var g := View();
      NoScroll(g);
      if top >= bottom || n <= 0 { return; }
      var line := bottom - top + 1;
      var k := if n > line then line else n;
      ghost var kw, rest := k * width, (line - k) * width;
      MoveRowsDown(k, kw, rest);
      ScrollDownByCopy(g, View(), n, k, kw, rest);
    }

    /** The first rows of the region move down to the k-th; the first k are blanked. */
    method MoveRowsDown(k: nat, ghost kw: int, ghost rest: int)
      requires Valid() && width > 0 && top < bottom && 0 < k <= bottom - top + 1
      requires kw == k * width && rest == (bottom - top + 1 - k) * width
      modifies cells
      ensures var g := old(View());
        && Valid() && kw >= 0 && rest >= 0 && 0 <= g.RegionStart() && g.RegionStart() + kw + rest == g.RegionEnd() <= |g.cells|
        && View() == g.(cells := Copied(g.cells, g.RegionStart() + kw, g.RegionStart(), rest)).Cleared(g.RegionStart(), g.RegionStart() + kw)
    {
      hide Grid.Cleared, Copied, Grid.InRange, CursorGrid.Valid;
      ViewIsGrid();
      hide CursorGrid.View;
      ScrollBounds(View(), k);
      var line := bottom - top + 1;
      CopyCells((top + k) * width, top * width, (line - k) * width);
      ClearRows(top, top + k);
    }

    method Newline()
      requires Valid() && width > 0
      modifies this`cursorY, cells
      ensures Valid() && View() == old(View()).Newline()
    {
      hide Grid.ScrollUp;
      ScrollKeepsRest(View(), 1);
      if cursorY + 1 > bottom {
        ScrollUp(1);
        cursorY := bottom;
      } else {
        cursorY := cursorY + 1;
      }
    }

    /** Start of the next line; a pending wrap stays pending. */
    method NewlineAtStart()
      requires Valid() && width > 0
      modifies this`cursorX, this`cursorY, cells
      ensures Valid() && View() == old(View()).(cursorX := 0).Newline()
    {
      hide Grid.Newline;
      cursorX := 0;
      Newline();
    }

    method ReverseIndex()
      requires Valid() && width > 0
      modifies this`cursorY, cells
      ensures Valid() && View() == old(View()).ReverseIndex()
    {
      hide Grid.ScrollDown;
      if cursorY == top {
        ScrollDown(1);
      } else if cursorY > 0 {
        cursorY := cursorY - 1;
      }
    }

    method Tab()
      requires Valid() && width > 0
      modifies this`cursorX
      ensures Valid() && View() == old(View()).Tab()
    {
      var next := (cursorX / 8 + 1) * 8;
      if next < width { cursorX := next; } else { cursorX := width - 1; }
    }

    method SaveCursor()
      requires Valid() && width > 0
      modifies this`savedX, this`savedY
      ensures Valid() && View() == old(View()).SaveCursor()
    {
      savedX, savedY := cursorX, cursorY;
    }

    method RestoreCursor()
      requires Valid() && width > 0
      modifies this`cursorX, this`cursorY
      ensures Valid() && View() == old(View()).RestoreCursor()
    {
      cursorX, cursorY := savedX, savedY;
    }

    /** The scroll region, rows counted from 1; an impossible region is ignored. */
    method SetRegion(first: nat, last: nat)
      requires Valid() && width > 0
      modifies this`top, this`bottom
      ensures Valid()
      ensures View() == if 1 <= first <= last <= height then old(View()).(top := first - 1, bottom := last - 1) else old(View())
    {
      if first >= 1 && first <= last && last <= height { top, bottom := first - 1, last - 1; }
    }

    method SetCursor(x0: int, y0: int)
      requires Valid() && width > 0
      modifies this`cursorX, this`cursorY, this`wrapPending
      ensures Valid() && View() == old(View()).SetCursor(x0, y0)
    {
      var x, y := x0, y0;
      wrapPending := false;
      if x < 1 { x := 1; }
      if y < 1 { y := 1; }
      if x > width { x := width; }
      if y > height { y := height; }
      cursorX, cursorY := x - 1, y - 1;
    }

    method Move(dx: int, dy: int)
      requires Valid() && width > 0
      modifies this`cursorX, this`cursorY, this`wrapPending
      ensures Valid() && View() == old(View()).Move(dx, dy)
    {
      wrapPending := false;
      var nx, ny := cursorX + dx, cursorY + dy;
      if nx < 0 { nx := 0; }
      if ny < 0 { ny := 0; }
      if nx >= width { nx := width - 1; }
      if ny >= height { ny := height - 1; }
      cursorX, cursorY := nx, ny;
    }

    method ClearScreen(mode: nat)
      requires Valid() && width > 0
      modifies cells
      ensures Valid() && View() == old(View()).ClearScreen(mode)
    {
      hide Grid.Cleared;
      ghost var g := View();
      ScreenParts(g);
      if mode == 0 {
        ClearRowPart(cursorY, cursorX, width);
        ClearRows(cursorY + 1, height);
      } else if mode == 1 {
        ClearRows(0, cursorY);
        ClearRowPart(cursorY, 0, cursorX + 1);
      } else if mode == 2 || mode == 3 {
        ClearRows(0, height);
      }
    }

    method ClearLine(mode: nat)
      requires Valid() && width > 0
      modifies cells
      ensures Valid() && View() == old(View()).ClearLine(mode)
    {
      if mode == 0 {
        ClearRowPart(cursorY, cursorX, width);
      } else if mode == 1 {
        ClearRowPart(cursorY, 0, cursorX + 1);
      } else if mode == 2 {
        ClearRowPart(cursorY, 0, width);
      }
    }

    /** The wrap left over from the last column. */
    method Wrap()
      requires Valid() && width > 0
      modifies this`cursorX, this`cursorY, this`wrapPending, cells
      ensures Valid() && View() == old(View()).Wrapped()
    {
      hide Grid.Newline;
      if wrapPending {
        wrapPending := false;
        cursorX := 0;
        Newline();
      }
    }

    /** One cell; the caller counts it. */
    method Put(rune: u32, fg: byte, bg: byte, flags: byte)
      requires Valid() && width > 0
      modifies this`cursorX, this`cursorY, this`wrapPending, this`uncounted, cells
      ensures Valid() && View() == old(View()).Put(Cell(rune, fg, bg, flags, 1)) && uncounted == old(uncounted) + 1
    {
      hide Grid.Wrapped;
      ghost var g := View();
      PutStaysInRange(g, Cell(rune, fg, bg, flags, 1));
      Wrap();
      RowInside(cursorY, width, height);
      var idx := cursorY * width + cursorX;
      cells[idx] := Cell(rune, fg, bg, flags, 1);
      assert cells[..count] == g.Wrapped().cells[idx := Cell(rune, fg, bg, flags, 1)];
      if cursorX + 1 >= width { wrapPending := true; } else { cursorX := cursorX + 1; }
      uncounted := uncounted + 1;
    }

    /** A run of printable bytes in one pass, a line at a time. */
    method PutRun(text: seq<byte>, fg: byte, bg: byte, flags: byte) returns (written: nat)
      requires Valid() && width > 0
      modifies this`cursorX, this`cursorY, this`wrapPending, this`uncounted, cells
      ensures Valid() && written == |text| && uncounted == old(uncounted) + written
      ensures View() == old(View()).PutAll(TextCells(text, fg, bg, flags))
    {
      hide Grid.Put, Grid.PutAll, Grid.Newline, TextCells, CursorGrid.View;
      ghost var sofar := writes + uncounted;
      ghost var g0, cs := View(), TextCells(text, fg, bg, flags);
      var cx: nat, cy: nat, wp := cursorX, cursorY, wrapPending;
      var prefix := AttrPrefix(fg, bg, flags);
      written := 0;
      StartRun(cs);
      while written < |text|
        invariant 0 <= written <= |text| && Valid() && |cs| == |text|
        invariant cursorX == old(cursorX) && cursorY == old(cursorY) && wrapPending == old(wrapPending)
        invariant cx < width && cy < height && sofar == writes + uncounted && uncounted == old(uncounted)
        invariant At(View(), cx, cy, wp, sofar + written) == g0.PutAll(cs[..written])
      {
        ghost var g := At(View(), cx, cy, wp, sofar + written);
        InRangeAt(cx, cy, wp, sofar + written);
        if wp {
          wp := false;
          cx := 0;
          cy := NextLine(cy, sofar + written);
        }
        var toWrite := RestOfLine(text[written..], cx, cy, prefix, fg, bg, flags, g, sofar + written);
        assert text[written..][..toWrite] == text[written..written + toWrite];
        LineOfCells(text, written, toWrite, fg, bg, flags);
        PutMore(g0, cs, written, toWrite);
        cx := cx + toWrite;
        written := written + toWrite;
        if cx >= width {
          cx := width - 1;
          wp := true;
        }
      }
      AllPut(g0, cs);
      StoreCursor(cx, cy, wp, written);
    }

    method StoreCursor(cx: nat, cy: nat, wp: bool, ghost written: nat)
      requires Valid() && cx < width && cy < height
      modifies this`cursorX, this`cursorY, this`wrapPending, this`uncounted
      ensures Valid() && View() == At(old(View()), cx, cy, wp, writes + uncounted) && uncounted == old(uncounted) + written
    {
      uncounted := uncounted + written;
      cursorX, cursorY := cx, cy;
      wrapPending := wp;
    }

    lemma StartRun(cs: seq<Cell>)
      requires Valid()
      ensures At(View(), cursorX, cursorY, wrapPending, writes + uncounted + 0) == View() == View().PutAll(cs[..0])
    {}

    lemma InRangeAt(cx: nat, cy: nat, wp: bool, w: nat)
      requires Valid() && width > 0 && cx < width && cy < height
      ensures At(View(), cx, cy, wp, w).InRange() && At(View(), cx, cy, wp, w).wrapPending == wp
      ensures At(View(), cx, cy, wp, w).Wrapped() == if wp then At(View(), 0, cy, false, w).Newline() else At(View(), cx, cy, wp, w)
    {
      hide Grid.Newline;
    }

    /** As much of the text as fits in the current line. */
    method RestOfLine(text: seq<byte>, cx: nat, cy: nat, prefix: u64, fg: byte, bg: byte, flags: byte, ghost g: Grid, ghost w: nat)
      returns (n: nat)
      requires Valid() && width > 0 && cx < width && cy < height && text != [] && prefix == AttrPrefix(fg, bg, flags)
      requires g.InRange() && At(View(), cx, cy, false, w) == g.Wrapped()
      modifies cells
      ensures Valid() && 0 < n <= |text| && cx + n <= width
      ensures At(View(), if cx + n >= width then width - 1 else cx + n, cy, cx + n >= width, w + n)
        == g.PutAll(TextCells(text[..n], fg, bg, flags))
    {
      hide Grid.PutAll, Grid.Newline, TextCells, Written;
      RowInside(cy, width, height);
      var maxLine := width - cx;
      n := |text|;
      if n > maxLine { n := maxLine; }
      WriteCells(cy * width + cx, text[..n], prefix, fg, bg, flags);
      PutLine(g, g.Wrapped(), TextCells(text[..n], fg, bg, flags));
    }

    /** The line below a run's own cursor, scrolling at the bottom of the region. */
    method NextLine(cy0: nat, ghost w: nat) returns (cy: nat)
      requires Valid() && width > 0 && cy0 < height
      modifies cells
      ensures Valid() && cy < height
      ensures At(View(), 0, cy, false, w) == At(old(View()), 0, cy0, false, w).Newline()
    {
      hide Grid.ScrollUp;
      cy := cy0 + 1;
      ScrollIgnoresCursor(View(), 0, cy0, false, w);
      ScrollKeepsRest(View(), 1);
      if cy > bottom {
        ScrollUp(1);
        cy := bottom;
      }
    }

    /** The inner loops: four cells at a time, then one at a time, each as one 64-bit word. */
    method WriteCells(offset: nat, text: seq<byte>, prefix: u64, ghost fg: byte, ghost bg: byte, ghost flags: byte)
      requires Valid() && offset + |text| <= count && prefix == AttrPrefix(fg, bg, flags)
      modifies cells
      ensures Valid() && View() == old(View()).(cells := Written(old(View().cells), offset, TextCells(text, fg, bg, flags)))
    {
      hide Written, TextCells;
      ghost var before := cells[..count];
      var k := 0;
      WrittenNothing(before, offset, text, fg, bg, flags);
      while k + 4 <= |text|
        invariant 0 <= k <= |text|
        invariant cells[..count] == Written(before, offset, TextCells(text[..k], fg, bg, flags))
      {
        WrittenFour(before, offset, text, k, fg, bg, flags);
        StoreWord(offset + k, text[k], prefix, fg, bg, flags);
        StoreWord(offset + k + 1, text[k + 1], prefix, fg, bg, flags);
        StoreWord(offset + k + 2, text[k + 2], prefix, fg, bg, flags);
        StoreWord(offset + k + 3, text[k + 3], prefix, fg, bg, flags);
        k := k + 4;
      }
      while k < |text|
        invariant 0 <= k <= |text|
        invariant cells[..count] == Written(before, offset, TextCells(text[..k], fg, bg, flags))
      {
        WrittenSnoc(before, offset, text, k, fg, bg, flags);
        StoreWord(offset + k, text[k], prefix, fg, bg, flags);
        k := k + 1;
      }
      assert text[..k] == text;
    }

    method StoreWord(i: nat, b: byte, prefix: u64, ghost fg: byte, ghost bg: byte, ghost flags: byte)
      requires i < count <= cells.Length && prefix == AttrPrefix(fg, bg, flags)
      modifies cells
      ensures cells[..count] == old(cells[..count])[i := Cell(b, fg, bg, flags, 1)]
    {
      PackedCell(b, fg, bg, flags);
      hide AttrPrefix, CellOf;
      cells[i] := CellOf(Or(b, prefix, B32));
    }
  }

  // ------------------------------------------------------------ runs of text

  function TextCells(text: seq<byte>, fg: byte, bg: byte, flags: byte): (cs: seq<Cell>)
    ensures |cs| == |text|
  {
    seq(|text|, i requires 0 <= i < |text| => Cell(text[i], fg, bg, flags, 1))
  }

  function Written(cells: seq<Cell>, at: nat, cs: seq<Cell>): (r: seq<Cell>)
    requires at + |cs| <= |cells|
    ensures |r| == |cells|
  {
    seq(|cells|, i requires 0 <= i < |cells| => if at <= i < at + |cs| then cs[i - at] else cells[i])
  }

  lemma WrittenNothing(cells: seq<Cell>, at: nat, text: seq<byte>, fg: byte, bg: byte, flags: byte)
    requires at <= |cells|
    ensures Written(cells, at, TextCells(text[..0], fg, bg, flags)) == cells
  {}

  lemma WrittenSnoc(cells: seq<Cell>, at: nat, text: seq<byte>, k: nat, fg: byte, bg: byte, flags: byte)
    requires at + |text| <= |cells| && k < |text|
    ensures Written(cells, at, TextCells(text[..k + 1], fg, bg, flags))
      == Written(cells, at, TextCells(text[..k], fg, bg, flags))[at + k := Cell(text[k], fg, bg, flags, 1)]
  {
    assert text[..k + 1] == text[..k] + [text[k]];
  }

  lemma WrittenFour(cells: seq<Cell>, at: nat, text: seq<byte>, k: nat, fg: byte, bg: byte, flags: byte)
    requires at + |text| <= |cells| && k + 4 <= |text|
    ensures Written(cells, at, TextCells(text[..k + 4], fg, bg, flags))
      == Written(cells, at, TextCells(text[..k], fg, bg, flags))[at + k := Cell(text[k], fg, bg, flags, 1)]
        [at + k + 1 := Cell(text[k + 1], fg, bg, flags, 1)][at + k + 2 := Cell(text[k + 2], fg, bg, flags, 1)]
        [at + k + 3 := Cell(text[k + 3], fg, bg, flags, 1)]
  {
    hide Written, TextCells;
    WrittenSnoc(cells, at, text, k, fg, bg, flags);
    WrittenSnoc(cells, at, text, k + 1, fg, bg, flags);
    WrittenSnoc(cells, at, text, k + 2, fg, bg, flags);
    WrittenSnoc(cells, at, text, k + 3, fg, bg, flags);
  }

  /** Colours, attributes and width 1 in the upper half of a cell's word. */
  function AttrPrefix(fg: byte, bg: byte, flags: byte): (w: u64)
    ensures w % B32 == 0
  {
    PrefixParts(fg, bg, flags);
    Or(Or(Or(fg * B32, bg * 0x100_0000_0000, 0x100_0000_0000), flags * 0x1_0000_0000_0000, 0x1_0000_0000_0000),
       0x100_0000_0000_0000, 0x100_0000_0000_0000)
  }

  lemma PrefixParts(fg: byte, bg: byte, flags: byte)
    ensures (bg * 0x100_0000_0000) % 0x100_0000_0000 == 0 && (flags * 0x1_0000_0000_0000) % 0x1_0000_0000_0000 == 0
    ensures (fg * B32 + bg * 0x100_0000_0000 + flags * 0x1_0000_0000_0000 + 0x100_0000_0000_0000) % B32 == 0
  {
    DivModUnique(bg * 0x100_0000_0000, bg, 0, 0x100_0000_0000);
    DivModUnique(flags * 0x1_0000_0000_0000, flags, 0, 0x1_0000_0000_0000);
    DivModUnique(fg * B32 + bg * 0x100_0000_0000 + flags * 0x1_0000_0000_0000 + 0x100_0000_0000_0000,
      fg + 0x100 * bg + 0x1_0000 * flags + 0x100_0000, 0, B32);
  }

  /** The little-endian layout of a cell. */
  function CellOf(w: u64): Cell {
    Cell(w % B32, w / B32 % 0x100, w / 0x100_0000_0000 % 0x100, w / 0x1_0000_0000_0000 % 0x100, w / 0x100_0000_0000_0000)
  }

  lemma PackedCell(b: byte, fg: byte, bg: byte, flags: byte)
    ensures b + AttrPrefix(fg, bg, flags) < B64
    ensures CellOf(b + AttrPrefix(fg, bg, flags)) == Cell(b, fg, bg, flags, 1)
  {
    var w := b + AttrPrefix(fg, bg, flags);
    var top := flags + 0x100;
    DivModUnique(w, fg + 0x100 * bg + 0x1_0000 * top, b, B32);
    DivModUnique(w / B32, bg + 0x100 * top, fg, 0x100);
    DivModUnique(w, bg + 0x100 * top, b + fg * B32, 0x100_0000_0000);
    DivModUnique(w / 0x100_0000_0000, top, bg, 0x100);
    DivModUnique(w, top, b + fg * B32 + bg * 0x100_0000_0000, 0x1_0000_0000_0000);
    DivModUnique(top, 1, flags, 0x100);
    DivModUnique(w, 1, b + fg * B32 + bg * 0x100_0000_0000 + flags * 0x1_0000_0000_0000, 0x100_0000_0000_0000);
  }

  /** The grid with the cursor of the loop's local variables. */
  ghost function At(g: Grid, cx: nat, cy: nat, wp: bool, writes: nat): Grid {
    g.(cursorX := cx, cursorY := cy, wrapPending := wp, writes := writes)
  }

  lemma ScrollIgnoresCursor(g: Grid, cx: nat, cy: nat, wp: bool, writes: nat)
    ensures At(g, cx, cy, wp, writes).ScrollUp(1) == At(g.ScrollUp(1), cx, cy, wp, writes)
  {
    var h := At(g, cx, cy, wp, writes);
    assert h.RegionStart() == g.RegionStart() && h.RegionEnd() == g.RegionEnd() && h.cells == g.cells;
    if g.top < g.bottom {
      var l, r := h.ScrollUp(1).cells, g.ScrollUp(1).cells;
      assert |l| == |r|;
      forall i: nat | i < |g.cells| ensures l[i] == r[i] {
        var k := 1 * g.width;
        assert r[i] == if g.RegionStart() <= i < g.RegionEnd() then
            if i + k < g.RegionEnd() && i + k < |g.cells| then g.cells[i + k] else BLANK
          else g.cells[i];
      }
      assert l == r;
    }
  }

  lemma AllPut(g: Grid, cs: seq<Cell>)
    ensures g.PutAll(cs[..|cs|]) == g.PutAll(cs)
  {
    assert cs[..|cs|] == cs;
  }

  lemma {:induction false} PutAppend(g: Grid, a: seq<Cell>, b: seq<Cell>)
    ensures g.PutAll(a + b) == g.PutAll(a).PutAll(b)
    decreases |a|
  {
    if a == [] {
      assert a + b == b;
    } else {
      assert (a + b)[1..] == a[1..] + b;
      PutAppend(g.Put(a[0]), a[1..], b);
    }
  }

  lemma PutMore(g: Grid, cs: seq<Cell>, n: nat, k: nat)
    requires n + k <= |cs|
    ensures g.PutAll(cs[..n + k]) == g.PutAll(cs[..n]).PutAll(cs[n..n + k])
  {
    assert cs[..n + k] == cs[..n] + cs[n..n + k];
    PutAppend(g, cs[..n], cs[n..n + k]);
  }

  lemma LineOfCells(text: seq<byte>, n: nat, k: nat, fg: byte, bg: byte, flags: byte)
    requires n + k <= |text|
    ensures TextCells(text[n..n + k], fg, bg, flags) == TextCells(text, fg, bg, flags)[n..n + k]
  {}

  /** Cells that fit in the rest of a line, put one by one, are one stretch of writes. */
  lemma {:induction false} PutLine(g: Grid, h: Grid, cs: seq<Cell>)
    requires g.InRange() && h == g.Wrapped() && cs != [] && h.cursorX + |cs| <= h.width
    ensures h.InRange() && !h.wrapPending && h.cursorY * h.width + h.cursorX + |cs| <= |h.cells|
    ensures var x := h.cursorX + |cs|;
      g.PutAll(cs) == h.(cells := Written(h.cells, h.cursorY * h.width + h.cursorX, cs), writes := h.writes + |cs|,
        cursorX := if x >= h.width then h.width - 1 else x, wrapPending := x >= h.width)
    decreases |cs|
  {
    PutFirst(g, h, cs[0]);
    RowInside(h.cursorY, h.width, h.height);
    hide Grid.Put, Grid.Wrapped;
    var i, p := h.cursorY * h.width + h.cursorX, g.Put(cs[0]);
    if |cs| == 1 {
      assert cs[1..] == [];
      assert h.cells[i := cs[0]] == Written(h.cells, i, cs);
    } else {
      PutLine(p, p, cs[1..]);
      assert Written(h.cells[i := cs[0]], i + 1, cs[1..]) == Written(h.cells, i, cs);
    }
  }

  /** The first cell of a line, with the wrap done. */
  lemma PutFirst(g: Grid, h: Grid, c: Cell)
    requires g.InRange() && h == g.Wrapped()
    ensures h.InRange() && !h.wrapPending && g.Put(c).InRange()
    ensures h.cursorY * h.width + h.cursorX < |h.cells|
    ensures var cells := h.cells[h.cursorY * h.width + h.cursorX := c];
      g.Put(c) == if h.cursorX + 1 >= h.width then h.(cells := cells, writes := h.writes + 1, wrapPending := true)
        else h.(cells := cells, writes := h.writes + 1, cursorX := h.cursorX + 1)
    ensures h.cursorX + 1 < h.width ==> g.Put(c).Wrapped() == g.Put(c)
  {
    PutStaysInRange(g, c);
    RowInside(h.cursorY, h.width, h.height);
    hide Grid.ScrollUp;
    ScrollKeepsRest(g.(wrapPending := false, cursorX := 0), 1);
  }

  lemma ClearedJoin(g: Grid, a: nat, b: nat, c: nat)
    requires a <= b <= c
    ensures g.Cleared(a, b).Cleared(b, c) == g.Cleared(a, c)
  {
    assert g.Cleared(a, b).Cleared(b, c).cells == g.Cleared(a, c).cells;
  }

  /** Two neighbouring stretches of rows. */
  lemma ClearedTwice(g: Grid, y0: nat, y: nat)
    requires y0 <= y
    ensures (y + 1) * g.width == y * g.width + g.width && y0 * g.width <= y * g.width
    ensures g.Cleared(y0 * g.width, y * g.width).Cleared(y * g.width, y * g.width + g.width)
      == g.Cleared(y0 * g.width, (y + 1) * g.width)
  {
    MulMono(y0, y, g.width);
    ClearedJoin(g, y0 * g.width, y * g.width, y * g.width + g.width);
  }

  /** The screen below or above the cursor: part of its row, and whole rows. */
  lemma ScreenParts(g: Grid)
    requires g.InRange()
    ensures (g.cursorY + 1) * g.width == g.cursorY * g.width + g.width <= g.height * g.width
    ensures var w, y, x := g.width, g.cursorY, g.cursorX;
      && g.Cleared(y * w + x, y * w + w).Cleared((y + 1) * w, g.height * w) == g.ClearScreen(0)
      && g.Cleared(0, y * w).Cleared(y * w, y * w + x + 1) == g.ClearScreen(1)
  {
    RowInside(g.cursorY, g.width, g.height);
    MulMono(g.cursorY + 1, g.height, g.width);
    var w, y, x := g.width, g.cursorY, g.cursorX;
    ClearedJoin(g, y * w + x, y * w + w, g.height * w);
    ClearedJoin(g, 0, y * w, y * w + x + 1);
  }

  lemma ScrollBounds(g: Grid, k: nat)
    requires g.InRange() && 0 < k <= g.bottom - g.top + 1
    ensures var w, line := g.width, g.bottom - g.top + 1;
      && 0 <= g.top * w && 0 <= (g.top + k) * w && 0 <= (line - k) * w
      && g.top * w + (line - k) * w <= |g.cells| && (g.top + k) * w + (line - k) * w == (g.bottom + 1) * w <= |g.cells|
      && g.top * w + (line - k) * w == (g.bottom + 1 - k) * w && (g.top + k) * w == g.top * w + k * w
      && (g.bottom + 1 - k) * w == (g.bottom + 1) * w - k * w && 0 <= k * w
  {
    RegionInside(g);
    var w, line := g.width, g.bottom - g.top + 1;
    SumTimes(g.top, k, w);
    SumTimes(g.top + k, line - k, w);
    SumTimes(g.top, line - k, w);
    SumTimes(g.bottom + 1 - k, k, w);
  }

  function Copied(cells: seq<Cell>, dst: nat, src: nat, n: nat): (r: seq<Cell>)
    requires dst + n <= |cells| && src + n <= |cells|
    ensures |r| == |cells|
  {
    seq(|cells|, i requires 0 <= i < |cells| => if dst <= i < dst + n then cells[i - dst + src] else cells[i])
  }

  /** Copying the remaining rows and blanking k of them is scrolling. */
  lemma ScrollUpByCopy(g: Grid, r: Grid, n: nat, k: nat, kw: int, rest: int)
    requires g.InRange() && g.top < g.bottom && n > 0 && k == if n > g.bottom - g.top + 1 then g.bottom - g.top + 1 else n
    requires kw == k * g.width && rest == (g.bottom - g.top + 1 - k) * g.width && kw >= 0 && rest >= 0
    requires 0 <= g.RegionStart() && g.RegionStart() + kw + rest == g.RegionEnd() <= |g.cells|
    requires r == g.(cells := Copied(g.cells, g.RegionStart(), g.RegionStart() + kw, rest)).Cleared(g.RegionEnd() - kw, g.RegionEnd())
    ensures r == g.ScrollUp(n)
  {
    hide Grid.ScrollUp, Grid.RegionStart, Grid.RegionEnd;
    forall i: nat | i < |g.cells| ensures r.cells[i] == g.ScrollUp(n).cells[i] {
      ScrollUpCopyAt(g, n, k, i, n * g.width, kw, rest);
    }
    ScrollUpAt(g, n, n * g.width, 0);
  }

  lemma ScrollUpCopyAt(g: Grid, n: nat, k: nat, i: nat, nw: int, kw: int, rest: int)
    requires g.InRange() && g.top < g.bottom && n > 0 && k == if n > g.bottom - g.top + 1 then g.bottom - g.top + 1 else n
    requires i < |g.cells| && nw == n * g.width && kw == k * g.width && rest == (g.bottom - g.top + 1 - k) * g.width
    ensures kw >= 0 && rest >= 0 && g.RegionStart() + kw + rest == g.RegionEnd() <= |g.cells|
    ensures g.ScrollUp(n).cells[i] == if g.RegionEnd() - kw <= i < g.RegionEnd() then BLANK
      else Copied(g.cells, g.RegionStart(), g.RegionStart() + kw, rest)[i]
  {
    ScrollBounds(g, k);
    MulMono(g.bottom - g.top + 1, n, g.width);
    ScrollUpAt(g, n, nw, i);
  }

  /** Copying the remaining rows and blanking k of them is scrolling. */
  lemma ScrollDownByCopy(g: Grid, r: Grid, n: nat, k: nat, kw: int, rest: int)
    requires g.InRange() && g.top < g.bottom && n > 0 && k == if n > g.bottom - g.top + 1 then g.bottom - g.top + 1 else n
    requires kw == k * g.width && rest == (g.bottom - g.top + 1 - k) * g.width && kw >= 0 && rest >= 0
    requires 0 <= g.RegionStart() && g.RegionStart() + kw + rest == g.RegionEnd() <= |g.cells|
    requires r == g.(cells := Copied(g.cells, g.RegionStart() + kw, g.RegionStart(), rest)).Cleared(g.RegionStart(), g.RegionStart() + kw)
    ensures r == g.ScrollDown(n)
  {
    hide Grid.ScrollDown, Grid.RegionStart, Grid.RegionEnd;
    forall i: nat | i < |g.cells| ensures r.cells[i] == g.ScrollDown(n).cells[i] {
      ScrollDownCopyAt(g, n, k, i, n * g.width, kw, rest);
    }
    ScrollDownAt(g, n, n * g.width, 0);
  }

  lemma ScrollDownCopyAt(g: Grid, n: nat, k: nat, i: nat, nw: int, kw: int, rest: int)
    requires g.InRange() && g.top < g.bottom && n > 0 && k == if n > g.bottom - g.top + 1 then g.bottom - g.top + 1 else n
    requires i < |g.cells| && nw == n * g.width && kw == k * g.width && rest == (g.bottom - g.top + 1 - k) * g.width
    ensures kw >= 0 && rest >= 0 && g.RegionStart() + kw + rest == g.RegionEnd() <= |g.cells|
    ensures g.ScrollDown(n).cells[i] == if g.RegionStart() <= i < g.RegionStart() + kw then BLANK
      else Copied(g.cells, g.RegionStart() + kw, g.RegionStart(), rest)[i]
  {
    ScrollBounds(g, k);
    MulMono(g.bottom - g.top + 1, n, g.width);
    ScrollDownAt(g, n, nw, i);
  }

  lemma RowInside(y: nat, width: nat, height: nat)
    requires y < height
    ensures 0 <= y * width <= y * width + width <= width * height
  {
    MulMono(y + 1, height, width);
    MulMono(0, y, width);
  }
}
