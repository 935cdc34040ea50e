/** Grid comparison: the list of maximal runs of differing cells, as produced by
    the one-pass kernel, by four-cell vectors and by two-cell vectors. */
module GridDiff {
  import opened Words

  datatype Cell = Cell(rune: u32, fg: byte, bg: byte, flags: byte, width: byte)

  datatype Span = Span(x: nat, y: nat, length: nat)

  // ---------------------------------------------------------- specification

  /** Runs of true in a row, left to right: a true after a true lengthens the last run. */
  function Runs(d: seq<bool>, y: nat): (r: seq<Span>)
    decreases |d|
  {
    if d == [] then [] else
      var n := |d| - 1;
      Extended(Runs(d[..n], y), d[n], n > 0 && d[n - 1], n, y)
  }

  /** The runs after one more cell, which differs or not, after a cell that differed or not. */
  function Extended(before: seq<Span>, dirty: bool, after: bool, n: nat, y: nat): seq<Span> {
    if !dirty then before
    else if after && before != [] then before[..|before| - 1] + [Lengthened(before[|before| - 1])]
    else before + [Span(n, y, 1)]
  }

  function Lengthened(s: Span): Span { s.(length := s.length + 1) }

  /** Which visible cells of row y differ. */
  function DirtyRow(front: seq<Cell>, back: seq<Cell>, stride: nat, width: nat, y: nat): (d: seq<bool>)
    requires y * stride + width <= |front| && y * stride + width <= |back|
    ensures |d| == width
  {
    seq(width, x requires 0 <= x < width => front[y * stride + x] != back[y * stride + x])
  }

  ghost predicate Fits(cells: seq<Cell>, stride: nat, width: nat, height: nat) {
    forall y: nat :: y < height ==> y * stride + width <= |cells|
  }

  /** The canonical list: all rows, top to bottom. */
  ghost function GridRuns(front: seq<Cell>, back: seq<Cell>, stride: nat, width: nat, height: nat): (r: seq<Span>)
    requires Fits(front, stride, width, height) && Fits(back, stride, width, height)
    decreases height
  {
    if height == 0 then [] else
      GridRuns(front, back, stride, width, height - 1) + Runs(DirtyRow(front, back, stride, width, height - 1), height - 1)
  }

  // --------------------------------------------- what the canonical list is

  /** A longest possible stretch of true. */
  predicate IsMaximalRun(d: seq<bool>, s: Span) {
    && s.length > 0 && s.x + s.length <= |d|
    && (forall i :: s.x <= i < s.x + s.length ==> d[i])
    && (s.x > 0 ==> !d[s.x - 1])
    && (s.x + s.length < |d| ==> !d[s.x + s.length])
  }

  /** Strictly from left to right, with a gap between neighbours. */
  predicate Separated(r: seq<Span>) {
    forall i, j :: 0 <= i < j < |r| ==> r[i].x + r[i].length < r[j].x
  }

  predicate EndsAt(r: seq<Span>, n: nat) { r != [] && r[|r| - 1].x + r[|r| - 1].length == n }

  /** All maximal runs, from left to right, each in row y. */
  ghost predicate ListsRuns(d: seq<bool>, y: nat, r: seq<Span>) {
    && Separated(r)
    && (forall i :: 0 <= i < |r| ==> r[i].y == y && IsMaximalRun(d, r[i]))
    && (d != [] && d[|d| - 1] ==> EndsAt(r, |d|))
  }

  /** Runs lists maximal runs only, in order. */
  lemma {:induction false} RunsAreMaximal(d: seq<bool>, y: nat)
    ensures ListsRuns(d, y, Runs(d, y))
    decreases |d|
  {
    if d != [] {
      var n := |d| - 1;
      RunsAreMaximal(d[..n], y);
      hide ListsRuns;
      if !d[n] { ListsFalse(d, y, Runs(d[..n], y)); }
      else if n > 0 && d[n - 1] { ListsGrow(d, y, Runs(d[..n], y)); }
      else { ListsNew(d, y, Runs(d[..n], y)); }
    }
  }

  lemma ListsFalse(d: seq<bool>, y: nat, r: seq<Span>)
    requires d != [] && !d[|d| - 1] && ListsRuns(d[..|d| - 1], y, r)
    ensures ListsRuns(d, y, r)
  {
    hide IsMaximalRun;
    forall i | 0 <= i < |r| ensures IsMaximalRun(d, r[i]) { RunKept(d, r[i]); }
  }

  lemma ListsGrow(d: seq<bool>, y: nat, r: seq<Span>)
    requires |d| > 1 && d[|d| - 1] && d[|d| - 2] && ListsRuns(d[..|d| - 1], y, r)
    ensures r != [] && ListsRuns(d, y, r[..|r| - 1] + [Lengthened(r[|r| - 1])])
  {
    hide IsMaximalRun;
    var e, last := d[..|d| - 1], |r| - 1;
    assert e[|e| - 1] == d[|d| - 2];
    RunInside(e, r[last]);
    forall i | 0 <= i < last ensures IsMaximalRun(d, r[i]) { RunKept(d, r[i]); }
    RunGrows(d, r[last]);
  }

  lemma ListsNew(d: seq<bool>, y: nat, r: seq<Span>)
    requires d != [] && d[|d| - 1] && (|d| > 1 ==> !d[|d| - 2]) && ListsRuns(d[..|d| - 1], y, r)
    ensures ListsRuns(d, y, r + [Span(|d| - 1, y, 1)])
  {
    hide IsMaximalRun;
    forall i | 0 <= i < |r| ensures IsMaximalRun(d, r[i]) && r[i].x + r[i].length < |d| - 1 {
      RunStopsShort(d, r[i]);
      RunKept(d, r[i]);
    }
    NewRun(d, y);
  }

  lemma RunKept(d: seq<bool>, s: Span)
    requires d != [] && IsMaximalRun(d[..|d| - 1], s) && (s.x + s.length < |d| - 1 || !d[|d| - 1])
    ensures IsMaximalRun(d, s)
  {}

  lemma RunGrows(d: seq<bool>, s: Span)
    requires d != [] && IsMaximalRun(d[..|d| - 1], s) && s.x + s.length == |d| - 1 && d[|d| - 1]
    ensures IsMaximalRun(d, Lengthened(s))
  {}

  lemma RunInside(d: seq<bool>, s: Span)
    requires IsMaximalRun(d, s)
    ensures s.length > 0 && s.x + s.length <= |d|
  {}

  lemma RunStopsShort(d: seq<bool>, s: Span)
    requires d != [] && IsMaximalRun(d[..|d| - 1], s) && (|d| > 1 ==> !d[|d| - 2])
    ensures s.x + s.length < |d| - 1
  {}

  lemma NewRun(d: seq<bool>, y: nat)
    requires d != [] && d[|d| - 1] && (|d| > 1 ==> !d[|d| - 2])
    ensures IsMaximalRun(d, Span(|d| - 1, y, 1))
  {}

  predicate Covers(s: Span, x: nat, y: nat) { s.y == y && s.x <= x < s.x + s.length }

  /** Every differing cell lies in one of the runs. */
  lemma {:induction false} RunsCover(d: seq<bool>, y: nat, x: nat)
    requires x < |d| && d[x]
    ensures exists i :: 0 <= i < |Runs(d, y)| && Covers(Runs(d, y)[i], x, y)
    decreases |d|
  {
    hide IsMaximalRun, Separated, Runs;
    var n := |d| - 1;
    RunsAreMaximal(d, y);
    RunsUnfold(d, y);
    var before, r := Runs(d[..n], y), Runs(d, y);
    if x == n {
      RunInside(d, r[|r| - 1]);
      assert Covers(r[|r| - 1], x, y);
    } else {
      RunsCover(d[..n], y, x);
      var i :| 0 <= i < |before| && Covers(before[i], x, y);
      CoverKept(before, d[n], n > 0 && d[n - 1], n, y, x, i);
      assert Covers(r[i], x, y);
    }
  }

  /** A listed run is kept, or lengthened, by the next cell. */
  lemma CoverKept(before: seq<Span>, dirty: bool, after: bool, n: nat, y: nat, x: nat, i: nat)
    requires i < |before| && Covers(before[i], x, y)
    ensures var r := Extended(before, dirty, after, n, y); i < |r| && Covers(r[i], x, y)
  {}

  /** One unfolding. */
  lemma RunsUnfold(d: seq<bool>, y: nat)
    requires d != []
    ensures var n := |d| - 1; Runs(d, y) == Extended(Runs(d[..n], y), d[n], n > 0 && d[n - 1], n, y)
  {}

  /** A maximal run is listed: the list is exactly the set of maximal runs. */
  lemma MaximalRunListed(d: seq<bool>, y: nat, s: Span)
    requires s.y == y && IsMaximalRun(d, s)
    ensures s in Runs(d, y)
  {
    RunsAreMaximal(d, y);
    RunsCover(d, y, s.x);
    var i :| 0 <= i < |Runs(d, y)| && Covers(Runs(d, y)[i], s.x, y);
    var t := Runs(d, y)[i];
    StartsMeet(d, s, t);
    EndsMeet(d, s, t);
  }

  lemma StartsMeet(d: seq<bool>, s: Span, t: Span)
    requires IsMaximalRun(d, s) && IsMaximalRun(d, t) && t.x <= s.x < t.x + t.length
    ensures t.x == s.x
  {}

  lemma EndsMeet(d: seq<bool>, s: Span, t: Span)
    requires IsMaximalRun(d, s) && IsMaximalRun(d, t) && t.x == s.x
    ensures t.length == s.length
  {}

  function Total(r: seq<Span>): nat { if r == [] then 0 else Total(r[..|r| - 1]) + r[|r| - 1].length }

  function CountTrue(d: seq<bool>): nat { if d == [] then 0 else CountTrue(d[..|d| - 1]) + if d[|d| - 1] then 1 else 0 }

  lemma TotalSnoc(r: seq<Span>, s: Span)
    ensures Total(r + [s]) == Total(r) + s.length
  {
    assert (r + [s])[..|r|] == r;
  }

  lemma {:induction false} TotalAppend(r: seq<Span>, q: seq<Span>)
    ensures Total(r + q) == Total(r) + Total(q)
    decreases |q|
  {
    if q == [] {
      assert r + q == r;
    } else {
      assert r + q == (r + q[..|q| - 1]) + [q[|q| - 1]];
      TotalAppend(r, q[..|q| - 1]);
      TotalSnoc(r + q[..|q| - 1], q[|q| - 1]);
    }
  }

  lemma TotalLast(r: seq<Span>)
    requires r != []
    ensures Total(r) == Total(r[..|r| - 1]) + r[|r| - 1].length
  {}

  lemma CountLast(d: seq<bool>)
    requires d != []
    ensures CountTrue(d) == CountTrue(d[..|d| - 1]) + if d[|d| - 1] then 1 else 0
  {}

  /** The lengths add up to the number of differing cells. */
  lemma {:induction false} TotalIsCount(d: seq<bool>, y: nat)
    ensures Total(Runs(d, y)) == CountTrue(d) && |Runs(d, y)| <= CountTrue(d) <= |d|
    decreases |d|
  {
    hide Runs, Total, CountTrue;
    if d == [] {
      NothingCounted(y);
    } else {
      var n := |d| - 1;
      var before := Runs(d[..n], y);
      TotalIsCount(d[..n], y);
      RunsUnfold(d, y);
      CountLast(d);
      if d[n] {
        if n > 0 && d[n - 1] && before != [] {
          TotalLast(before);
          TotalSnoc(before[..|before| - 1], Lengthened(before[|before| - 1]));
        } else {
          TotalSnoc(before, Span(n, y, 1));
        }
      }
    }
  }

  lemma NothingCounted(y: nat)
    ensures Runs([], y) == [] && Total([]) == 0 && CountTrue([]) == 0
  {}

  ghost function GridCount(front: seq<Cell>, back: seq<Cell>, stride: nat, width: nat, height: nat): nat
    requires Fits(front, stride, width, height) && Fits(back, stride, width, height)
    decreases height
  {
    if height == 0 then 0 else
      GridCount(front, back, stride, width, height - 1) + CountTrue(DirtyRow(front, back, stride, width, height - 1))
  }

  /** The result of a diff is the number of differing visible cells, and there are never
      more runs than visible cells. */
  lemma {:induction false} GridTotal(front: seq<Cell>, back: seq<Cell>, stride: nat, width: nat, height: nat)
    requires Fits(front, stride, width, height) && Fits(back, stride, width, height)
    ensures Total(GridRuns(front, back, stride, width, height)) == GridCount(front, back, stride, width, height)
    ensures |GridRuns(front, back, stride, width, height)| <= height * width
    decreases height
  {
    if height > 0 {
      var d := DirtyRow(front, back, stride, width, height - 1);
      GridTotal(front, back, stride, width, height - 1);
      TotalIsCount(d, height - 1);
      TotalAppend(GridRuns(front, back, stride, width, height - 1), Runs(d, height - 1));
      assert height * width == (height - 1) * width + width;
    }
  }

  // ------------------------------------------------------- prefixes of a row

  /** Adding cell x to the prefix of a row. */
  lemma RunsNext(d: seq<bool>, y: nat, x: nat)
    requires x < |d|
    ensures x > 0 && d[x - 1] ==> EndsAt(Runs(d[..x], y), x) && Runs(d[..x], y)[|Runs(d[..x], y)| - 1].y == y
    ensures var before := Runs(d[..x], y);
      Runs(d[..x + 1], y) ==
        if !d[x] then before
        else if x > 0 && d[x - 1] then before[..|before| - 1] + [Lengthened(before[|before| - 1])]
        else before + [Span(x, y, 1)]
  {
    assert d[..x + 1][..x] == d[..x];
    RunsAreMaximal(d[..x], y);
  }

  /** Equal cells add nothing. */
  lemma {:induction false} RunsSkip(d: seq<bool>, y: nat, x: nat, k: nat)
    requires x + k <= |d| && forall i :: x <= i < x + k ==> !d[i]
    ensures Runs(d[..x + k], y) == Runs(d[..x], y)
    decreases k
  {
    if k > 0 {
      RunsSkip(d, y, x, k - 1);
      RunsNext(d, y, x + k - 1);
    }
  }

  /** A stretch of differing cells after an equal one is one new run. */
  lemma {:induction false} RunsStretch(d: seq<bool>, y: nat, start: nat, k: nat)
    requires 0 < k && start + k <= |d| && (start > 0 ==> !d[start - 1])
    requires forall i :: start <= i < start + k ==> d[i]
    ensures Runs(d[..start + k], y) == Runs(d[..start], y) + [Span(start, y, k)]
    decreases k
  {
    hide Runs;
    RunsNext(d, y, start + k - 1);
    if k > 1 { RunsStretch(d, y, start, k - 1); }
  }

  // ----------------------------------------------------------- the kernel

  /** The list written so far, cut to its capacity, and whether it was cut. */
  ghost predicate Written(w: seq<Span>, spans: seq<Span>, at: nat, used: nat, max: nat, overflow: bool) {
    && at + max <= |spans|
    && used == (if |w| <= max then |w| else max)
    && spans[at..at + used] == w[..used]
    && overflow == (|w| > max)
  }

  /** Appends a span, or notes that there is no room. */
  method Emit(spans: array<Span>, at: nat, used: nat, max: nat, overflow: bool, s: Span, ghost w: seq<Span>)
    returns (newUsed: nat, newOverflow: bool)
    requires Written(w, spans[..], at, used, max, overflow)
    modifies spans
    ensures Written(w + [s], spans[..], at, newUsed, max, newOverflow)
    ensures spans[..at] == old(spans[..at])
  {
    newUsed, newOverflow := used, overflow;
    if used < max {
      spans[at + used] := s;
      newUsed := used + 1;
      assert spans[at..at + newUsed] == w + [s];
    } else {
      newOverflow := true;
    }
  }

  /** Before scanning cell x of row y: everything before it is listed, the last run
      possibly still open; an open run touches x exactly if it belongs to this row. */
  ghost predicate Scanned(g: Grids, x: nat, y: nat, w: seq<Span>, active: bool, run: Span) {
    && g.Valid() && x <= g.stride && (y < g.height || (y == g.height && x == 0))
    && (if x == 0 then
          w + Pending(active, run) == g.Before(y) && (active ==> run.y != y)
        else
          && w + Pending(active, run) == g.Before(y) + Runs(g.Row(y)[..g.Visible(x)], y)
          && (active ==> run.y == y && x <= g.width && g.Row(y)[x - 1] && run.x + run.length == x)
          && (!active && x <= g.width ==> !g.Row(y)[x - 1]))
  }

  /** Two grids and their common layout. */
  datatype Grids = Grids(front: seq<Cell>, back: seq<Cell>, width: nat, height: nat, stride: nat) {
    ghost predicate Valid() {
      0 < width <= stride && Fits(front, stride, width, height) && Fits(back, stride, width, height)
    }

    function Row(y: nat): (d: seq<bool>)
      requires y * stride + width <= |front| && y * stride + width <= |back|
      ensures |d| == width
    {
      DirtyRow(front, back, stride, width, y)
    }

    function Visible(x: nat): nat { if x <= width then x else width }

    /** The runs of the rows above y. */
    ghost function Before(y: nat): seq<Span>
      requires Valid() && y <= height
    {
      GridRuns(front, back, stride, width, y)
    }
  }

  ghost function Pending(active: bool, run: Span): seq<Span> { if active then [run] else [] }

  lemma ScanStart(g: Grids)
    requires g.Valid()
    ensures Scanned(g, 0, 0, [], false, Span(0, 0, 0))
  {}

  /** Padding closes an open run. */
  lemma ScanPadding(g: Grids, x: nat, y: nat, w: seq<Span>, active: bool, run: Span)
    requires Scanned(g, x, y, w, active, run) && y < g.height && g.width <= x < g.stride
    ensures Scanned(g, x + 1, y, w + Pending(active, run), false, run)
  {}

  /** So does an equal cell. */
  lemma ScanEqual(g: Grids, x: nat, y: nat, w: seq<Span>, active: bool, run: Span)
    requires Scanned(g, x, y, w, active, run) && y < g.height && x < g.width && !g.Row(y)[x]
    ensures Scanned(g, x + 1, y, w + Pending(active, run), false, run)
  {
    RunsNext(g.Row(y), y, x);
    if x == 0 { assert Runs(g.Row(y)[..0], y) == []; }
  }

  /** A differing cell lengthens the open run of this row, or opens a new one. */
  lemma ScanDirty(g: Grids, x: nat, y: nat, w: seq<Span>, active: bool, run: Span)
    requires Scanned(g, x, y, w, active, run) && y < g.height && x < g.width && g.Row(y)[x]
    ensures active && run.y == y ==> x == run.x + run.length && Scanned(g, x + 1, y, w, true, Lengthened(run))
    ensures !(active && run.y == y) ==> Scanned(g, x + 1, y, w + Pending(active, run), true, Span(x, y, 1))
  {
    if active && run.y == y { ScanGrows(g, x, y, w, run); } else { ScanOpens(g, x, y, w, active, run); }
  }

  lemma ScanOpens(g: Grids, x: nat, y: nat, w: seq<Span>, active: bool, run: Span)
    requires Scanned(g, x, y, w, active, run) && y < g.height && x < g.width && g.Row(y)[x] && !(active && run.y == y)
    ensures Scanned(g, x + 1, y, w + Pending(active, run), true, Span(x, y, 1))
  {
    RunsNext(g.Row(y), y, x);
    if x == 0 { assert Runs(g.Row(y)[..0], y) == []; }
  }

  lemma ScanGrows(g: Grids, x: nat, y: nat, w: seq<Span>, run: Span)
    requires Scanned(g, x, y, w, true, run) && y < g.height && x < g.width && g.Row(y)[x] && run.y == y
    ensures x == run.x + run.length && Scanned(g, x + 1, y, w, true, Lengthened(run))
  {
    hide GridRuns, DirtyRow, Runs;
    var d := g.Row(y);
    RunsNext(d, y, x);
    var r := Runs(d[..x], y);
    LastOfSum(w, run, g.Before(y), r);
    assert w + [Lengthened(run)] == g.Before(y) + (r[..|r| - 1] + [Lengthened(run)]);
  }

  lemma LastOfSum(w: seq<Span>, run: Span, a: seq<Span>, r: seq<Span>)
    requires w + [run] == a + r && r != []
    ensures r[|r| - 1] == run && w == a + r[..|r| - 1]
  {
    var all := w + [run];
    assert all[|all| - 1] == run && (a + r)[|all| - 1] == r[|r| - 1];
    assert all[..|w|] == w && (a + r)[..|w|] == a + r[..|r| - 1];
  }

  /** From the end of a row to the start of the next. */
  lemma ScanWrap(g: Grids, y: nat, w: seq<Span>, active: bool, run: Span)
    requires Scanned(g, g.stride, y, w, active, run) && y < g.height
    ensures Scanned(g, 0, y + 1, w, active, run)
  {
    assert g.Row(y)[..g.width] == g.Row(y);
  }

  lemma ScanEnd(g: Grids, w: seq<Span>, active: bool, run: Span)
    requires Scanned(g, 0, g.height, w, active, run)
    ensures w + Pending(active, run) == g.Before(g.height)
  {}

  lemma Position(i: nat, stride: nat, height: nat)
    requires stride > 0 && i < height * stride
    ensures 0 <= i / stride < height && i == i / stride * stride + i % stride
    ensures if i % stride + 1 < stride then (i + 1) / stride == i / stride && (i + 1) % stride == i % stride + 1
      else (i + 1) / stride == i / stride + 1 && (i + 1) % stride == 0
  {
    var y, x := i / stride, i % stride;
    assert i == stride * y + x;
    MulMono(height, y, stride);
    MulMono(y, -1, stride);
    if x + 1 < stride { DivModUnique(i + 1, y, x + 1, stride); } else { DivModUnique(i + 1, y + 1, 0, stride); }
  }

  /** Without a width the whole row is visible. */
  function VisibleWidth(width: int, stride: nat): nat { if width <= 0 then stride else width }

  /** One pass over count cells; -1 if the spans do not fit. */
  method Kernel(front: seq<Cell>, back: seq<Cell>, ghost height: nat, count: nat, stride: nat, width0: int,
      spans: array<Span>, at: nat, maxSpans: nat) returns (n: int)
    requires Grids(front, back, VisibleWidth(width0, stride), height, stride).Valid() && count == height * stride
    requires at + maxSpans <= spans.Length
    modifies spans
    ensures var r := Grids(front, back, VisibleWidth(width0, stride), height, stride).Before(height);
      if |r| <= maxSpans then n == |r| && spans[at..at + n] == r else n == -1
    ensures spans[..at] == old(spans[..at])
  {
    hide Scanned, Written;
    var width: int := width0;
    if width <= 0 { width := stride; }
    ghost var g := Grids(front, back, width, height, stride);
    ghost var w: seq<Span> := [];
    var used, active, run, overflow := 0, false, Span(0, 0, 0), false;
    ScanStart(g);
    WrittenNothing(spans[..], at, maxSpans);
    var i := 0;
    assert 0 / stride == 0 && 0 % stride == 0;
    while i < count
      invariant 0 <= i <= count
      invariant Scanned(g, i % stride, i / stride, w, active, run)
      invariant Written(w, spans[..], at, used, maxSpans, overflow)
      invariant spans[..at] == old(spans[..at])
    {
      var x, y := i % stride, i / stride;
      Position(i, stride, height);
      if x >= width {
        ScanPadding(g, x, y, w, active, run);
        if active {
          used, overflow := Emit(spans, at, used, maxSpans, overflow, run, w);
          w := w + [run];
          active := false;
        } else {
          assert w + [] == w;
        }
      } else {
        assert g.Row(y)[x] == (front[i] != back[i]);
        if front[i] != back[i] {
          ScanDirty(g, x, y, w, active, run);
          if !active {
            assert w + [] == w;
            active, run := true, Span(x, y, 1);
          } else if run.y == y && x == run.x + run.length {
            run := Lengthened(run);
          } else {
            used, overflow := Emit(spans, at, used, maxSpans, overflow, run, w);
            w := w + [run];
            run := Span(x, y, 1);
          }
        } else {
          ScanEqual(g, x, y, w, active, run);
          if active {
            used, overflow := Emit(spans, at, used, maxSpans, overflow, run, w);
            w := w + [run];
            active := false;
          } else {
            assert w + [] == w;
          }
        }
      }
      if x + 1 == stride { ScanWrap(g, y, w, active, run); }
      i := i + 1;
    }
    DivModUnique(count, height, 0, stride);
    ScanEnd(g, w, active, run);
    if active {
      used, overflow := Emit(spans, at, used, maxSpans, overflow, run, w);
      w := w + [run];
    } else {
      assert w + [] == w;
    }
    WrittenAll(w, spans[..], at, used, maxSpans, overflow);
    n := if overflow then -1 else used;
  }

  lemma WrittenNothing(spans: seq<Span>, at: nat, max: nat)
    requires at + max <= |spans|
    ensures Written([], spans, at, 0, max, false)
  {}

  lemma WrittenAll(w: seq<Span>, spans: seq<Span>, at: nat, used: nat, max: nat, overflow: bool)
    requires Written(w, spans, at, used, max, overflow)
    ensures overflow == (|w| > max) && (|w| <= max ==> used == |w| && at + used <= |spans| && spans[at..at + used] == w)
  {}

  // ------------------------------------------------------- the three drivers

  /** A Go slice of spans: a backing array and the length in use. */
  class SpanList {
    var buf: array<Span>
    var len: nat

    ghost predicate Valid()
      reads this
    {
      len <= buf.Length
    }

    ghost function Contents(): seq<Span>
      requires Valid()
      reads this, buf
    {
      buf[..len]
    }

    /** A new backing array with room for `extra` more. */
    method Regrow(extra: nat)
      requires Valid()
      modifies this`buf
      ensures Valid() && fresh(buf) && buf.Length == len + extra && Contents() == old(Contents())
    {
      var bigger := new Span[len + extra](i requires 0 <= i reads this, buf =>
        if i < len <= buf.Length then buf[i] else Span(0, 0, 0));
      assert bigger[..len] == buf[..len];
      buf := bigger;
    }

    /** append(spans, s) */
    method Append(s: Span)
      requires Valid()
      modifies this, buf
      ensures Valid() && Contents() == old(Contents()) + [s]
      ensures buf == old(buf) || fresh(buf)
    {
      if len == buf.Length { Regrow(len + 1); }
      buf[len] := s;
      len := len + 1;
      assert buf[..len] == old(Contents()) + [s];
    }
  }

  /** The layouts a diff accepts. */
  predicate Accepts(front: seq<Cell>, back: seq<Cell>, width: int, height: int, stride: int) {
    && 0 < width <= stride && 0 < height
    && (height - 1) * stride + width <= |front| && (height - 1) * stride + width <= |back|
  }

  /** The layout tests all three implementations begin with. */
  method Refused(front: seq<Cell>, back: seq<Cell>, width: int, height: int, stride: int) returns (r: bool)
    ensures r == !Accepts(front, back, width, height, stride)
    ensures !r ==> width > 0 && height > 0 && stride > 0
  {
    if width <= 0 || height <= 0 || stride < width { return true; }
    var need := (height - 1) * stride + width;
    r := |front| < need || |back| < need;
  }

  lemma AcceptedIsValid(front: seq<Cell>, back: seq<Cell>, width: nat, height: nat, stride: nat)
    requires Accepts(front, back, width, height, stride)
    ensures Grids(front, back, width, height, stride).Valid()
  {
    forall y: nat | y < height ensures y * stride + width <= |front| && y * stride + width <= |back| {
      MulMono(y, height - 1, stride);
    }
  }

  /** What every implementation appends and returns. */
  ghost predicate IsDiff(front: seq<Cell>, back: seq<Cell>, width: int, height: int, stride: int,
      before: seq<Span>, after: seq<Span>, changed: int)
  {
    if Accepts(front, back, width, height, stride) then
      AcceptedIsValid(front, back, width, height, stride);
      && after == before + GridRuns(front, back, stride, width, height)
      && changed == GridCount(front, back, stride, width, height)
    else after == before && changed == 0
  }

  /** Scalar: the kernel writes behind the list; if the room is too small, once more
      with room for every visible cell. */
  method DiffScalar(front: seq<Cell>, back: seq<Cell>, width: int, height: int, stride: int, spans: SpanList)
    returns (changed: int)
    requires spans.Valid()
    modifies spans, spans.buf
    ensures spans.Valid() && IsDiff(front, back, width, height, stride, old(spans.Contents()), spans.Contents(), changed)
  {
    var refused := Refused(front, back, width, height, stride);
    if refused { return 0; }
    AcceptedIsValid(front, back, width, height, stride);
    var n0 := spans.len;
    var ns := FillSpans(front, back, width, height, stride, spans);
    spans.len := n0 + ns;
    ghost var r := GridRuns(front, back, stride, width, height);
    assert spans.buf[..n0 + ns] == spans.buf[..n0] + spans.buf[n0..n0 + ns];
    changed := SumLengths(spans.buf, n0, ns);
    GridTotal(front, back, stride, width, height);
  }

  /** Runs the kernel behind the list, at most twice: the second time it always has room. */
  method FillSpans(front: seq<Cell>, back: seq<Cell>, width: nat, height: nat, stride: nat, spans: SpanList) returns (ns: nat)
    requires spans.Valid() && height > 0 && Grids(front, back, width, height, stride).Valid()
    modifies spans`buf, spans.buf
    ensures spans.Valid() && (spans.buf == old(spans.buf) || fresh(spans.buf)) && spans.Contents() == old(spans.Contents())
    ensures spans.len + ns <= spans.buf.Length
    ensures spans.buf[spans.len..spans.len + ns] == Grids(front, back, width, height, stride).Before(height)
  {
    hide Runs, Fits, GridRuns;
    GridTotal(front, back, stride, width, height);
    var n0 := spans.len;
    var max := spans.buf.Length - n0;
    if max <= 0 {
      spans.Regrow(AtLeastOne(height * width));
      max := spans.buf.Length - n0;
    }
    var n := Kernel(front, back, height, height * stride, stride, width, spans.buf, n0, max);
    if n < 0 {
      var extra := height * width;
      if extra < max * 2 { extra := max * 2; }
      spans.Regrow(AtLeastOne(extra));
      max := spans.buf.Length - n0;
      n := Kernel(front, back, height, height * stride, stride, width, spans.buf, n0, max);
    }
    ns := n;
  }

  function AtLeastOne(extra: nat): (e: nat)
    ensures e >= 1 && e >= extra
  {
    if extra < 1 then 1 else extra
  }

  method SumLengths(buf: array<Span>, from: nat, n: nat) returns (sum: nat)
    requires from + n <= buf.Length
    ensures sum == Total(buf[from..from + n])
  {
    sum := 0;
    var i := from;
    while i < from + n
      invariant from <= i <= from + n && sum == Total(buf[from..i])
    {
      assert buf[from..i + 1] == buf[from..i] + [buf[i]];
      TotalSnoc(buf[from..i], buf[i]);
      sum := sum + buf[i].length;
      i := i + 1;
    }
  }

  // ------------------------------------------------------------- vectors

  /** The 64-bit word a cell occupies. */
  function CellWord(c: Cell): (w: u64) {
    c.rune + B32 * c.fg + 0x100_0000_0000 * c.bg + 0x1_0000_0000_0000 * c.flags + 0x100_0000_0000_0000 * c.width
  }

  lemma SameWord(a: Cell, b: Cell)
    ensures CellWord(a) == CellWord(b) <==> a == b
  {
    if CellWord(a) == CellWord(b) {
      var x, y := a.fg + 0x100 * (a.bg + 0x100 * (a.flags + 0x100 * a.width)), b.fg + 0x100 * (b.bg + 0x100 * (b.flags + 0x100 * b.width));
      assert a.rune + B32 * x == b.rune + B32 * y;
      SameDigits(a.rune, x, b.rune, y, B32);
      SameDigits(a.fg, a.bg + 0x100 * (a.flags + 0x100 * a.width), b.fg, b.bg + 0x100 * (b.flags + 0x100 * b.width), 0x100);
      SameDigits(a.bg, a.flags + 0x100 * a.width, b.bg, b.flags + 0x100 * b.width, 0x100);
      SameDigits(a.flags, a.width, b.flags, b.width, 0x100);
    }
  }

  lemma SameDigits(d: int, x: int, e: int, y: int, m: int)
    requires 0 <= d < m && 0 <= e < m && d + m * x == e + m * y
    ensures d == e && x == y
  {
    DivModUnique(d + m * x, x, d, m);
    DivModUnique(d + m * x, y, e, m);
  }

  /** Two cells compared as 64-bit words. */
  function CellEq(a: Cell, b: Cell): (e: bool)
    ensures e <==> a == b
  {
    SameWord(a, b);
    CellWord(a) == CellWord(b)
  }

  /** A lane comparison: all ones, as a signed number, or zero. */
  function LaneEqual(x: u64, y: u64): int { if x == y then -1 else 0 }

  /** The sign bits of a comparison of lanes, gathered in a byte. */
  function ToBits(lanes: seq<int>): byte
    requires |lanes| == 4
  {
    (if lanes[0] < 0 then 1 else 0) + (if lanes[1] < 0 then 2 else 0) + (if lanes[2] < 0 then 4 else 0) + if lanes[3] < 0 then 8 else 0
  }

  /** The complement of the equality mask of four cells, cut to four bits. */
  function ChunkDirty4(front: seq<Cell>, back: seq<Cell>, at: nat): byte
    requires at + 4 <= |front| && at + 4 <= |back|
  {
    var equal := seq(4, j requires 0 <= j < 4 => LaneEqual(CellWord(front[at + j]), CellWord(back[at + j])));
    (0xFF - ToBits(equal)) % 0x10
  }

  /** Number of zero bits below the lowest set bit. */
  function TrailingZeros8(m: nat): nat
    decreases m
  {
    if m == 0 then 8 else if m % 2 == 1 then 0 else 1 + TrailingZeros8(m / 2)
  }

  /** The row of grid cells from `base` on, compared. */
  ghost predicate Compared(d: seq<bool>, front: seq<Cell>, back: seq<Cell>, base: nat) {
    && base + |d| <= |front| && base + |d| <= |back|
    && forall x :: 0 <= x < |d| ==> d[x] == (front[base + x] != back[base + x])
  }

  lemma FirstDirtyOfFour(d: seq<bool>, front: seq<Cell>, back: seq<Cell>, base: nat, x: nat)
    requires Compared(d, front, back, base) && x + 4 <= |d|
    ensures var m := ChunkDirty4(front, back, base + x);
      if m == 0 then forall i :: x <= i < x + 4 ==> !d[i]
      else var t := TrailingZeros8(m); t < 4 && d[x + t] && forall i :: x <= i < x + t ==> !d[i]
  {
    hide CellWord;
    LaneAt(d, front, back, base, x);
    LaneAt(d, front, back, base, x + 1);
    LaneAt(d, front, back, base, x + 2);
    LaneAt(d, front, back, base, x + 3);
    var a, b, c, e := !d[x], !d[x + 1], !d[x + 2], !d[x + 3];
    assert ChunkDirty4(front, back, base + x) == Mask4(d[x], d[x + 1], d[x + 2], d[x + 3]);
    Mask4Zeros(d[x], d[x + 1], d[x + 2], d[x + 3]);
  }

  lemma LaneAt(d: seq<bool>, front: seq<Cell>, back: seq<Cell>, base: nat, i: nat)
    requires Compared(d, front, back, base) && i < |d|
    ensures LaneEqual(CellWord(front[base + i]), CellWord(back[base + i])) == if d[i] then 0 else -1
  {
    SameWord(front[base + i], back[base + i]);
    hide CellWord;
  }

  function Mask4(a: bool, b: bool, c: bool, e: bool): nat {
    (if a then 1 else 0) + (if b then 2 else 0) + (if c then 4 else 0) + if e then 8 else 0
  }

  lemma Mask4Zeros(a: bool, b: bool, c: bool, e: bool)
    ensures TrailingZeros8(Mask4(a, b, c, e)) == if a then 0 else if b then 1 else if c then 2 else if e then 3 else 8
    ensures Mask4(a, b, c, e) == 0 <==> !a && !b && !c && !e
  {
    assert TrailingZeros8(1) == 0 && TrailingZeros8(2) == 1 && TrailingZeros8(3) == 0;
  }

  /** Bit j is set when lane j of a two-cell comparison is zero. */
  function ChunkDirty2(front: seq<Cell>, back: seq<Cell>, at: nat): byte
    requires at + 2 <= |front| && at + 2 <= |back|
  {
    (if LaneEqual(CellWord(front[at]), CellWord(back[at])) == 0 then 1 else 0)
      + if LaneEqual(CellWord(front[at + 1]), CellWord(back[at + 1])) == 0 then 2 else 0
  }

  lemma FirstDirtyOfTwo(d: seq<bool>, front: seq<Cell>, back: seq<Cell>, base: nat, x: nat)
    requires Compared(d, front, back, base) && x + 2 <= |d|
    ensures var m := ChunkDirty2(front, back, base + x);
      && (m == 0 <==> !d[x] && !d[x + 1])
      && (m != 0 && m % 2 == 0 ==> !d[x] && d[x + 1]) && (m % 2 == 1 ==> d[x])
  {
    hide CellWord;
    LaneAt(d, front, back, base, x);
    LaneAt(d, front, back, base, x + 1);
  }

  /** Scanning a row from the left: everything before x is listed, and no run crosses x. */
  ghost predicate RowScanned(d: seq<bool>, y: nat, x: nat, before: seq<Span>, list: seq<Span>, base: nat, changed: nat) {
    && x <= |d| && list == before + Runs(d[..x], y) && changed == base + Total(Runs(d[..x], y))
    && (0 < x < |d| ==> !(d[x - 1] && d[x]))
  }

  lemma RowStart(d: seq<bool>, y: nat, before: seq<Span>, base: nat)
    ensures RowScanned(d, y, 0, before, before, base, base)
  {
    assert Runs(d[..0], y) == [];
  }

  lemma RowSkips(d: seq<bool>, y: nat, x: nat, k: nat, before: seq<Span>, list: seq<Span>, base: nat, changed: nat)
    requires RowScanned(d, y, x, before, list, base, changed) && x + k <= |d| && forall i :: x <= i < x + k ==> !d[i]
    ensures RowScanned(d, y, x + k, before, list, base, changed)
  {
    RunsSkip(d, y, x, k);
  }

  lemma RowRun(d: seq<bool>, y: nat, x: nat, end: nat, before: seq<Span>, list: seq<Span>, base: nat, changed: nat)
    requires RowScanned(d, y, x, before, list, base, changed) && x < end <= |d| && (end < |d| ==> !d[end])
    requires forall i :: x <= i < end ==> d[i]
    ensures RowScanned(d, y, end, before, list + [Span(x, y, end - x)], base, changed + (end - x))
  {
    hide Runs, Total;
    assert x > 0 ==> !d[x - 1] by { assert d[x]; }
    RunsStretch(d, y, x, end - x);
    TotalSnoc(Runs(d[..x], y), Span(x, y, end - x));
    assert d[..x + (end - x)] == d[..end];
  }

  lemma RowEnd(d: seq<bool>, y: nat, before: seq<Span>, list: seq<Span>, base: nat, changed: nat)
    requires RowScanned(d, y, |d|, before, list, base, changed)
    ensures list == before + Runs(d, y) && changed == base + CountTrue(d)
  {
    assert d[..|d|] == d;
    TotalIsCount(d, y);
  }

  /** The end of the stretch of differing cells that begins at x. */
  method StretchEnd(front: seq<Cell>, back: seq<Cell>, base: nat, width: nat, x: nat, ghost d: seq<bool>) returns (end: nat)
    requires Compared(d, front, back, base) && |d| == width && x < width && d[x]
    ensures x < end <= |d| && (end < |d| ==> !d[end]) && forall i :: x <= i < end ==> d[i]
  {
    end := x;
    while end < width && !CellEq(front[base + end], back[base + end])
      invariant x <= end <= |d| && forall i :: x <= i < end ==> d[i]
    {
      end := end + 1;
    }
  }

  /** One row by vectors of four cells, single cells at the end. */
  method ScanRow4(front: seq<Cell>, back: seq<Cell>, rowBase: nat, width: nat, y: nat, spans: SpanList, base: nat,
      ghost d: seq<bool>) returns (changed: nat)
    requires spans.Valid() && Compared(d, front, back, rowBase) && |d| == width
    modifies spans, spans.buf
    ensures spans.Valid() && (spans.buf == old(spans.buf) || fresh(spans.buf))
    ensures spans.Contents() == old(spans.Contents()) + Runs(d, y) && changed == base + CountTrue(d)
  {
    hide RowScanned, Runs, CellEq, ChunkDirty4, ChunkDirty2;
    ghost var before := spans.Contents();
    changed := base;
    RowStart(d, y, before, base);
    var x := 0;
    while x < width
      invariant x <= width && spans.Valid() && (spans.buf == old(spans.buf) || fresh(spans.buf))
      invariant RowScanned(d, y, x, before, spans.Contents(), base, changed)
      decreases width - x
    {
      ghost var x0 := x;
      while x + 4 <= width
        invariant x0 <= x <= width
        invariant RowScanned(d, y, x, before, spans.Contents(), base, changed)
        modifies {}
      {
        var m := ChunkDirty4(front, back, rowBase + x);
        FirstDirtyOfFour(d, front, back, rowBase, x);
        if m == 0 {
          RowSkips(d, y, x, 4, before, spans.Contents(), base, changed);
          x := x + 4;
        } else {
          RowSkips(d, y, x, TrailingZeros8(m), before, spans.Contents(), base, changed);
          x := x + TrailingZeros8(m);
          break;
        }
      }
      if x >= width { break; }
      if CellEq(front[rowBase + x], back[rowBase + x]) {
        RowSkips(d, y, x, 1, before, spans.Contents(), base, changed);
        x := x + 1;
      } else {
        var end := StretchEnd(front, back, rowBase, width, x, d);
        RowRun(d, y, x, end, before, spans.Contents(), base, changed);
        spans.Append(Span(x, y, end - x));
        changed := changed + (end - x);
        x := end;
      }
    }
    RowEnd(d, y, before, spans.Contents(), base, changed);
  }

  /** One row by vectors of two cells. */
  method ScanRow2(front: seq<Cell>, back: seq<Cell>, rowBase: nat, width: nat, y: nat, spans: SpanList, base: nat,
      ghost d: seq<bool>) returns (changed: nat)
    requires spans.Valid() && Compared(d, front, back, rowBase) && |d| == width
    modifies spans, spans.buf
    ensures spans.Valid() && (spans.buf == old(spans.buf) || fresh(spans.buf))
    ensures spans.Contents() == old(spans.Contents()) + Runs(d, y) && changed == base + CountTrue(d)
  {
    hide RowScanned, Runs, CellEq, ChunkDirty4, ChunkDirty2;
    ghost var before := spans.Contents();
    changed := base;
    RowStart(d, y, before, base);
    var x := 0;
    while x < width
      invariant x <= width && spans.Valid() && (spans.buf == old(spans.buf) || fresh(spans.buf))
      invariant RowScanned(d, y, x, before, spans.Contents(), base, changed)
      decreases width - x
    {
      ghost var x0 := x;
      while x + 2 <= width
        invariant x0 <= x <= width
        invariant RowScanned(d, y, x, before, spans.Contents(), base, changed)
        modifies {}
      {
        var m := ChunkDirty2(front, back, rowBase + x);
        FirstDirtyOfTwo(d, front, back, rowBase, x);
        if m == 0 {
          RowSkips(d, y, x, 2, before, spans.Contents(), base, changed);
          x := x + 2;
        } else {
          if m % 2 == 0 {
            RowSkips(d, y, x, 1, before, spans.Contents(), base, changed);
            x := x + 1;
          }
          break;
        }
      }
      if x >= width { break; }
      if CellEq(front[rowBase + x], back[rowBase + x]) {
        RowSkips(d, y, x, 1, before, spans.Contents(), base, changed);
        x := x + 1;
      } else {
        var end := StretchEnd(front, back, rowBase, width, x, d);
        RowRun(d, y, x, end, before, spans.Contents(), base, changed);
        spans.Append(Span(x, y, end - x));
        changed := changed + (end - x);
        x := end;
      }
    }
    RowEnd(d, y, before, spans.Contents(), base, changed);
  }

  /** One more row, by vectors of four cells. */
  method NextRow4(front: seq<Cell>, back: seq<Cell>, stride: nat, width: nat, y: nat, ghost height: nat, spans: SpanList, base: nat,
      ghost before: seq<Span>) returns (changed: nat)
    requires spans.Valid() && y < height && Fits(front, stride, width, height) && Fits(back, stride, width, height)
    requires Fits(front, stride, width, y) && Fits(back, stride, width, y)
    requires spans.Contents() == before + GridRuns(front, back, stride, width, y) && base == GridCount(front, back, stride, width, y)
    modifies spans, spans.buf
    ensures spans.Valid() && (spans.buf == old(spans.buf) || fresh(spans.buf))
    ensures Fits(front, stride, width, y + 1) && Fits(back, stride, width, y + 1)
    ensures spans.Contents() == before + GridRuns(front, back, stride, width, y + 1)
    ensures changed == GridCount(front, back, stride, width, y + 1)
  {
    hide Runs, CountTrue, Fits, DirtyRow, Compared, GridRuns, GridCount;
    NextRow(front, back, stride, width, y, height, before);
    changed := ScanRow4(front, back, y * stride, width, y, spans, base, DirtyRow(front, back, stride, width, y));
  }

  /** Row by row with four-cell vectors. */
  method DiffAVX2(front: seq<Cell>, back: seq<Cell>, width: int, height: int, stride: int, spans: SpanList) returns (changed: int)
    requires spans.Valid()
    modifies spans, spans.buf
    ensures spans.Valid() && IsDiff(front, back, width, height, stride, old(spans.Contents()), spans.Contents(), changed)
  {
    var refused := Refused(front, back, width, height, stride);
    if refused { return 0; }
    hide Runs, Fits, GridRuns, GridCount;
    AcceptedIsValid(front, back, width, height, stride);
    changed := Rows4(front, back, stride, width, height, spans);
  }

  method Rows4(front: seq<Cell>, back: seq<Cell>, stride: nat, width: nat, height: nat, spans: SpanList) returns (changed: nat)
    requires spans.Valid() && Fits(front, stride, width, height) && Fits(back, stride, width, height)
    modifies spans, spans.buf
    ensures spans.Valid() && spans.Contents() == old(spans.Contents()) + GridRuns(front, back, stride, width, height)
    ensures changed == GridCount(front, back, stride, width, height)
  {
    hide Runs, CountTrue, Fits, DirtyRow, Compared, GridRuns, GridCount;
    ghost var before := spans.Contents();
    changed := 0;
    var y := 0;
    NoRows(front, back, stride, width, before);
    while y < height
      invariant 0 <= y <= height
      invariant spans.Valid() && (spans.buf == old(spans.buf) || fresh(spans.buf))
      invariant Fits(front, stride, width, y) && Fits(back, stride, width, y)
      invariant spans.Contents() == before + GridRuns(front, back, stride, width, y)
      invariant changed == GridCount(front, back, stride, width, y)
    {
      changed := NextRow4(front, back, stride, width, y, height, spans, changed, before);
      y := y + 1;
    }
  }

  /** One more row, by vectors of two cells. */
  method NextRow2(front: seq<Cell>, back: seq<Cell>, stride: nat, width: nat, y: nat, ghost height: nat, spans: SpanList, base: nat,
      ghost before: seq<Span>) returns (changed: nat)
    requires spans.Valid() && y < height && Fits(front, stride, width, height) && Fits(back, stride, width, height)
    requires Fits(front, stride, width, y) && Fits(back, stride, width, y)
    requires spans.Contents() == before + GridRuns(front, back, stride, width, y) && base == GridCount(front, back, stride, width, y)
    modifies spans, spans.buf
    ensures spans.Valid() && (spans.buf == old(spans.buf) || fresh(spans.buf))
    ensures Fits(front, stride, width, y + 1) && Fits(back, stride, width, y + 1)
    ensures spans.Contents() == before + GridRuns(front, back, stride, width, y + 1)
    ensures changed == GridCount(front, back, stride, width, y + 1)
  {
    hide Runs, CountTrue, Fits, DirtyRow, Compared, GridRuns, GridCount;
    NextRow(front, back, stride, width, y, height, before);
    changed := ScanRow2(front, back, y * stride, width, y, spans, base, DirtyRow(front, back, stride, width, y));
  }

  /** Row by row with two-cell vectors. */
  method DiffNEON(front: seq<Cell>, back: seq<Cell>, width: int, height: int, stride: int, spans: SpanList) returns (changed: int)
    requires spans.Valid()
    modifies spans, spans.buf
    ensures spans.Valid() && IsDiff(front, back, width, height, stride, old(spans.Contents()), spans.Contents(), changed)
  {
    var refused := Refused(front, back, width, height, stride);
    if refused { return 0; }
    hide Runs, Fits, GridRuns, GridCount;
    AcceptedIsValid(front, back, width, height, stride);
    changed := Rows2(front, back, stride, width, height, spans);
  }

  method Rows2(front: seq<Cell>, back: seq<Cell>, stride: nat, width: nat, height: nat, spans: SpanList) returns (changed: nat)
    requires spans.Valid() && Fits(front, stride, width, height) && Fits(back, stride, width, height)
    modifies spans, spans.buf
    ensures spans.Valid() && spans.Contents() == old(spans.Contents()) + GridRuns(front, back, stride, width, height)
    ensures changed == GridCount(front, back, stride, width, height)
  {
    hide Runs, CountTrue, Fits, DirtyRow, Compared, GridRuns, GridCount;
    ghost var before := spans.Contents();
    changed := 0;
    var y := 0;
    NoRows(front, back, stride, width, before);
    while y < height
      invariant 0 <= y <= height
      invariant spans.Valid() && (spans.buf == old(spans.buf) || fresh(spans.buf))
      invariant Fits(front, stride, width, y) && Fits(back, stride, width, y)
      invariant spans.Contents() == before + GridRuns(front, back, stride, width, y)
      invariant changed == GridCount(front, back, stride, width, y)
    {
      changed := NextRow2(front, back, stride, width, y, height, spans, changed, before);
      y := y + 1;
    }
  }

  lemma NoRows(front: seq<Cell>, back: seq<Cell>, stride: nat, width: nat, before: seq<Span>)
    ensures Fits(front, stride, width, 0) && Fits(back, stride, width, 0)
    ensures before + GridRuns(front, back, stride, width, 0) == before && GridCount(front, back, stride, width, 0) == 0
  {}

  lemma NextRow(front: seq<Cell>, back: seq<Cell>, stride: nat, width: nat, y: nat, height: nat, before: seq<Span>)
    requires y < height && Fits(front, stride, width, height) && Fits(back, stride, width, height)
    ensures Fits(front, stride, width, y) && Fits(back, stride, width, y)
    ensures Fits(front, stride, width, y + 1) && Fits(back, stride, width, y + 1)
    ensures y * stride + width <= |front| && y * stride + width <= |back|
    ensures var d := DirtyRow(front, back, stride, width, y);
      && before + GridRuns(front, back, stride, width, y + 1) == before + GridRuns(front, back, stride, width, y) + Runs(d, y)
      && GridCount(front, back, stride, width, y + 1) == GridCount(front, back, stride, width, y) + CountTrue(d)
      && Compared(d, front, back, y * stride)
  {
    hide Runs, CountTrue;
  }

  // ------------------------------------------------------ applying the diff

  /** Copies back's cells over front on one span, then on the rest. */
  function Apply(front: seq<Cell>, back: seq<Cell>, stride: nat, spans: seq<Span>): (r: seq<Cell>)
    ensures |r| == |front|
    decreases |spans|
  {
    if spans == [] then front else
      var s, rest := spans[|spans| - 1], Apply(front, back, stride, spans[..|spans| - 1]);
      seq(|front|, i requires 0 <= i < |front| =>
        if s.y * stride + s.x <= i < s.y * stride + s.x + s.length && i < |back| then back[i] else rest[i])
  }

  ghost predicate Touched(spans: seq<Span>, stride: nat, i: nat) {
    exists k :: 0 <= k < |spans| && spans[k].y * stride + spans[k].x <= i < spans[k].y * stride + spans[k].x + spans[k].length
  }

  lemma {:induction false} ApplyAt(front: seq<Cell>, back: seq<Cell>, stride: nat, spans: seq<Span>, i: nat)
    requires i < |front|
    ensures Apply(front, back, stride, spans)[i] == if Touched(spans, stride, i) && i < |back| then back[i] else front[i]
    decreases |spans|
  {
    if spans != [] {
      var n := |spans| - 1;
      ApplyAt(front, back, stride, spans[..n], i);
      if Touched(spans[..n], stride, i) {
        var k :| 0 <= k < n && spans[..n][k].y * stride + spans[..n][k].x <= i
          < spans[..n][k].y * stride + spans[..n][k].x + spans[..n][k].length;
        assert spans[k] == spans[..n][k];
      }
    }
  }

  /** A differing visible cell is touched by the canonical list. */
  lemma {:induction false} DirtyIsTouched(g: Grids, x: nat, y: nat, height: nat)
    requires g.Valid() && height <= g.height && y < height && x < g.width && g.Row(y)[x]
    ensures Touched(g.Before(height), g.stride, y * g.stride + x)
    decreases height
  {
    hide Runs;
    var a, b := g.Before(height - 1), Runs(g.Row(height - 1), height - 1);
    assert g.Before(height) == a + b;
    if y == height - 1 {
      RunsCover(g.Row(y), y, x);
      var k :| 0 <= k < |b| && Covers(b[k], x, y);
      assert (a + b)[|a| + k] == b[k];
    } else {
      DirtyIsTouched(g, x, y, height - 1);
      TouchedMore(a, b, g.stride, y * g.stride + x);
    }
  }

  lemma TouchedMore(a: seq<Span>, b: seq<Span>, stride: nat, i: nat)
    requires Touched(a, stride, i)
    ensures Touched(a + b, stride, i)
  {
    var k :| 0 <= k < |a| && a[k].y * stride + a[k].x <= i < a[k].y * stride + a[k].x + a[k].length;
    assert (a + b)[k] == a[k];
  }

  /** Cell i lies above row `height`, is visible and differs. */
  ghost predicate DirtyCell(g: Grids, height: nat, i: nat)
    requires g.Valid()
  {
    hide DirtyRow;
    height <= g.height && i / g.stride < height && i % g.stride < g.width && RowDirty(g, i / g.stride, i % g.stride)
  }

  ghost predicate RowDirty(g: Grids, y: nat, x: nat)
    requires g.Valid() && y < g.height && x < g.width
  {
    hide DirtyRow;
    g.Row(y)[x]
  }

  /** The canonical list touches only visible cells that differ. */
  lemma {:induction false} TouchedIsDirty(g: Grids, height: nat, i: nat)
    requires g.Valid() && height <= g.height && Touched(g.Before(height), g.stride, i)
    ensures DirtyCell(g, height, i)
    decreases height
  {
    hide Runs, GridRuns, DirtyRow, IsMaximalRun, Separated, Fits;
    var l := g.Before(height);
    var k :| 0 <= k < |l| && l[k].y * g.stride + l[k].x <= i < l[k].y * g.stride + l[k].x + l[k].length;
    NoRowsAbove(g);
    LastRow(g, height);
    assert height > 0;
    var a, b := g.Before(height - 1), Runs(g.Row(height - 1), height - 1);
    if k < |a| {
      assert a[k] == l[k];
      TouchedIsDirty(g, height - 1, i);
    } else {
      assert l[k] == b[k - |a|];
      RunsAreMaximal(g.Row(height - 1), height - 1);
      RunIsDirty(g, height - 1, l[k], i);
    }
  }

  lemma NoRowsAbove(g: Grids)
    requires g.Valid()
    ensures g.Before(0) == []
  {}

  lemma LastRow(g: Grids, height: nat)
    requires g.Valid() && 0 < height <= g.height
    ensures (height - 1) * g.stride + g.width <= |g.front| && (height - 1) * g.stride + g.width <= |g.back|
    ensures g.Before(height) == g.Before(height - 1) + Runs(g.Row(height - 1), height - 1)
  {
    hide Runs, DirtyRow;
  }

  /** A cell of a maximal run of row y is visible and differs. */
  lemma RunIsDirty(g: Grids, y: nat, s: Span, i: nat)
    requires g.Valid() && y < g.height && s.y == y && IsMaximalRun(g.Row(y), s)
    requires y * g.stride + s.x <= i < y * g.stride + s.x + s.length
    ensures i / g.stride == y && i % g.stride < g.width && RowDirty(g, y, i % g.stride)
  {
    hide DirtyRow;
    DivModUnique(i, y, i - y * g.stride, g.stride);
  }

  /** After copying the listed cells the visible zones are equal, and nothing outside them changed. */
  lemma ApplyEqualises(g: Grids, x: nat, y: nat)
    requires g.Valid() && y < g.height && x < g.stride && y * g.stride + x < |g.front|
    ensures x < g.width ==> y * g.stride + x < |g.back|
    ensures Apply(g.front, g.back, g.stride, g.Before(g.height))[y * g.stride + x]
      == if x < g.width then g.back[y * g.stride + x] else g.front[y * g.stride + x]
  {
    hide GridRuns;
    var i := y * g.stride + x;
    ApplyAt(g.front, g.back, g.stride, g.Before(g.height), i);
    DivModUnique(i, y, x, g.stride);
    if Touched(g.Before(g.height), g.stride, i) {
      TouchedIsDirty(g, g.height, i);
    } else if x < g.width {
      if g.Row(y)[x] { DirtyIsTouched(g, x, y, g.height); }
    }
  }
}
