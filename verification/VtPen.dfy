/** What the selection of colours and attributes does, parameter by parameter. */
module VtPen {
  import opened Words
  import opened VtGrid
  import opened VtParser
  import opened VtScan
  import opened VtEffects

  // -------------------------------------------------------------- attributes

  predicate Bold(attr: byte) { attr % 2 == 1 }

  predicate Dim(attr: byte) { attr / 2 % 2 == 1 }

  predicate Underlined(attr: byte) { attr / 4 % 2 == 1 }

  predicate Inverse(attr: byte) { attr / 8 % 2 == 1 }

  function HigherBits(attr: byte): nat { attr / 16 }

  /** A colour after one parameter: reset, a dim or a bright one of eight, or unchanged. */
  function ColourAfter(p: nat, current: byte, reset: nat, dim: nat, bright: nat): byte {
    if p == 0 || p == reset then 0
    else if dim <= p < dim + 8 then p - dim
    else if bright <= p < bright + 8 then p - bright + 8
    else current
  }

  /** The bits of a byte, apart and together. */
  lemma BitsOf(a: byte) returns (b0: nat, b1: nat, b2: nat, b3: nat)
    ensures b0 <= 1 && b1 <= 1 && b2 <= 1 && b3 <= 1 && a == b0 + 2 * b1 + 4 * b2 + 8 * b3 + 16 * (a / 16)
    ensures a % 2 == b0 && a / 2 % 2 == b1 && a / 4 % 2 == b2 && a / 8 % 2 == b3
  {
    b0, b1, b2, b3 := a % 2, a / 2 % 2, a / 4 % 2, a / 8 % 2;
    DivDiv(a, 2, 2);
    DivDiv(a, 4, 2);
    DivDiv(a, 8, 2);
  }

  lemma Assembled(a: int, b0: nat, b1: nat, b2: nat, b3: nat, h: nat)
    requires b0 <= 1 && b1 <= 1 && b2 <= 1 && b3 <= 1 && a == b0 + 2 * b1 + 4 * b2 + 8 * b3 + 16 * h
    ensures a % 2 == b0 && a / 2 % 2 == b1 && a / 4 % 2 == b2 && a / 8 % 2 == b3 && a / 16 == h
  {
    DivModUnique(a, b1 + 2 * b2 + 4 * b3 + 8 * h, b0, 2);
    DivModUnique(a, b2 + 2 * b3 + 4 * h, b0 + 2 * b1, 4);
    DivModUnique(a, b3 + 2 * h, b0 + 2 * b1 + 4 * b2, 8);
    DivModUnique(a, h, b0 + 2 * b1 + 4 * b2 + 8 * b3, 16);
    DivModUnique(b1 + 2 * b2 + 4 * b3 + 8 * h, b2 + 2 * b3 + 4 * h, b1, 2);
    DivModUnique(b2 + 2 * b3 + 4 * h, b3 + 2 * h, b2, 2);
    DivModUnique(b3 + 2 * h, h, b3, 2);
  }

  /** Setting or clearing one bit leaves the others. */
  lemma BoldAlone(a: byte)
    ensures var b := SetBit(a, BOLD); Bold(b) && Dim(b) == Dim(a) && Underlined(b) == Underlined(a) && Inverse(b) == Inverse(a) && HigherBits(b) == HigherBits(a)
    ensures var b := ClearBit(a, BOLD); !Bold(b) && Dim(b) == Dim(a) && Underlined(b) == Underlined(a) && Inverse(b) == Inverse(a) && HigherBits(b) == HigherBits(a)
  {
    var b0, b1, b2, b3 := BitsOf(a);
    Assembled(SetBit(a, BOLD), 1, b1, b2, b3, a / 16);
    Assembled(ClearBit(a, BOLD), 0, b1, b2, b3, a / 16);
  }

  lemma DimAlone(a: byte)
    ensures var b := SetBit(a, DIM); Bold(b) == Bold(a) && Dim(b) && Underlined(b) == Underlined(a) && Inverse(b) == Inverse(a) && HigherBits(b) == HigherBits(a)
    ensures var b := ClearBit(a, DIM); Bold(b) == Bold(a) && !Dim(b) && Underlined(b) == Underlined(a) && Inverse(b) == Inverse(a) && HigherBits(b) == HigherBits(a)
  {
    var b0, b1, b2, b3 := BitsOf(a);
    Assembled(SetBit(a, DIM), b0, 1, b2, b3, a / 16);
    Assembled(ClearBit(a, DIM), b0, 0, b2, b3, a / 16);
  }

  lemma UnderlinedAlone(a: byte)
    ensures var b := SetBit(a, UNDERLINE); Bold(b) == Bold(a) && Dim(b) == Dim(a) && Underlined(b) && Inverse(b) == Inverse(a) && HigherBits(b) == HigherBits(a)
    ensures var b := ClearBit(a, UNDERLINE); Bold(b) == Bold(a) && Dim(b) == Dim(a) && !Underlined(b) && Inverse(b) == Inverse(a) && HigherBits(b) == HigherBits(a)
  {
    var b0, b1, b2, b3 := BitsOf(a);
    Assembled(SetBit(a, UNDERLINE), b0, b1, 1, b3, a / 16);
    Assembled(ClearBit(a, UNDERLINE), b0, b1, 0, b3, a / 16);
  }

  lemma InverseAlone(a: byte)
    ensures var b := SetBit(a, INVERSE); Bold(b) == Bold(a) && Dim(b) == Dim(a) && Underlined(b) == Underlined(a) && Inverse(b) && HigherBits(b) == HigherBits(a)
    ensures var b := ClearBit(a, INVERSE); Bold(b) == Bold(a) && Dim(b) == Dim(a) && Underlined(b) == Underlined(a) && !Inverse(b) && HigherBits(b) == HigherBits(a)
  {
    var b0, b1, b2, b3 := BitsOf(a);
    Assembled(SetBit(a, INVERSE), b0, b1, b2, 1, a / 16);
    Assembled(ClearBit(a, INVERSE), b0, b1, b2, 0, a / 16);
  }

  // ---------------------------------------------------------------- sequences

  ghost predicate SamePen(v: Vt, w: Vt) { v.fg == w.fg && v.bg == w.bg && v.attr == w.attr && v.nearest == w.nearest }

  /** The selection depends on the pen and on the parameters still to come, nothing else. */
  lemma {:induction false} SgrLocal(v: Vt, i: nat, w: Vt, j: nat)
    requires |v.params| == 16 && |w.params| == 16 && i <= v.num <= 16 && j <= w.num <= 16 && v.num - i == w.num - j
    requires forall k :: i <= k < v.num ==> v.params[k] == w.params[k - i + j]
    requires SamePen(v, w)
    ensures SamePen(Sgr(v, i), Sgr(w, j))
    decreases v.num - i
  {
    if i < v.num {
      SgrStepLocal(v, i, w, j);
      hide SgrStep;
      var (a, k) := SgrStep(v, i);
      var (b, l) := SgrStep(w, j);
      if i + k <= v.num { SgrLocal(a, i + k, b, j + l); }
    }
  }

  lemma SgrStepLocal(v: Vt, i: nat, w: Vt, j: nat)
    requires |v.params| == 16 && |w.params| == 16 && i < v.num <= 16 && j < w.num <= 16 && v.num - i == w.num - j
    requires forall k :: i <= k < v.num ==> v.params[k] == w.params[k - i + j]
    requires SamePen(v, w)
    ensures SamePen(SgrStep(v, i).0, SgrStep(w, j).0) && SgrStep(v, i).1 == SgrStep(w, j).1 <= v.num - i
  {
    hide SetBit, ClearBit;
    assert v.params[i] == w.params[j];
    if v.num - i >= 3 { assert v.params[i + 1] == w.params[j + 1] && v.params[i + 2] == w.params[j + 2]; }
    if v.num - i >= 5 { assert v.params[i + 3] == w.params[j + 3] && v.params[i + 4] == w.params[j + 4]; }
  }

  /** The sequence changes the pen only. */
  lemma PenSequence(v: Vt, ds: seq<seq<byte>>) returns (w: Vt)
    requires AtRest(v) && Parameters(ds)
    ensures w.Consistent() && w.num == Count(0, ds) && (forall i :: 0 <= i < w.num ==> w.params[i] == Number(ds[i])) && SamePen(v, w)
    ensures AtRest(Fed(v, Csi(ds, 'm'))) && Fed(v, Csi(ds, 'm')).grid == v.grid && SamePen(Fed(v, Csi(ds, 'm')), Sgr(w, 0))
  {
    hide Fed, Csi, Sgr;
    w := SequenceRead(v, ds, 'm');
    DispatchKeeps(w, 'm' as int);
    assert Fed(v, Csi(ds, 'm')) == Sgr(w, 0).Go(Ground);
  }

  /** One parameter: which of colours and attributes it changes, all others staying. */
  lemma OneSelection(v: Vt, d: seq<byte>)
    requires AtRest(v) && AllDigits(d)
    ensures var p, r := Number(d), Fed(v, Csi([d], 'm'));
      && AtRest(r) && r.grid == v.grid
      && r.fg == ColourAfter(p, v.fg, 39, 30, 90) && r.bg == ColourAfter(p, v.bg, 49, 40, 100)
      && (Bold(r.attr) <==> p == 1 || (Bold(v.attr) && p != 0 && p != 22))
      && (Dim(r.attr) <==> p == 2 || (Dim(v.attr) && p != 0 && p != 22 && p != 23))
      && (Underlined(r.attr) <==> p == 4 || (Underlined(v.attr) && p != 0 && p != 24))
      && (Inverse(r.attr) <==> p == 7 || (Inverse(v.attr) && p != 0 && p != 27))
      && HigherBits(r.attr) == if p == 0 then 0 else HigherBits(v.attr)
  {
    hide Fed, Csi, SgrStep;
    var w := PenSequence(v, [d]);
    var (u, k) := SgrStep(w, 0);
    OneStep(w, Number(d));
    assert Sgr(w, 0) == Sgr(u, k) == u;
  }

  lemma OneStep(w: Vt, p: nat)
    requires |w.params| == 16 && w.num == 1 && w.params[0] == p
    ensures var u := SgrStep(w, 0).0;
      && SgrStep(w, 0).1 == 1
      && u.fg == ColourAfter(p, w.fg, 39, 30, 90) && u.bg == ColourAfter(p, w.bg, 49, 40, 100)
      && (Bold(u.attr) <==> p == 1 || (Bold(w.attr) && p != 0 && p != 22))
      && (Dim(u.attr) <==> p == 2 || (Dim(w.attr) && p != 0 && p != 22 && p != 23))
      && (Underlined(u.attr) <==> p == 4 || (Underlined(w.attr) && p != 0 && p != 24))
      && (Inverse(u.attr) <==> p == 7 || (Inverse(w.attr) && p != 0 && p != 27))
      && HigherBits(u.attr) == if p == 0 then 0 else HigherBits(w.attr)
  {
    BoldAlone(w.attr);
    DimAlone(w.attr);
    UnderlinedAlone(w.attr);
    InverseAlone(w.attr);
    DimAlone(ClearBit(w.attr, BOLD));
    hide SetBit, ClearBit;
    if p == 0 {
      assert !Bold(0) && !Dim(0) && !Underlined(0) && !Inverse(0) && HigherBits(0) == 0;
    }
    hide Bold, Dim, Underlined, Inverse, HigherBits;
  }

  /** 38;5;n and 48;5;n take a colour of the palette, 38;2;r;g;b and 48;2;r;g;b the nearest one;
      the other colour and the attributes stay. */
  lemma ExtendedSelection(v: Vt, ds: seq<seq<byte>>)
    requires AtRest(v) && Parameters(ds) && ds[|ds| - 1] != [] && (Number(ds[0]) == 38 || Number(ds[0]) == 48)
    requires if |ds| == 3 then Number(ds[1]) == 5 else |ds| == 5 && Number(ds[1]) == 2
    ensures var r := Fed(v, Csi(ds, 'm'));
      var c := if |ds| == 3 then Number(ds[2]) % 0x100 else v.nearest(Number(ds[2]), Number(ds[3]), Number(ds[4]));
      && AtRest(r) && r.grid == v.grid && r.attr == v.attr
      && r.fg == (if Number(ds[0]) == 38 then c else v.fg) && r.bg == (if Number(ds[0]) == 48 then c else v.bg)
  {
    hide Fed, Csi, SetBit, ClearBit;
    var w := PenSequence(v, ds);
    var (u, k) := SgrStep(w, 0);
    assert Sgr(w, 0) == Sgr(u, k) == u;
  }

  /** A selection that stands for itself: one plain parameter, or a colour in full. */
  predicate Whole(ds: seq<seq<byte>>) {
    && Parameters(ds) && (|ds| == 1 || ds[|ds| - 1] != [])
    && (|ds| == 1 || |ds| == 3 || |ds| == 5)
    && var extended := Number(ds[0]) == 38 || Number(ds[0]) == 48;
      if |ds| == 1 then !extended else extended && Number(ds[1]) == if |ds| == 3 then 5 else 2
  }

  /** One sequence with several selections is several sequences. */
  lemma SelectionsCompose(v: Vt, ds: seq<seq<byte>>, es: seq<seq<byte>>)
    requires AtRest(v) && Whole(ds) && Parameters(es) && es[|es| - 1] != [] && |ds| + |es| <= 16
    ensures var r, s := Fed(v, Csi(ds + es, 'm')), Fed(Fed(v, Csi(ds, 'm')), Csi(es, 'm'));
      AtRest(r) && r.grid == v.grid == s.grid && r.fg == s.fg && r.bg == s.bg && r.attr == s.attr
  {
    hide Fed, Csi, Sgr;
    var both := PenSequence(v, ds + es);
    var first := PenSequence(v, ds);
    var second := PenSequence(Fed(v, Csi(ds, 'm')), es);
    FirstSelection(both, first, ds, es);
    var (u, k) := SgrStep(both, 0);
    forall i | |ds| <= i < both.num ensures u.params[i] == second.params[i - |ds|] {
      assert (ds + es)[i] == es[i - |ds|];
    }
    SgrLocal(u, |ds|, second, 0);
    SgrUnfold(both);
  }

  lemma SgrUnfold(w: Vt)
    requires |w.params| == 16 && 0 < w.num <= 16
    ensures Sgr(w, 0) == Sgr(SgrStep(w, 0).0, SgrStep(w, 0).1)
  {
    hide SgrStep;
  }

  lemma FirstSelection(both: Vt, first: Vt, ds: seq<seq<byte>>, es: seq<seq<byte>>)
    requires Whole(ds) && es != [] && Parameters(ds + es) && SamePen(both, first)
    requires |both.params| == 16 && both.num == |ds| + |es| <= 16 && forall i :: 0 <= i < both.num ==> both.params[i] == Number((ds + es)[i])
    requires |first.params| == 16 && first.num == |ds| && forall i :: 0 <= i < first.num ==> first.params[i] == Number(ds[i])
    ensures SgrStep(both, 0).1 == |ds| && SamePen(SgrStep(both, 0).0, Sgr(first, 0))
  {
    hide Number, SgrStep;
    assert forall i :: 0 <= i < |ds| ==> (ds + es)[i] == ds[i];
    assert forall i :: 0 <= i < |ds| ==> both.params[i] == first.params[i];
    if |ds| == 1 { PlainStep(both, first); } else { ExtendedStep(both, first, |ds|); }
    SgrUnfold(first);
    SgrDone(SgrStep(first, 0).0, |ds|);
  }

  lemma SgrDone(w: Vt, i: nat)
    requires |w.params| == 16 && w.num <= i && w.num <= 16
    ensures Sgr(w, i) == w
  {}

  lemma PlainStep(a: Vt, b: Vt)
    requires |a.params| == 16 && |b.params| == 16 && 0 < a.num <= 16 && 0 < b.num <= 16 && SamePen(a, b)
    requires a.params[0] == b.params[0] && a.params[0] != 38 && a.params[0] != 48
    ensures SgrStep(a, 0).1 == SgrStep(b, 0).1 == 1 && SamePen(SgrStep(a, 0).0, SgrStep(b, 0).0)
  {
    hide SetBit, ClearBit, Extended;
  }

  lemma ExtendedStep(a: Vt, b: Vt, n: nat)
    requires |a.params| == 16 && |b.params| == 16 && n <= a.num <= 16 && n <= b.num <= 16 && SamePen(a, b)
    requires (n == 3 || n == 5) && forall i :: 0 <= i < n ==> a.params[i] == b.params[i]
    requires (a.params[0] == 38 || a.params[0] == 48) && a.params[1] == if n == 3 then 5 else 2
    ensures SgrStep(a, 0).1 == SgrStep(b, 0).1 == n && SamePen(SgrStep(a, 0).0, SgrStep(b, 0).0)
  {
    hide SetBit, ClearBit;
  }
}
