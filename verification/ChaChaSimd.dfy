/** ChaCha20 on rows of vector lanes: two blocks in one 256-bit register, or one
    in a 128-bit register, with the diagonal round as a permuted column round. */
module ChaChaSimd {
  import opened Words
  import opened Bits
  import opened Simd
  import opened WordBytes
  import opened ChaCha20

  /** The four rows of one block or of several blocks side by side. */
  datatype Rows = Rows(v0: seq<u32>, v1: seq<u32>, v2: seq<u32>, v3: seq<u32>) {
    predicate Valid() { |v0| == |v1| == |v2| == |v3| && |v0| % 4 == 0 }

    /** Block number h: one group of four lanes in each row. */
    function Half(h: nat): (s: State)
      requires Valid() && 4 * h + 4 <= |v0|
    {
      v0[4 * h..4 * h + 4] + v1[4 * h..4 * h + 4] + v2[4 * h..4 * h + 4] + v3[4 * h..4 * h + 4]
    }

    function Lane(i: nat): Quad
      requires Valid() && i < |v0|
    {
      Quad(v0[i], v1[i], v2[i], v3[i])
    }
  }

  /** The vector form of the quarter round, on all columns at once. */
  function QuarterRows(r: Rows): (q: Rows)
    requires r.Valid()
    ensures q.Valid() && |q.v0| == |r.v0|
  {
    var v0 := Add32Lanes(r.v0, r.v1);
    var v3 := RotateAllLeft(Xor32Lanes(r.v3, v0), 16);
    var v2 := Add32Lanes(r.v2, v3);
    var v1 := RotateAllLeft(Xor32Lanes(r.v1, v2), 12);
    var v0' := Add32Lanes(v0, v1);
    var v3' := RotateAllLeft(Xor32Lanes(v3, v0'), 8);
    var v2' := Add32Lanes(v2, v3');
    var v1' := RotateAllLeft(Xor32Lanes(v1, v2'), 7);
    Rows(v0', v1', v2', v3')
  }

  function Diagonalise(r: Rows): (q: Rows)
    requires r.Valid()
    ensures q.Valid() && |q.v0| == |r.v0|
  {
    Rows(r.v0, PermuteScalarsGrouped(r.v1, 1, 2, 3, 0), PermuteScalarsGrouped(r.v2, 2, 3, 0, 1),
         PermuteScalarsGrouped(r.v3, 3, 0, 1, 2))
  }

  function Undiagonalise(r: Rows): (q: Rows)
    requires r.Valid()
    ensures q.Valid() && |q.v0| == |r.v0|
  {
    Rows(r.v0, PermuteScalarsGrouped(r.v1, 3, 0, 1, 2), PermuteScalarsGrouped(r.v2, 2, 3, 0, 1),
         PermuteScalarsGrouped(r.v3, 1, 2, 3, 0))
  }

  /** One double round. */
  function DoubleBlock(r: Rows): (q: Rows)
    requires r.Valid()
    ensures q.Valid() && |q.v0| == |r.v0|
  {
    Undiagonalise(QuarterRows(Diagonalise(QuarterRows(r))))
  }

  lemma QuarterRowsLane(r: Rows, i: nat)
    requires r.Valid() && i < |r.v0|
    ensures QuarterRows(r).Lane(i) == Quarter(r.Lane(i))
  {
    hide Add32, Xor32, Rotl32;
  }

  function Column(s: State, i: nat): Quad
    requires i < 4
  {
    Quad(s[i], s[4 + i], s[8 + i], s[12 + i])
  }

  function Diagonal(s: State, i: nat): Quad
    requires i < 4
  {
    Quad(s[i], s[4 + (i + 1) % 4], s[8 + (i + 2) % 4], s[12 + (i + 3) % 4])
  }

  lemma HalfAt(r: Rows, h: nat, i: nat)
    requires r.Valid() && 4 * h + 4 <= |r.v0| && i < 4
    ensures Column(r.Half(h), i) == r.Lane(4 * h + i)
  {}

  /** Four independent quarter rounds on the columns. */
  lemma ColumnRoundAt(s: State, i: nat)
    requires i < 4
    ensures Column(ColumnRound(s), i) == Quarter(Column(s, i))
  {
    hide Quarter;
  }

  lemma DiagonalRoundAt(s: State, i: nat)
    requires i < 4
    ensures Diagonal(DiagonalRound(s), i) == Quarter(Diagonal(s, i))
  {
    hide Quarter;
  }

  lemma SameByColumns(s: State, t: State)
    requires forall i :: 0 <= i < 4 ==> Column(s, i) == Column(t, i)
    ensures s == t
  {
    assert Column(s, 0) == Column(t, 0) && Column(s, 1) == Column(t, 1);
    assert Column(s, 2) == Column(t, 2) && Column(s, 3) == Column(t, 3);
    SameSixteen(s, t);
  }

  lemma SameByDiagonals(s: State, t: State)
    requires forall i :: 0 <= i < 4 ==> Diagonal(s, i) == Diagonal(t, i)
    ensures s == t
  {
    assert Diagonal(s, 0) == Diagonal(t, 0) && Diagonal(s, 1) == Diagonal(t, 1);
    assert Diagonal(s, 2) == Diagonal(t, 2) && Diagonal(s, 3) == Diagonal(t, 3);
    SameSixteen(s, t);
  }

  lemma SameSixteen(s: State, t: State)
    requires s[0] == t[0] && s[1] == t[1] && s[2] == t[2] && s[3] == t[3] && s[4] == t[4] && s[5] == t[5]
    requires s[6] == t[6] && s[7] == t[7] && s[8] == t[8] && s[9] == t[9] && s[10] == t[10] && s[11] == t[11]
    requires s[12] == t[12] && s[13] == t[13] && s[14] == t[14] && s[15] == t[15]
    ensures s == t
  {}

  lemma ColumnsMatch(r: Rows, h: nat)
    requires r.Valid() && 4 * h + 4 <= |r.v0|
    ensures QuarterRows(r).Half(h) == ColumnRound(r.Half(h))
  {
    hide QuarterRows, ColumnRound, Quarter, Column, Rows.Half, Rows.Lane;
    var s, t := QuarterRows(r).Half(h), ColumnRound(r.Half(h));
    forall i: nat | i < 4 ensures Column(s, i) == Column(t, i) {
      HalfAt(QuarterRows(r), h, i);
      HalfAt(r, h, i);
      QuarterRowsLane(r, 4 * h + i);
      ColumnRoundAt(r.Half(h), i);
    }
    SameByColumns(s, t);
  }

  lemma PermuteAt(v: seq<u32>, a: nat, b: nat, c: nat, d: nat, h: nat, i: nat)
    requires |v| % 4 == 0 && a < 4 && b < 4 && c < 4 && d < 4 && 4 * h + 4 <= |v| && i < 4
    ensures PermuteScalarsGrouped(v, a, b, c, d)[4 * h + i] == v[4 * h + [a, b, c, d][i]]
  {
    assert (4 * h + i) / 4 == h && (4 * h + i) % 4 == i;
  }

  lemma HalfWords(r: Rows, h: nat, j: nat)
    requires r.Valid() && 4 * h + 4 <= |r.v0| && j < 4
    ensures var s := r.Half(h);
      && s[j] == r.v0[4 * h + j] && s[4 + j] == r.v1[4 * h + j]
      && s[8 + j] == r.v2[4 * h + j] && s[12 + j] == r.v3[4 * h + j]
  {}

  lemma Cycle(i: nat)
    requires i < 4
    ensures (i + 1) % 4 == [1, 2, 3, 0][i] && (i + 2) % 4 == [2, 3, 0, 1][i] && (i + 3) % 4 == [3, 0, 1, 2][i]
    ensures [3, 0, 1, 2][(i + 1) % 4] == [2, 3, 0, 1][(i + 2) % 4] == [1, 2, 3, 0][(i + 3) % 4] == i
  {}

  /** Where the diagonal form puts the words of a block. */
  lemma DiagonalAt(r: Rows, h: nat, i: nat)
    requires r.Valid() && 4 * h + 4 <= |r.v0| && i < 4
    ensures Diagonalise(r).Lane(4 * h + i) == Diagonal(r.Half(h), i)
  {
    hide PermuteScalarsGrouped, Rows.Half;
    var j, k, l := (i + 1) % 4, (i + 2) % 4, (i + 3) % 4;
    Cycle(i);
    HalfWords(r, h, i);
    HalfWords(r, h, j);
    HalfWords(r, h, k);
    HalfWords(r, h, l);
    PermuteAt(r.v1, 1, 2, 3, 0, h, i);
    PermuteAt(r.v2, 2, 3, 0, 1, h, i);
    PermuteAt(r.v3, 3, 0, 1, 2, h, i);
    assert Diagonalise(r).v1[4 * h + i] == r.v1[4 * h + j] == r.Half(h)[4 + j];
    assert Diagonalise(r).v2[4 * h + i] == r.v2[4 * h + k] == r.Half(h)[8 + k];
    assert Diagonalise(r).v3[4 * h + i] == r.v3[4 * h + l] == r.Half(h)[12 + l];
  }

  lemma UndiagonalAt(r: Rows, h: nat, i: nat)
    requires r.Valid() && 4 * h + 4 <= |r.v0| && i < 4
    ensures Diagonal(Undiagonalise(r).Half(h), i) == r.Lane(4 * h + i)
  {
    hide PermuteScalarsGrouped, Rows.Half;
    var j, k, l := (i + 1) % 4, (i + 2) % 4, (i + 3) % 4;
    var q := Undiagonalise(r);
    Cycle(i);
    HalfWords(q, h, i);
    HalfWords(q, h, j);
    HalfWords(q, h, k);
    HalfWords(q, h, l);
    PermuteAt(r.v1, 3, 0, 1, 2, h, j);
    PermuteAt(r.v2, 2, 3, 0, 1, h, k);
    PermuteAt(r.v3, 1, 2, 3, 0, h, l);
    assert q.Half(h)[4 + j] == q.v1[4 * h + j] == r.v1[4 * h + i];
    assert q.Half(h)[8 + k] == q.v2[4 * h + k] == r.v2[4 * h + i];
    assert q.Half(h)[12 + l] == q.v3[4 * h + l] == r.v3[4 * h + i];
  }

  lemma DiagonalsMatch(r: Rows, h: nat)
    requires r.Valid() && 4 * h + 4 <= |r.v0|
    ensures Undiagonalise(QuarterRows(Diagonalise(r))).Half(h) == DiagonalRound(r.Half(h))
  {
    hide QuarterRows, DiagonalRound, Quarter, Diagonalise, Undiagonalise, Diagonal, Rows.Half, Rows.Lane;
    var d := QuarterRows(Diagonalise(r));
    var s, t := Undiagonalise(d).Half(h), DiagonalRound(r.Half(h));
    forall i: nat | i < 4 ensures Diagonal(s, i) == Diagonal(t, i) {
      UndiagonalAt(d, h, i);
      QuarterRowsLane(Diagonalise(r), 4 * h + i);
      DiagonalAt(r, h, i);
      DiagonalRoundAt(r.Half(h), i);
    }
    SameByDiagonals(s, t);
  }

  /** Each group of lanes goes through exactly one double round of its own block. */
  lemma DoubleBlockIsTwoRounds(r: Rows, h: nat)
    requires r.Valid() && 4 * h + 4 <= |r.v0|
    ensures DoubleBlock(r).Half(h) == DiagonalRound(ColumnRound(r.Half(h)))
  {
    hide QuarterRows, Diagonalise, Undiagonalise, ColumnRound, DiagonalRound, Rows.Half;
    ColumnsMatch(r, h);
    DiagonalsMatch(QuarterRows(r), h);
  }

  /** n double rounds on a register. */
  function DoubleBlocks(r: Rows, n: nat): (q: Rows)
    requires r.Valid()
    ensures q.Valid() && |q.v0| == |r.v0|
    decreases n
  {
    if n == 0 then r else DoubleBlock(DoubleBlocks(r, n - 1))
  }

  lemma {:induction false} DoubleBlocksAreRounds(r: Rows, n: nat, h: nat)
    requires r.Valid() && 4 * h + 4 <= |r.v0|
    ensures DoubleBlocks(r, n).Half(h) == Rounds(r.Half(h), n)
    decreases n
  {
    hide DoubleBlock, ColumnRound, DiagonalRound, Rows.Half;
    if n > 0 {
      DoubleBlocksAreRounds(r, n - 1, h);
      DoubleBlockIsTwoRounds(DoubleBlocks(r, n - 1), h);
    }
  }

  function AddRows(r: Rows, q: Rows): (z: Rows)
    requires r.Valid() && q.Valid() && |q.v0| == |r.v0|
    ensures z.Valid() && |z.v0| == |r.v0|
  {
    Rows(Add32Lanes(r.v0, q.v0), Add32Lanes(r.v1, q.v1), Add32Lanes(r.v2, q.v2), Add32Lanes(r.v3, q.v3))
  }

  lemma AddRowsHalf(r: Rows, q: Rows, h: nat)
    requires r.Valid() && q.Valid() && |q.v0| == |r.v0| && 4 * h + 4 <= |r.v0|
    ensures AddRows(r, q).Half(h) == AddStates(r.Half(h), q.Half(h))
  {
    hide Add32;
  }

  /** The counter row of two consecutive blocks. */
  function CounterRow(counter: u32, nonce: Nonce): (v: seq<u32>)
    ensures |v| == 8
  {
    [counter] + Load32(nonce) + [Add32(counter, 1)] + Load32(nonce)
  }

  /** The register before the rounds: two blocks with consecutive counters. */
  function StartRows(key: Key, counter: u32, nonce: Nonce): (r: Rows)
    ensures r.Valid() && |r.v0| == 8
  {
    var k := Load32(key);
    Rows(CONSTANTS + CONSTANTS, k[..4] + k[..4], k[4..] + k[4..], CounterRow(counter, nonce))
  }

  lemma StartRowsHalf(key: Key, counter: u32, nonce: Nonce)
    ensures StartRows(key, counter, nonce).Half(0) == Initial(key, counter, nonce)
    ensures StartRows(key, counter, nonce).Half(1) == Initial(key, Add32(counter, 1), nonce)
  {
    hide Load32, Add32;
    var k, n, c := Load32(key), Load32(nonce), CounterRow(counter, nonce);
    assert k == k[..4] + k[4..];
    assert (CONSTANTS + CONSTANTS)[..4] == CONSTANTS && (CONSTANTS + CONSTANTS)[4..8] == CONSTANTS;
    assert (k[..4] + k[..4])[..4] == k[..4] && (k[..4] + k[..4])[4..8] == k[..4];
    assert (k[4..] + k[4..])[..4] == k[4..] && (k[4..] + k[4..])[4..8] == k[4..];
    assert c[..4] == [counter] + n && c[4..8] == [Add32(counter, 1)] + n;
  }

  /** Both halves of the finished register are the blocks of two consecutive counters. */
  lemma PairIsTwoBlocks(key: Key, counter: u32, nonce: Nonce)
    ensures var s := StartRows(key, counter, nonce); var z := AddRows(DoubleBlocks(s, 10), s);
      && Serialize(z.Half(0)) == Block(key, counter, nonce)
      && Serialize(z.Half(1)) == Block(key, Add32(counter, 1), nonce)
  {
    hide DoubleBlocks, Rounds, Rows.Half, StartRows, AddRows, Initial, AddStates, Serialize;
    var s := StartRows(key, counter, nonce);
    StartRowsHalf(key, counter, nonce);
    DoubleBlocksAreRounds(s, 10, 0);
    DoubleBlocksAreRounds(s, 10, 1);
    AddRowsHalf(DoubleBlocks(s, 10), s, 0);
    AddRowsHalf(DoubleBlocks(s, 10), s, 1);
  }

  /** Adding n to lanes 0 and 4 moves both counters, wrapping. */
  lemma CounterRowAdvances(counter: u32, nonce: Nonce, n: u32)
    ensures Add32Lanes(CounterRow(counter, nonce), [n, 0, 0, 0, n, 0, 0, 0])
      == CounterRow(Add32(counter, n), nonce)
  {
    hide Load32;
    var w := Load32(nonce);
    ModSum(counter + 1, n);
    ModSum(counter + n, 1);
  }

  /** HChaCha20 on one 128-bit register per row; only the outer rows are written. */
  method HChaCha20(key: Key, nonce: seq<byte>, out: array<byte>)
    requires |nonce| == 16 && out.Length >= 32
    modifies out
    ensures out[..32] == HChaCha(key, nonce) && out[32..] == old(out[32..])
  {
    hide DoubleBlock, Rounds, Digits;
    var k, n := Load32(key), Load32(nonce);
    var start := Rows(CONSTANTS, k[..4], k[4..], n);
    var v := start;
    var i := 0;
    while i < 10
      invariant 0 <= i <= 10 && v == DoubleBlocks(start, i) && out[..] == old(out[..])
    {
      v := DoubleBlock(v);
      i := i + 1;
    }
    DoubleBlocksAreRounds(start, 10, 0);
    assert start.Half(0) == CONSTANTS + k + n;
    assert v.Half(0)[..4] + v.Half(0)[12..] == v.v0 + v.v3;
    StoreAppend(v.v0, v.v3, 4);
    WriteRow(out, 0, v.v0);
    WriteRow(out, 16, v.v3);
  }

  /** Four PutUint32. */
  method WriteRow(out: array<byte>, at: nat, row: seq<u32>)
    requires at + 16 <= out.Length && |row| == 4
    modifies out
    ensures out[..at + 16] == old(out[..at]) + Store(row, 4) && out[at + 16..] == old(out[at + 16..])
  {
    hide Digits, Store;
    ghost var before := out[..at];
    StoreFour(row);
    Store32(out, at, row[0]);
    Store32(out, at + 4, row[1]);
    Store32(out, at + 8, row[2]);
    Store32(out, at + 12, row[3]);
    assert before + Store(row, 4) == before + ToLE(row[0], 4) + ToLE(row[1], 4) + ToLE(row[2], 4) + ToLE(row[3], 4);
  }
}
