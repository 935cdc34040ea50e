/** Which blocks the filling of Argon2 selects and writes, in the terms of sections
    3.2 to 3.4 of RFC 9106. */
module Argon2Indexing {
  import opened Words
  import opened Bits
  import opened Argon2

  // ------------------------------------------------------- the reference block

  /** How far the reference lies before the end of its window: the square of the low
      half of the seed, scaled to the window, both divisions rounding down. */
  lemma ReferenceSelected(s: Slice, segment: nat, block: nat, seed: u64)
    requires s.Valid() && segment < s.cfg.lanes && s.PassOffset() <= block < s.cfg.SegmentSize()
    ensures var j1, size := seed % B32, s.WindowSize(segment, s.Lane(segment, seed), block);
      var z := (s.Reference(segment, block, seed) - s.WindowStart()) % s.cfg.LaneSize();
      var back := size - 1 - z;
      0 <= back < size && back * B32 <= size * (j1 * j1 / B32) < (back + 1) * B32
  {
    hide Slice.WindowStart, Config.SegmentSize, Config.Total, Config.LaneSize;
    var j1, size := seed % B32, s.WindowSize(segment, s.Lane(segment, seed), block);
    SelectorInWindow(size, j1);
    var y := size * (j1 * j1 / B32) / B32;
    Quotient(size * (j1 * j1 / B32), B32, y);
    var z, start, n := size - 1 - y, s.WindowStart(), s.cfg.LaneSize();
    BackFromStart(start, z, n, (start + z) % n);
  }

  lemma Quotient(x: int, m: int, y: int)
    requires m > 0 && y == x / m
    ensures y * m <= x < (y + 1) * m
  {}

  lemma BackFromStart(start: int, z: int, n: int, r: int)
    requires 0 <= z < n && r == (start + z) % n
    ensures (r - start) % n == z
  {
    var q := (start + z) / n;
    assert start + z == n * q + r;
    DivModUnique(r - start, -q, z, n);
  }

  /** In later passes the window begins right after the current slice, in the first pass
      at the beginning. In the own lane it ends just before the previous block; in
      another lane at the current slice, or one block earlier for a first block. */
  lemma WindowSpans(s: Slice, segment: nat, lane: nat, block: nat)
    requires s.Valid() && segment < s.cfg.lanes && lane < s.cfg.lanes && s.PassOffset() <= block < s.cfg.SegmentSize()
    requires lane == segment || !(s.pass == 0 && s.slice == 0)
    ensures s.WindowStart() == if s.pass == 0 then 0 else (s.SliceOffset() + s.cfg.SegmentSize()) % s.cfg.LaneSize()
    ensures (s.WindowStart() + s.WindowSize(segment, lane, block)) % s.cfg.LaneSize()
      == if lane == segment then s.PreviousOffset(block)
         else if block > 0 then s.SliceOffset() else (s.SliceOffset() - 1) % s.cfg.LaneSize()
  {
    hide Config.SegmentSize, Config.Total, Slice.SliceOffset, Slice.WindowStart;
    SliceOffsets(s);
    WindowNumbers(s.cfg.SegmentSize(), s.slice, s.pass == 0, lane == segment, block);
  }

  lemma WindowNumbers(n: nat, slice: nat, first: bool, own: bool, block: nat)
    requires n >= 2 && slice < 4 && block < n && (first && slice == 0 ==> own && block >= 2)
    ensures var at := [0, 1, 2, 3][slice] * n;
      var start := if first then 0 else [1, 2, 3, 0][slice] * n;
      var size := (if first then slice else 3) * n + (if own then block - 1 else if block == 0 then -1 else 0);
      && start == (if first then 0 else (at + n) % (4 * n))
      && (start + size) % (4 * n)
        == (if own then if block == 0 && at == 0 then 4 * n - 1 else at + block - 1
            else if block > 0 then at else (at - 1) % (4 * n))
  {
    var at, m := [0, 1, 2, 3][slice] * n, 4 * n;
    var start := if first then 0 else [1, 2, 3, 0][slice] * n;
    if slice == 3 { DivModUnique(at + n, 1, 0, m); } else { DivModUnique(at + n, 0, at + n, m); }
    if at == 0 { DivModUnique(at - 1, -1, m - 1, m); } else { DivModUnique(at - 1, 0, at - 1, m); }
    var size := (if first then slice else 3) * n + (if own then block - 1 else if block == 0 then -1 else 0);
    var x := start + size;
    if x >= m { DivModUnique(x, 1, x - m, m); } else { DivModUnique(x, 0, x, m); }
  }

  /** The high half of the seed picks the lane, except where only the own lane is filled. */
  lemma LaneSelected(s: Slice, segment: nat, low: u32, high: u32)
    requires s.Valid() && segment < s.cfg.lanes
    ensures s.Lane(segment, low + B32 * high) == if s.pass == 0 && s.slice == 0 then segment else high % s.cfg.lanes
  {
    DivModUnique(low + B32 * high, high, low, B32);
  }

  /** The previous block is one step back in the lane, cyclically. */
  lemma PreviousIsBefore(s: Slice, block: nat)
    requires s.Valid() && block < s.cfg.SegmentSize()
    ensures (s.PreviousOffset(block) + 1) % s.cfg.LaneSize() == s.SliceOffset() + block
  {
    hide Config.SegmentSize, Config.Total, Slice.SliceOffset;
    var n := s.cfg.LaneSize();
    SliceOffsets(s);
    if block == 0 && s.SliceOffset() == 0 {
      DivModUnique(n, 1, 0, n);
    } else {
      DivModUnique(s.SliceOffset() + block, 0, s.SliceOffset() + block, n);
    }
  }

  // ---------------------------------------------------------- indexing mode

  /** Argon2i indexes independently of the data, Argon2d never, Argon2id in the first half of the first pass. */
  lemma IndexingMode(s: Slice)
    requires s.cfg.algorithm <= 2
    ensures s.cfg.algorithm == 0 ==> !s.ConstantTime()
    ensures s.cfg.algorithm == 1 ==> s.ConstantTime()
    ensures s.cfg.algorithm == 2 ==> (s.ConstantTime() <==> s.pass == 0 && s.slice < 2)
  {}

  /** The eight words of section 3.4.1.2, then zeros: pass, lane, slice, blocks, passes, type and counter. */
  lemma IndexInputWords(s: Slice, segment: u32, ctr: u32)
    requires s.Valid()
    ensures var z := s.IndexInput(segment, ctr);
      && z[0] == s.pass && z[1] == segment && z[2] == s.slice && z[3] == s.cfg.Total()
      && z[4] == s.cfg.passes && z[5] == s.cfg.algorithm && z[6] == ctr && forall i :: 7 <= i < 128 ==> z[i] == 0
  {}

  /** The seeds of block after block run through the index blocks 1, 2, 3 and so on, 128 words each. */
  lemma IndexSeedAt(s: Slice, segment: nat, number: nat, word: nat, m: seq<Block>)
    requires s.Valid() && segment < s.cfg.lanes && |m| == s.cfg.Total() && s.ConstantTime()
    requires word < 128 && 128 * number + word < s.cfg.SegmentSize()
    ensures s.IndexSeed(segment, 128 * number + word, m) == s.IndexBlock(segment, number + 1)[word]
  {
    hide Slice.IndexBlock, Config.SegmentSize, Config.Total;
    DivModUnique(128 * number + word, number, word, 128);
  }

  // ------------------------------------------------------------ writing

  /** g is G(x, y) of section 3.5: the rounds on x XOR y, XORed with x XOR y. */
  ghost predicate IsCompression(rounds: Block -> Block, x: Block, y: Block, g: Block) {
    XorBlock(g, XorBlock(x, y)) == rounds(XorBlock(x, y))
  }

  /** In the first pass the old block does not matter: the new one is G of the two blocks. */
  lemma FirstPassBlock(s: Slice, current: Block, previous: Block, reference: Block)
    requires s.pass == 0
    ensures IsCompression(s.rounds, previous, reference, s.NewBlock(current, previous, reference))
  {
    hide Xor64;
    var t := XorBlock(previous, reference);
    var r, n := s.rounds(t), s.NewBlock(current, previous, reference);
    forall i | 0 <= i < 128 ensures Xor64(n[i], t[i]) == r[i] { XorBack(r[i], t[i]); }
    assert XorBlock(n, t) == r;
  }

  lemma XorBack(r: u64, t: u64)
    ensures Xor64(Xor64(t, r), t) == r && Xor64(Xor64(r, t), t) == r
  {
    hide Xor;
    XorComm(t, r);
    XorTwice(r, t);
  }

  /** An index block is G of zeros and its input, and of zeros and that, once more. */
  lemma IndexBlockIsTwoCompressions(s: Slice, segment: u32, ctr: u32) returns (once: Block)
    requires s.Valid()
    ensures IsCompression(s.rounds, Zeros(128), s.IndexInput(segment, ctr), once)
    ensures IsCompression(s.rounds, Zeros(128), once, s.IndexBlock(segment, ctr))
  {
    var input := s.IndexInput(segment, ctr);
    once := Shuffle(s.rounds, input);
    hide Shuffle, Slice.IndexInput;
    ShuffleCompresses(s.rounds, input);
    ShuffleCompresses(s.rounds, once);
  }

  lemma ShuffleCompresses(rounds: Block -> Block, y: Block)
    ensures IsCompression(rounds, Zeros(128), y, Shuffle(rounds, y))
  {
    hide Xor64;
    var z: Block := Zeros(128);
    forall i | 0 <= i < 128 ensures Xor64(z[i], y[i]) == y[i] { FromZero(y[i]); }
    assert XorBlock(z, y) == y;
    var r, g := rounds(y), Shuffle(rounds, y);
    forall i | 0 <= i < 128 ensures Xor64(g[i], y[i]) == r[i] { XorBack(r[i], y[i]); }
    assert XorBlock(g, y) == r;
  }

  lemma FromZero(y: u64)
    ensures Xor64(0, y) == y
  {
    hide Xor;
    XorZero(y);
  }

  /** In later passes the new block is XORed into the old one. */
  lemma LaterPassBlock(s: Slice, current: Block, previous: Block, reference: Block)
    requires s.pass > 0
    ensures XorBlock(s.NewBlock(current, previous, reference), current)
      == s.(pass := 0).NewBlock(current, previous, reference)
  {
    hide Xor64;
    var t := XorBlock(previous, reference);
    var r, n := s.rounds(t), s.NewBlock(current, previous, reference);
    forall i | 0 <= i < 128 ensures Xor64(n[i], current[i]) == Xor64(t[i], r[i]) {
      XorWords(current[i], t[i], r[i]);
    }
  }

  lemma XorWords(c: u64, t: u64, r: u64)
    ensures Xor64(c, t) == Xor64(t, c)
    ensures Xor64(Xor64(Xor64(c, t), r), c) == Xor64(t, r)
  {
    hide Xor;
    XorComm(c, t);
    XorAssoc(c, t, r);
    XorComm(c, Xor(t, r));
    XorTwice(Xor(t, r), c);
  }

  /** Every block of the work area is the current one of exactly one slice, lane and position. */
  lemma EveryBlockOnce(s: Slice, lane: nat, block: nat, i: nat)
    requires s.Valid() && i < s.cfg.Total() && lane < s.cfg.lanes && block < s.cfg.SegmentSize()
    ensures i == s.Current(lane, block) <==>
      lane == i / s.cfg.LaneSize() && s.slice == i % s.cfg.LaneSize() / s.cfg.SegmentSize()
      && block == i % s.cfg.LaneSize() % s.cfg.SegmentSize()
  {
    hide Config.SegmentSize, Config.Total, Slice.SliceOffset;
    var n := s.cfg.SegmentSize();
    SliceOffsets(s);
    var c := s.At(lane, s.SliceOffset() + block);
    assert c == s.Current(lane, block) && s.SliceOffset() + block == n * s.slice + block;
    Placed(n, lane, s.slice, block, i, c);
  }

  lemma Placed(n: nat, lane: nat, slice: nat, block: nat, i: nat, c: nat)
    requires n > 0 && slice < 4 && block < n && c == lane * (4 * n) + (n * slice + block)
    ensures i == c <==> lane == i / (4 * n) && slice == i % (4 * n) / n && block == i % (4 * n) % n
  {
    var m := 4 * n;
    var o := i % m;
    assert i == m * (i / m) + o && o == n * (o / n) + o % n;
    MulComm(lane, m);
    assert n * slice + block < m;
    if i == c {
      DivModUnique(i, lane, n * slice + block, m);
      DivModUnique(n * slice + block, slice, block, n);
    }
  }
}
