/** The memory-filling loop of Argon2: which blocks a step reads, and why the
    segments of a slice may run in parallel. The compression rounds are any
    function on blocks. */
module Argon2 {
  import opened Words
  import opened Bits

  type Block = b: seq<u64> | |b| == 128 witness seq(128, i => 0)

  const ARGON2_D := 0
  const ARGON2_I := 1
  const ARGON2_ID := 2

  datatype Config = Config(algorithm: u32, nbBlocks: u32, passes: u32, lanes: u32) {
    /** The documented minimum of 8 blocks for each lane. */
    predicate Valid() { lanes > 0 && nbBlocks >= 8 * lanes }

    function SegmentSize(): (n: nat)
      requires Valid()
      ensures n >= 2 && 4 * n * lanes <= nbBlocks && 4 * n <= nbBlocks
    {
      SegmentFits(nbBlocks, lanes);
      nbBlocks / lanes / 4
    }

    function LaneSize(): (n: nat)
      requires Valid()
      ensures n >= 8 && n * lanes <= nbBlocks
    {
      4 * SegmentSize()
    }

    /** nb_blocks after rounding down. */
    function Total(): (n: nat)
      requires Valid()
      ensures n < B32
    {
      LaneSize() * lanes
    }
  }

  lemma SegmentFits(n: nat, lanes: nat)
    requires lanes > 0 && n >= 8 * lanes
    ensures n / lanes / 4 >= 2 && 4 * (n / lanes / 4) * lanes <= n && 4 * (n / lanes / 4) <= n
  {
    var q := n / lanes;
    assert n == lanes * q + n % lanes;
    MulMono(q, 7, lanes);
    MulMono(4 * (q / 4), q, lanes);
    MulMono(1, lanes, 4 * (q / 4));
  }

  // ------------------------------------------------------------------ blocks

  function XorBlock(a: Block, b: Block): Block {
    seq(128, i requires 0 <= i < 128 => Xor64(a[i], b[i]))
  }

  /** The rounds with feed-forward. */
  function Shuffle(rounds: Block -> Block, b: Block): Block { XorBlock(rounds(b), b) }

  /** One slice of one pass. */
  datatype Slice = Slice(cfg: Config, rounds: Block -> Block, pass: u32, slice: nat) {
    predicate Valid() { cfg.Valid() && slice < 4 }

    /** On the first slice of the first pass two blocks of each lane are already filled. */
    function PassOffset(): nat { if pass == 0 && slice == 0 then 2 else 0 }

    function SliceOffset(): (n: nat)
      requires Valid()
      ensures n + cfg.SegmentSize() <= cfg.LaneSize()
    {
      MulMono(slice, 3, cfg.SegmentSize());
      slice * cfg.SegmentSize()
    }

    /** Index of a block from its lane and offset in the lane. */
    function At(lane: nat, offset: nat): (i: nat)
      requires Valid() && lane < cfg.lanes && offset < cfg.LaneSize()
      ensures i < cfg.Total() && i == lane * cfg.LaneSize() + offset
      ensures i / cfg.LaneSize() == lane && i % cfg.LaneSize() == offset
    {
      PlaceInLane(lane, offset, cfg.LaneSize(), cfg.lanes);
      lane * cfg.LaneSize() + offset
    }

    function Current(lane: nat, block: nat): nat
      requires Valid() && lane < cfg.lanes && block < cfg.SegmentSize()
    {
      At(lane, SliceOffset() + block)
    }

    /** The block before, cyclically within the lane. */
    function PreviousOffset(block: nat): (o: nat)
      requires Valid() && block < cfg.SegmentSize()
      ensures o < cfg.LaneSize()
    {
      if block == 0 && SliceOffset() == 0 then cfg.LaneSize() - 1 else
        assert SliceOffset() + block > 0;
        SliceOffset() + block - 1
    }

    function Previous(lane: nat, block: nat): nat
      requires Valid() && lane < cfg.lanes && block < cfg.SegmentSize()
    {
      At(lane, PreviousOffset(block))
    }

    /** Argon2d never, Argon2i always, Argon2id in the first half of the first pass. */
    predicate ConstantTime() {
      cfg.algorithm != ARGON2_D && !(cfg.algorithm == ARGON2_ID && (pass > 0 || slice >= 2))
    }

    /** What index block number ctr of a segment is computed from. */
    function IndexInput(segment: u32, ctr: u32): Block
      requires Valid()
    {
      [pass, segment, slice, cfg.Total(), cfg.passes, cfg.algorithm, ctr] + Zeros(121)
    }

    /** The deterministic index block number ctr of a segment. */
    function IndexBlock(segment: u32, ctr: u32): Block
      requires Valid()
    {
      Shuffle(rounds, Shuffle(rounds, IndexInput(segment, ctr)))
    }

    function IndexSeed(segment: nat, block: nat, m: seq<Block>): u64
      requires Valid() && segment < cfg.lanes && block < cfg.SegmentSize() && |m| == cfg.Total()
    {
      if ConstantTime() then IndexBlock(segment, block / 128 + 1)[block % 128] else m[Previous(segment, block)][0]
    }

    // -------------------------------------------------- the reference block

    function Lane(segment: nat, seed: u64): (lane: nat)
      requires Valid() && segment < cfg.lanes
      ensures lane < cfg.lanes
    {
      if pass == 0 && slice == 0 then segment else seed / B32 % cfg.lanes
    }

    function WindowStart(): (n: nat)
      requires Valid()
    {
      if pass == 0 then 0 else (slice + 1) % 4 * cfg.SegmentSize()
    }

    /** Computed with 32-bit wrap-around: block - 1 may be -1. */
    function WindowSize(segment: nat, lane: nat, block: nat): (n: u32)
      requires Valid() && segment < cfg.lanes && lane < cfg.lanes && PassOffset() <= block < cfg.SegmentSize()
      requires lane == segment || !(pass == 0 && slice == 0)
      ensures n == (if pass == 0 then slice else 3) * cfg.SegmentSize()
        + (if lane == segment then block - 1 else if block == 0 then -1 else 0)
      ensures 1 <= n < cfg.LaneSize()
    {
      var nbSegments: u32 := if pass == 0 then slice else 3;
      var more: u32 := if lane == segment then (block - 1) % B32 else if block == 0 then B32 - 1 else 0;
      var size: u32 := cfg.SegmentSize();
      var d: int := if lane == segment then block - 1 else if block == 0 then -1 else 0;
      WrapBelow(d);
      WindowFits(nbSegments, size, d);
      Add32(Mul32(nbSegments, size), more)
    }

    /** Offset of the reference block in its lane. */
    function Reference(segment: nat, block: nat, seed: u64): (ref: nat)
      requires Valid() && segment < cfg.lanes && PassOffset() <= block < cfg.SegmentSize()
      ensures ref < cfg.LaneSize()
    {
      var size := WindowSize(segment, Lane(segment, seed), block);
      var j1 := seed % B32;
      var x := j1 * j1 / B32;
      var y := size * x / B32;
      var z := size - 1 - y;
      (WindowStart() + z) % cfg.LaneSize()
    }

    /** Inside the slice being filled, in any lane. */
    predicate InSlice(i: nat)
      requires Valid()
    {
      SliceOffset() <= i % cfg.LaneSize() < SliceOffset() + cfg.SegmentSize()
    }

    /** Already filled when segment `segment` of this slice reaches `block`, however
        far the other lanes have got. */
    predicate Initialised(lane: nat, offset: nat, segment: nat, block: nat)
      requires Valid()
    {
      pass > 0 || offset < SliceOffset() + (if lane == segment then block else PassOffset())
    }

    // ------------------------------------------------------------- one step

    function NewBlock(current: Block, previous: Block, reference: Block): Block {
      var tmp := XorBlock(previous, reference);
      XorBlock(if pass == 0 then tmp else XorBlock(current, tmp), rounds(tmp))
    }

    function ReferenceIndex(segment: nat, block: nat, m: seq<Block>): (i: nat)
      requires Valid() && segment < cfg.lanes && PassOffset() <= block < cfg.SegmentSize() && |m| == cfg.Total()
      ensures i < cfg.Total()
    {
      var seed := IndexSeed(segment, block, m);
      At(Lane(segment, seed), Reference(segment, block, seed))
    }

    function Step(segment: nat, block: nat, m: seq<Block>): (r: seq<Block>)
      requires Valid() && segment < cfg.lanes && PassOffset() <= block < cfg.SegmentSize() && |m| == cfg.Total()
      ensures |r| == |m|
    {
      var i := Current(segment, block);
      m[i := NewBlock(m[i], m[Previous(segment, block)], m[ReferenceIndex(segment, block, m)])]
    }
  }

  lemma PlaceInLane(lane: nat, offset: nat, size: nat, lanes: nat)
    requires lane < lanes && offset < size
    ensures 0 <= lane * size + offset < size * lanes
    ensures (lane * size + offset) / size == lane && (lane * size + offset) % size == offset
  {
    MulMono(lane, lanes - 1, size);
    MulMono(0, lane, size);
    DivModUnique(lane * size + offset, lane, offset, size);
  }

  lemma WrapBelow(d: int)
    requires -1 <= d < B32
    ensures d % B32 == if d < 0 then B32 - 1 else d
  {}

  lemma WindowFits(nb: u32, size: nat, more: int)
    requires nb <= 3 && 2 <= size && 4 * size < B32 && -1 <= more < size - 1 && (nb == 0 ==> more >= 1)
    ensures Add32(Mul32(nb, size), more % B32) == nb * size + more && 1 <= nb * size + more < 4 * size
  {
    assert 0 <= nb * size <= 3 * size;
    assert nb > 0 ==> nb * size >= size;
    DivModUnique(nb * size, 0, nb * size, B32);
    var e := if more < 0 then 1 else 0;
    DivModUnique(nb * size + more % B32, e, nb * size + more, B32);
  }

  /** The selector maps any 64-bit seed into the window. */
  lemma SelectorInWindow(size: u32, j1: u32)
    requires size >= 1
    ensures j1 * j1 / B32 < B32 && 0 <= size - 1 - size * (j1 * j1 / B32) / B32 < size
  {
    MulMono(j1, B32 - 1, j1);
    var x := j1 * j1 / B32;
    MulMono(x, B32 - 1, size);
    MulMono(0, x, size);
    MulMono(0, j1, j1);
  }

  /** Where a step reads: filled blocks only, never the current one, in other lanes
      nothing of the current slice, and never the block just before. */
  lemma ReadsAreSafe(s: Slice, segment: nat, block: nat, seed: u64)
    requires s.Valid() && segment < s.cfg.lanes && s.PassOffset() <= block < s.cfg.SegmentSize()
    ensures var ref, lane := s.Reference(segment, block, seed), s.Lane(segment, seed);
      && s.Initialised(lane, ref, segment, block)
      && (lane == segment ==> !(s.SliceOffset() + block <= ref < s.SliceOffset() + s.cfg.SegmentSize()))
      && (lane != segment ==> !(s.SliceOffset() <= ref < s.SliceOffset() + s.cfg.SegmentSize()))
      && (lane == segment || block == 0 ==> ref != s.PreviousOffset(block))
    ensures s.Initialised(segment, s.PreviousOffset(block), segment, block)
    ensures !(s.SliceOffset() + block <= s.PreviousOffset(block) < s.SliceOffset() + s.cfg.SegmentSize())
  {
    hide Slice.SliceOffset, Slice.WindowStart, Slice.Lane, Config.SegmentSize, Config.Total;
    var n, lane := s.cfg.SegmentSize(), s.Lane(segment, seed);
    SameLaneAtFirst(s, segment, seed);
    var size := s.WindowSize(segment, lane, block);
    SelectorInWindow(size, seed % B32);
    var z := size - 1 - size * (seed % B32 * (seed % B32) / B32) / B32;
    SliceOffsets(s);
    WindowPlace(n, s.slice, s.pass == 0, lane == segment, block, z);
  }

  lemma SameLaneAtFirst(s: Slice, segment: nat, seed: u64)
    requires s.Valid() && segment < s.cfg.lanes
    ensures s.pass == 0 && s.slice == 0 ==> s.Lane(segment, seed) == segment
  {}

  /** The same in numbers: z counts through the window, at least one slice after the current one. */
  lemma WindowPlace(n: nat, slice: nat, first: bool, own: bool, block: nat, z: nat)
    requires n >= 2 && slice < 4 && block < n && (first && slice == 0 ==> own && block >= 2)
    requires z < (if first then slice else 3) * n + (if own then block - 1 else if block == 0 then -1 else 0)
    ensures var at := [0, 1, 2, 3][slice] * n;
      var ref := ((if first then 0 else [1, 2, 3, 0][slice] * n) + z) % (4 * n);
      && (first ==> ref < at + if own then block else 0)
      && (own ==> !(at + block <= ref < at + n))
      && (!own ==> !(at <= ref < at + n))
      && (own || block == 0 ==> ref != if block == 0 && at == 0 then 4 * n - 1 else at + block - 1)
  {
    var x := (if first then 0 else [1, 2, 3, 0][slice] * n) + z;
    if x >= 4 * n { DivModUnique(x, 1, x - 4 * n, 4 * n); } else { DivModUnique(x, 0, x, 4 * n); }
  }

  lemma SliceOffsets(s: Slice)
    requires s.Valid()
    ensures s.SliceOffset() == [0, 1, 2, 3][s.slice] * s.cfg.SegmentSize()
    ensures s.WindowStart() == if s.pass == 0 then 0 else [1, 2, 3, 0][s.slice] * s.cfg.SegmentSize()
  {}

  // -------------------------------------------------------- independence

  /** Equal wherever segment `segment` may look. */
  ghost predicate AgreeFor(s: Slice, segment: nat, m: seq<Block>, n: seq<Block>) {
    && s.Valid() && |m| == |n| == s.cfg.Total()
    && forall i :: 0 <= i < |m| && !(s.InSlice(i) && i / s.cfg.LaneSize() != segment) ==> m[i] == n[i]
  }

  /** A step depends only on what its own segment may look at. */
  lemma StepAgrees(s: Slice, segment: nat, block: nat, m: seq<Block>, n: seq<Block>)
    requires segment < s.cfg.lanes && AgreeFor(s, segment, m, n) && s.PassOffset() <= block < s.cfg.SegmentSize()
    ensures AgreeFor(s, segment, s.Step(segment, block, m), s.Step(segment, block, n))
    ensures s.Step(segment, block, m)[s.Current(segment, block)] == s.Step(segment, block, n)[s.Current(segment, block)]
  {
    var p, c := s.Previous(segment, block), s.Current(segment, block);
    assert m[p] == n[p] && m[c] == n[c];
    assert s.IndexSeed(segment, block, m) == s.IndexSeed(segment, block, n);
    var seed := s.IndexSeed(segment, block, m);
    ReadsAreSafe(s, segment, block, seed);
    var r := s.ReferenceIndex(segment, block, m);
    assert r == s.ReferenceIndex(segment, block, n) && m[r] == n[r];
  }

  /** Only this segment's first n steps. */
  ghost function LaneRun(s: Slice, segment: nat, n: nat, m: seq<Block>): (r: seq<Block>)
    requires s.Valid() && segment < s.cfg.lanes && s.PassOffset() + n <= s.cfg.SegmentSize() && |m| == s.cfg.Total()
    ensures |r| == |m|
    decreases n
  {
    if n == 0 then m else s.Step(segment, s.PassOffset() + n - 1, LaneRun(s, segment, n - 1, m))
  }

  lemma {:induction false} LaneRunFrame(s: Slice, segment: nat, n: nat, m: seq<Block>, i: nat)
    requires s.Valid() && segment < s.cfg.lanes && s.PassOffset() + n <= s.cfg.SegmentSize() && |m| == s.cfg.Total()
    requires i < |m| && !(s.InSlice(i) && i / s.cfg.LaneSize() == segment)
    ensures LaneRun(s, segment, n, m)[i] == m[i]
    decreases n
  {
    hide Slice.Step, Slice.PassOffset, Config.SegmentSize, Config.LaneSize, Config.Total, Slice.Valid, Slice.InSlice;
    if n > 0 {
      LaneRunFrame(s, segment, n - 1, m, i);
      StepElsewhere(s, segment, s.PassOffset() + n - 1, LaneRun(s, segment, n - 1, m), i);
    }
  }

  // ------------------------------------------------------------- schedules

  /** Steps each segment of the slice has to take. */
  function StepsPerSegment(s: Slice): nat
    requires s.Valid()
  {
    s.cfg.SegmentSize() - s.PassOffset()
  }

  ghost function Counts(schedule: seq<nat>): multiset<nat> { multiset(schedule) }

  /** A schedule names the segment that takes the next step. */
  ghost predicate Feasible(s: Slice, schedule: seq<nat>) {
    && s.Valid()
    && (forall i :: 0 <= i < |schedule| ==> schedule[i] < s.cfg.lanes)
    && (forall l: nat :: l < s.cfg.lanes ==> Counts(schedule)[l] <= StepsPerSegment(s))
  }

  ghost predicate Complete(s: Slice, schedule: seq<nat>) {
    && Feasible(s, schedule)
    && forall l: nat :: l < s.cfg.lanes ==> Counts(schedule)[l] == StepsPerSegment(s)
  }

  ghost function Run(s: Slice, schedule: seq<nat>, m: seq<Block>): (r: seq<Block>)
    requires Feasible(s, schedule) && |m| == s.cfg.Total()
    ensures |r| == |m|
    decreases |schedule|
  {
    if schedule == [] then m else
      var rest, l := schedule[..|schedule| - 1], schedule[|schedule| - 1];
      FeasiblePrefix(s, schedule);
      s.Step(l, s.PassOffset() + Counts(rest)[l], Run(s, rest, m))
  }

  lemma FeasiblePrefix(s: Slice, schedule: seq<nat>)
    requires Feasible(s, schedule) && schedule != []
    ensures var rest, l := schedule[..|schedule| - 1], schedule[|schedule| - 1];
      && Feasible(s, rest) && Counts(schedule) == Counts(rest) + multiset{l}
      && Counts(rest)[l] < StepsPerSegment(s)
  {
    var rest, l := schedule[..|schedule| - 1], schedule[|schedule| - 1];
    assert schedule == rest + [l];
    assert Counts(schedule)[l] == Counts(rest)[l] + 1;
    forall k: nat | k < s.cfg.lanes ensures Counts(rest)[k] <= Counts(schedule)[k] {}
  }

  /** After any schedule each lane holds what it would hold had it run alone. */
  ghost predicate LanesApart(s: Slice, counts: multiset<nat>, m: seq<Block>, r: seq<Block>)
    requires s.Valid() && |m| == |r| == s.cfg.Total()
    requires forall l: nat :: l < s.cfg.lanes ==> counts[l] <= StepsPerSegment(s)
  {
    forall i :: 0 <= i < |m| ==> r[i] == Alone(s, counts, m, i)
  }

  ghost function Alone(s: Slice, counts: multiset<nat>, m: seq<Block>, i: nat): Block
    requires s.Valid() && |m| == s.cfg.Total() && i < |m|
    requires forall l: nat :: l < s.cfg.lanes ==> counts[l] <= StepsPerSegment(s)
  {
    LaneOf(s, i);
    var l: nat := i / s.cfg.LaneSize();
    assert counts[l] <= StepsPerSegment(s);
    if s.InSlice(i) then LaneRun(s, l, counts[l], m)[i] else m[i]
  }

  lemma LaneOf(s: Slice, i: nat)
    requires s.Valid() && i < s.cfg.Total()
    ensures 0 <= i / s.cfg.LaneSize() < s.cfg.lanes
  {
    var n, q := s.cfg.LaneSize(), i / s.cfg.LaneSize();
    assert i == n * q + i % n;
    MulMono(s.cfg.lanes, q, n);
    MulMono(q, -1, n);
  }

  lemma {:induction false} SegmentsAreIndependent(s: Slice, schedule: seq<nat>, m: seq<Block>)
    requires Feasible(s, schedule) && |m| == s.cfg.Total()
    ensures LanesApart(s, Counts(schedule), m, Run(s, schedule, m))
    decreases |schedule|
  {
    hide Slice.Step, LanesApart;
    if schedule == [] {
      NothingRun(s, m);
    } else {
      var rest, l := schedule[..|schedule| - 1], schedule[|schedule| - 1];
      FeasiblePrefix(s, schedule);
      SegmentsAreIndependent(s, rest, m);
      OneStepApart(s, Counts(rest), l, m, Run(s, rest, m));
    }
  }

  lemma NothingRun(s: Slice, m: seq<Block>)
    requires s.Valid() && |m| == s.cfg.Total()
    ensures LanesApart(s, Counts([]), m, m)
  {
    assert Counts([]) == multiset{};
  }

  lemma OneStepApart(s: Slice, counts: multiset<nat>, l: nat, m: seq<Block>, r: seq<Block>)
    requires s.Valid() && |m| == |r| == s.cfg.Total() && l < s.cfg.lanes
    requires forall k: nat :: k < s.cfg.lanes ==> counts[k] <= StepsPerSegment(s)
    requires counts[l] < StepsPerSegment(s) && LanesApart(s, counts, m, r)
    ensures forall k: nat :: k < s.cfg.lanes ==> (counts + multiset{l})[k] <= StepsPerSegment(s)
    ensures LanesApart(s, counts + multiset{l}, m, s.Step(l, s.PassOffset() + counts[l], r))
  {
    hide Slice.Step, LaneRun, Alone, Slice.InSlice, Slice.ReferenceIndex, Slice.PassOffset, Config.LaneSize;
    var more, block := counts + multiset{l}, s.PassOffset() + counts[l];
    assert forall k: nat :: k < s.cfg.lanes ==> more[k] == counts[k] + if k == l then 1 else 0;
    forall i | 0 <= i < |m| ensures s.Step(l, block, r)[i] == Alone(s, more, m, i) {
      OneStepAt(s, counts, more, l, m, r, i);
    }
  }

  lemma OneStepAt(s: Slice, counts: multiset<nat>, more: multiset<nat>, l: nat, m: seq<Block>, r: seq<Block>, i: nat)
    requires s.Valid() && |m| == |r| == s.cfg.Total() && l < s.cfg.lanes && i < |m|
    requires forall k: nat :: k < s.cfg.lanes ==> counts[k] <= StepsPerSegment(s)
    requires forall k: nat :: k < s.cfg.lanes ==> more[k] == counts[k] + if k == l then 1 else 0
    requires counts[l] < StepsPerSegment(s) && LanesApart(s, counts, m, r)
    ensures s.Step(l, s.PassOffset() + counts[l], r)[i] == Alone(s, more, m, i)
  {
    hide Slice.Step, LaneRun, Slice.InSlice, Slice.ReferenceIndex, Slice.PassOffset;
    var block, alone := s.PassOffset() + counts[l], LaneRun(s, l, counts[l], m);
    LaneOf(s, i);
    var k: nat := i / s.cfg.LaneSize();
    assert counts[k] <= StepsPerSegment(s);
    if s.InSlice(i) && k == l {
      AgreesWithAlone(s, counts, l, m, r);
      StepAgrees(s, l, block, r, alone);
      LaneRunNext(s, l, counts[l], m);
    } else {
      StepElsewhere(s, l, block, r, i);
      assert r[i] == Alone(s, counts, m, i);
    }
  }

  lemma AgreesWithAlone(s: Slice, counts: multiset<nat>, l: nat, m: seq<Block>, r: seq<Block>)
    requires s.Valid() && |m| == |r| == s.cfg.Total() && l < s.cfg.lanes
    requires forall k: nat :: k < s.cfg.lanes ==> counts[k] <= StepsPerSegment(s)
    requires LanesApart(s, counts, m, r)
    ensures AgreeFor(s, l, r, LaneRun(s, l, counts[l], m))
  {
    hide LaneRun;
    forall i | 0 <= i < |m| && !(s.InSlice(i) && i / s.cfg.LaneSize() != l)
      ensures r[i] == LaneRun(s, l, counts[l], m)[i]
    {
      assert r[i] == Alone(s, counts, m, i);
      LaneOf(s, i);
      if !s.InSlice(i) { LaneRunFrame(s, l, counts[l], m, i); }
    }
  }

  lemma LaneRunNext(s: Slice, l: nat, n: nat, m: seq<Block>)
    requires s.Valid() && l < s.cfg.lanes && s.PassOffset() + n < s.cfg.SegmentSize() && |m| == s.cfg.Total()
    ensures LaneRun(s, l, n + 1, m) == s.Step(l, s.PassOffset() + n, LaneRun(s, l, n, m))
  {
    hide Slice.Step, Slice.PassOffset, Slice.Valid;
  }

  /** A step writes inside the slice, in its own lane. */
  lemma StepElsewhere(s: Slice, l: nat, block: nat, r: seq<Block>, i: nat)
    requires s.Valid() && l < s.cfg.lanes && s.PassOffset() <= block < s.cfg.SegmentSize() && |r| == s.cfg.Total()
    requires i < |r| && !(s.InSlice(i) && i / s.cfg.LaneSize() == l)
    ensures s.Step(l, block, r)[i] == r[i]
  {}

  /** Running the segments of a slice in any order, however interleaved, gives the same memory. */
  lemma AnyOrder(s: Slice, schedule: seq<nat>, other: seq<nat>, m: seq<Block>)
    requires Complete(s, schedule) && Complete(s, other) && |m| == s.cfg.Total()
    ensures Run(s, schedule, m) == Run(s, other, m)
  {
    SegmentsAreIndependent(s, schedule, m);
    SegmentsAreIndependent(s, other, m);
    forall i | 0 <= i < |m| ensures Run(s, schedule, m)[i] == Run(s, other, m)[i] { LaneOf(s, i); }
  }

  // ------------------------------------------------------- the loops

  /** The order of the sequential loop: segment after segment. */
  ghost function InOrder(s: Slice, lanes: nat): seq<nat>
    requires s.Valid()
  {
    if lanes == 0 then [] else InOrder(s, lanes - 1) + Repeated(lanes - 1, StepsPerSegment(s))
  }

  ghost function Repeated(l: nat, n: nat): (r: seq<nat>)
    ensures |r| == n
  {
    if n == 0 then [] else Repeated(l, n - 1) + [l]
  }

  lemma CountsAppend(a: seq<nat>, b: seq<nat>, l: nat)
    ensures Counts(a + b)[l] == Counts(a)[l] + Counts(b)[l]
  {}

  lemma {:induction false} CountsRepeated(l: nat, n: nat, k: nat)
    ensures Counts(Repeated(l, n))[k] == if k == l then n else 0
  {
    if n > 0 {
      CountsRepeated(l, n - 1, k);
      CountsAppend(Repeated(l, n - 1), [l], k);
    }
  }

  lemma {:induction false} CountsInOrder(s: Slice, lanes: nat, k: nat)
    requires s.Valid()
    ensures Counts(InOrder(s, lanes))[k] == if k < lanes then StepsPerSegment(s) else 0
    decreases lanes
  {
    hide Repeated, InOrder, Counts, StepsPerSegment, Slice.PassOffset;
    if lanes == 0 {
      NobodyYet(s, k);
    } else {
      CountsInOrder(s, lanes - 1, k);
      CountsRepeated(lanes - 1, StepsPerSegment(s), k);
      CountsAppend(InOrder(s, lanes - 1), Repeated(lanes - 1, StepsPerSegment(s)), k);
      InOrderNext(s, lanes - 1);
    }
  }

  lemma NobodyYet(s: Slice, k: nat)
    requires s.Valid()
    ensures Counts(InOrder(s, 0))[k] == 0
  {}

  lemma {:induction false} RepeatedNames(l: nat, n: nat)
    ensures forall i :: 0 <= i < n ==> Repeated(l, n)[i] == l
  {
    if n > 0 { RepeatedNames(l, n - 1); }
  }

  lemma {:induction false} InOrderNames(s: Slice, lanes: nat)
    requires s.Valid()
    ensures forall i :: 0 <= i < |InOrder(s, lanes)| ==> InOrder(s, lanes)[i] < lanes
  {
    if lanes > 0 {
      InOrderNames(s, lanes - 1);
      RepeatedNames(lanes - 1, StepsPerSegment(s));
    }
  }

  lemma InOrderFeasible(s: Slice, l: nat, n: nat)
    requires s.Valid() && l < s.cfg.lanes && n <= StepsPerSegment(s)
    ensures Feasible(s, InOrder(s, l) + Repeated(l, n))
  {
    hide InOrder, Repeated, Counts;
    var a, b := InOrder(s, l), Repeated(l, n);
    InOrderNames(s, l);
    RepeatedNames(l, n);
    forall k: nat | k < s.cfg.lanes ensures Counts(a + b)[k] <= StepsPerSegment(s) {
      CountsInOrder(s, l, k);
      CountsRepeated(l, n, k);
      CountsAppend(a, b, k);
    }
  }

  lemma InOrderComplete(s: Slice)
    requires s.Valid()
    ensures Complete(s, InOrder(s, s.cfg.lanes))
  {
    InOrderFeasible(s, s.cfg.lanes - 1, StepsPerSegment(s));
    forall k: nat | k < s.cfg.lanes ensures Counts(InOrder(s, s.cfg.lanes))[k] == StepsPerSegment(s) {
      CountsInOrder(s, s.cfg.lanes, k);
    }
  }

  /** Appending one segment's steps runs that segment on what the others left. */
  lemma {:induction false} RunThenLane(s: Slice, l: nat, n: nat, m: seq<Block>)
    requires s.Valid() && l < s.cfg.lanes && n <= StepsPerSegment(s) && |m| == s.cfg.Total()
    ensures Feasible(s, InOrder(s, l) + Repeated(l, n)) && Feasible(s, InOrder(s, l))
    ensures Run(s, InOrder(s, l) + Repeated(l, n), m) == LaneRun(s, l, n, Run(s, InOrder(s, l), m))
    decreases n
  {
    hide Run, Slice.Step, LaneRun, InOrder, Repeated, Feasible, Counts;
    InOrderFeasible(s, l, n);
    InOrderFeasible(s, l, 0);
    assert Repeated(l, 0) == [];
    assert InOrder(s, l) + Repeated(l, 0) == InOrder(s, l);
    if n == 0 {
      StartSegment(s, l, Zeros(128), Run(s, InOrder(s, l), m));
    } else {
      var rest := InOrder(s, l) + Repeated(l, n - 1);
      RunThenLane(s, l, n - 1, m);
      CountsInOrder(s, l, l);
      CountsRepeated(l, n - 1, l);
      CountsAppend(InOrder(s, l), Repeated(l, n - 1), l);
      RepeatedNext(l, n);
      assert InOrder(s, l) + Repeated(l, n) == rest + [l];
      RunSnoc(s, rest, l, m);
      LaneRunNext(s, l, n - 1, Run(s, InOrder(s, l), m));
    }
  }

  lemma RepeatedNext(l: nat, n: nat)
    requires n > 0
    ensures Repeated(l, n) == Repeated(l, n - 1) + [l]
  {}

  lemma RunSnoc(s: Slice, rest: seq<nat>, l: nat, m: seq<Block>)
    requires Feasible(s, rest + [l]) && Feasible(s, rest) && |m| == s.cfg.Total()
    ensures l < s.cfg.lanes && Counts(rest)[l] < StepsPerSegment(s)
    ensures Run(s, rest + [l], m) == s.Step(l, s.PassOffset() + Counts(rest)[l], Run(s, rest, m))
  {
    var all := rest + [l];
    assert all[..|all| - 1] == rest && all[|all| - 1] == l;
    FeasiblePrefix(s, all);
  }

  /** The seed of one step, from the current index block or from the previous block. */
  lemma SeedOf(s: Slice, segment: nat, block: nat, m: seq<Block>, seed: u64)
    requires s.Valid() && segment < s.cfg.lanes && s.PassOffset() <= block < s.cfg.SegmentSize() && |m| == s.cfg.Total()
    requires seed == s.IndexSeed(segment, block, m)
    ensures s.ReferenceIndex(segment, block, m) == s.At(s.Lane(segment, seed), s.Reference(segment, block, seed))
  {}

  /** The index block and counter after the blocks before `block`. */
  ghost predicate IndexReady(s: Slice, segment: u32, block: nat, indexCtr: u32, indexBlock: Block)
    requires s.Valid()
  {
    if block <= s.PassOffset() then indexCtr == 1
    else indexCtr == (block - 1) / 128 + 2 && indexBlock == s.IndexBlock(segment, (block - 1) / 128 + 1)
  }

  /** Every 128 blocks, and at the start of the segment, a new index block. */
  method Refresh(s: Slice, segment: u32, block: nat, indexCtr: u32, indexBlock: Block)
    returns (newCtr: u32, newBlock: Block)
    requires s.Valid() && s.PassOffset() <= block < s.cfg.SegmentSize()
    requires IndexReady(s, segment, block, indexCtr, indexBlock)
    ensures IndexReady(s, segment, block + 1, newCtr, newBlock)
    ensures newBlock == s.IndexBlock(segment, block / 128 + 1)
  {
    hide Slice.IndexBlock;
    newCtr, newBlock := indexCtr, indexBlock;
    if block == s.PassOffset() || block % 128 == 0 {
      newBlock := s.IndexBlock(segment, indexCtr);
      newCtr := indexCtr + 1;
    }
  }

  /** The block's two writes amount to one. */
  method FillBlock(s: Slice, segment: nat, block: nat, seed: u64, blocks: array<Block>)
    requires s.Valid() && segment < s.cfg.lanes && blocks.Length == s.cfg.Total()
    requires s.PassOffset() <= block < s.cfg.SegmentSize() && seed == s.IndexSeed(segment, block, blocks[..])
    modifies blocks
    ensures blocks[..] == s.Step(segment, block, old(blocks[..]))
  {
    hide XorBlock, Slice.IndexBlock, Slice.Reference, Slice.IndexSeed, Slice.Lane;
    ghost var m := blocks[..];
    SeedOf(s, segment, block, m, seed);
    var current, previous := s.Current(segment, block), s.Previous(segment, block);
    var reference := s.At(s.Lane(segment, seed), s.Reference(segment, block, seed));
    var tmp := XorBlock(blocks[previous], blocks[reference]);
    blocks[current] := if s.pass == 0 then tmp else XorBlock(blocks[current], tmp);
    tmp := s.rounds(tmp);
    blocks[current] := XorBlock(blocks[current], tmp);
    assert blocks[..] == m[current := blocks[current]];
  }

  method FillSegment(s: Slice, segment: nat, constantTime: bool, blocks: array<Block>)
    requires s.Valid() && segment < s.cfg.lanes && blocks.Length == s.cfg.Total()
    requires constantTime == s.ConstantTime()
    modifies blocks
    ensures blocks[..] == LaneRun(s, segment, StepsPerSegment(s), old(blocks[..]))
  {
    hide Slice.IndexBlock, Slice.IndexSeed, Slice.Step, LaneRun, IndexReady;
    ghost var before := blocks[..];
    var indexCtr: u32 := 1;
    var indexBlock: Block := Zeros(128);
    var block := s.PassOffset();
    StartSegment(s, segment, indexBlock, before);
    while block < s.cfg.SegmentSize()
      invariant s.PassOffset() <= block <= s.cfg.SegmentSize()
      invariant constantTime ==> IndexReady(s, segment, block, indexCtr, indexBlock)
      invariant blocks[..] == LaneRun(s, segment, block - s.PassOffset(), before)
    {
      var seed;
      seed, indexCtr, indexBlock := NextSeed(s, segment, block, constantTime, indexCtr, indexBlock, blocks);
      LaneRunNext(s, segment, block - s.PassOffset(), before);
      FillBlock(s, segment, block, seed, blocks);
      block := block + 1;
    }
  }

  /** The seed of one block's reference: from the index block, or from the previous block. */
  method NextSeed(s: Slice, segment: u32, block: nat, constantTime: bool, indexCtr: u32, indexBlock: Block, blocks: array<Block>)
    returns (seed: u64, newCtr: u32, newBlock: Block)
    requires s.Valid() && segment < s.cfg.lanes && blocks.Length == s.cfg.Total() && constantTime == s.ConstantTime()
    requires s.PassOffset() <= block < s.cfg.SegmentSize()
    requires constantTime ==> IndexReady(s, segment, block, indexCtr, indexBlock)
    ensures seed == s.IndexSeed(segment, block, blocks[..])
    ensures constantTime ==> IndexReady(s, segment, block + 1, newCtr, newBlock)
  {
    hide Slice.IndexBlock, IndexReady;
    newCtr, newBlock := indexCtr, indexBlock;
    if constantTime {
      newCtr, newBlock := Refresh(s, segment, block, indexCtr, indexBlock);
      seed := newBlock[block % 128];
    } else {
      seed := blocks[s.Previous(segment, block)][0];
    }
  }

  lemma StartSegment(s: Slice, segment: nat, b: Block, m: seq<Block>)
    requires s.Valid() && segment < s.cfg.lanes && |m| == s.cfg.Total()
    ensures IndexReady(s, segment, s.PassOffset(), 1, b) && LaneRun(s, segment, 0, m) == m
  {}

  ghost predicate AllComplete(cfg: Config, rounds: Block -> Block, schedules: seq<seq<nat>>) {
    && cfg.Valid() && |schedules| <= 4 * cfg.passes
    && forall k :: 0 <= k < |schedules| ==> Complete(SliceNumber(cfg, rounds, k), schedules[k])
  }

  lemma AllCompleteSnoc(cfg: Config, rounds: Block -> Block, done: seq<seq<nat>>, schedule: seq<nat>)
    requires AllComplete(cfg, rounds, done) && |done| < 4 * cfg.passes
    requires Complete(SliceNumber(cfg, rounds, |done|), schedule)
    ensures AllComplete(cfg, rounds, done + [schedule])
  {
    hide Complete, SliceNumber;
  }

  lemma AllCompletePrefix(cfg: Config, rounds: Block -> Block, schedules: seq<seq<nat>>)
    requires AllComplete(cfg, rounds, schedules) && schedules != []
    ensures var k := |schedules| - 1;
      AllComplete(cfg, rounds, schedules[..k]) && Complete(SliceNumber(cfg, rounds, k), schedules[k])
  {
    hide Complete, SliceNumber;
  }

  /** Memory after the given slices, each run by its own schedule. */
  ghost function RunAll(cfg: Config, rounds: Block -> Block, schedules: seq<seq<nat>>, m: seq<Block>): (r: seq<Block>)
    requires AllComplete(cfg, rounds, schedules) && |m| == cfg.Total()
    ensures |r| == |m|
    decreases |schedules|
  {
    if schedules == [] then m else
      var k := |schedules| - 1;
      AllCompletePrefix(cfg, rounds, schedules);
      Run(SliceNumber(cfg, rounds, k), schedules[k], RunAll(cfg, rounds, schedules[..k], m))
  }

  lemma NoSlices(cfg: Config, rounds: Block -> Block, m: seq<Block>)
    requires cfg.Valid() && |m| == cfg.Total()
    ensures AllComplete(cfg, rounds, []) && RunAll(cfg, rounds, [], m) == m
  {}

  lemma RunAllSnoc(cfg: Config, rounds: Block -> Block, done: seq<seq<nat>>, schedule: seq<nat>, m: seq<Block>)
    requires AllComplete(cfg, rounds, done) && |m| == cfg.Total() && |done| < 4 * cfg.passes
    requires Complete(SliceNumber(cfg, rounds, |done|), schedule)
    ensures AllComplete(cfg, rounds, done + [schedule])
    ensures RunAll(cfg, rounds, done + [schedule], m)
      == Run(SliceNumber(cfg, rounds, |done|), schedule, RunAll(cfg, rounds, done, m))
  {
    hide Run, Complete, SliceNumber, AllComplete;
    AllCompleteSnoc(cfg, rounds, done, schedule);
    AllCompletePrefix(cfg, rounds, done + [schedule]);
    assert (done + [schedule])[..|done|] == done;
  }

  ghost function SliceNumber(cfg: Config, rounds: Block -> Block, k: nat): (s: Slice)
    requires k < 4 * cfg.passes
    ensures s.cfg == cfg && s.slice < 4
  {
    Slice(cfg, rounds, k / 4, k % 4)
  }

  /** Whatever order the segments of each slice are filled in, the memory ends the same. */
  lemma {:induction false} AnyOrderThroughout(cfg: Config, rounds: Block -> Block, p: seq<seq<nat>>, q: seq<seq<nat>>, m: seq<Block>)
    requires AllComplete(cfg, rounds, p) && AllComplete(cfg, rounds, q) && |m| == cfg.Total() && |p| == |q|
    ensures RunAll(cfg, rounds, p, m) == RunAll(cfg, rounds, q, m)
    decreases |p|
  {
    if p != [] {
      var k := |p| - 1;
      AllCompletePrefix(cfg, rounds, p);
      AllCompletePrefix(cfg, rounds, q);
      AnyOrderThroughout(cfg, rounds, p[..k], q[..k], m);
      AnyOrder(SliceNumber(cfg, rounds, k), p[k], q[k], RunAll(cfg, rounds, p[..k], m));
    }
  }

  /** One slice: all segments, one after the other. */
  method FillSlice(s: Slice, constantTime: bool, blocks: array<Block>)
    requires s.Valid() && blocks.Length == s.cfg.Total() && constantTime == s.ConstantTime()
    modifies blocks
    ensures Complete(s, InOrder(s, s.cfg.lanes))
    ensures blocks[..] == Run(s, InOrder(s, s.cfg.lanes), old(blocks[..]))
  {
    hide Run, LaneRun, InOrder, Complete, Feasible;
    ghost var before := blocks[..];
    var segment := 0;
    StartSlice(s, before);
    while segment < s.cfg.lanes
      invariant 0 <= segment <= s.cfg.lanes && Feasible(s, InOrder(s, segment))
      invariant blocks[..] == Run(s, InOrder(s, segment), before)
    {
      FillSegment(s, segment, constantTime, blocks);
      RunThenLane(s, segment, StepsPerSegment(s), before);
      InOrderNext(s, segment);
      segment := segment + 1;
    }
    InOrderComplete(s);
  }

  lemma StartSlice(s: Slice, m: seq<Block>)
    requires s.Valid() && |m| == s.cfg.Total()
    ensures Feasible(s, InOrder(s, 0)) && Run(s, InOrder(s, 0), m) == m
  {}

  lemma InOrderNext(s: Slice, l: nat)
    requires s.Valid()
    ensures InOrder(s, l + 1) == InOrder(s, l) + Repeated(l, StepsPerSegment(s))
  {}

  /** All passes over the work area, whose first two blocks of each lane are filled
      by the caller: the result of every schedule. */
  method Fill(cfg: Config, rounds: Block -> Block, blocks: array<Block>)
    requires cfg.Valid() && blocks.Length == cfg.Total()
    modifies blocks
    ensures forall p: seq<seq<nat>> ::
      |p| == 4 * cfg.passes && AllComplete(cfg, rounds, p) ==> blocks[..] == RunAll(cfg, rounds, p, old(blocks[..]))
  {
    hide Run, RunAll, InOrder, Complete, AllComplete;
    ghost var before := blocks[..];
    NoSlices(cfg, rounds, before);
    var constantTime := cfg.algorithm != ARGON2_D;
    var pass: int := 0;
    ghost var done: seq<seq<nat>> := [];
    while pass < cfg.passes
      invariant 0 <= pass <= cfg.passes && |done| == 4 * pass
      invariant constantTime == (cfg.algorithm != ARGON2_D && !(cfg.algorithm == ARGON2_ID && pass > 0))
      invariant AllComplete(cfg, rounds, done)
      invariant blocks[..] == RunAll(cfg, rounds, done, before)
    {
      var slice := 0;
      while slice < 4
        invariant 0 <= slice <= 4 && |done| == 4 * pass + slice
        invariant constantTime == (cfg.algorithm != ARGON2_D && !(cfg.algorithm == ARGON2_ID && (pass > 0 || slice > 2)))
        invariant AllComplete(cfg, rounds, done)
        invariant blocks[..] == RunAll(cfg, rounds, done, before)
      {
        if slice == 2 && cfg.algorithm == ARGON2_ID {
          constantTime := false;
        }
        ghost var k := |done|;
        var s := Slice(cfg, rounds, pass, slice);
        FillSlice(s, constantTime, blocks);
        assert SliceNumber(cfg, rounds, k) == s;
        RunAllSnoc(cfg, rounds, done, InOrder(s, cfg.lanes), before);
        done := done + [InOrder(s, cfg.lanes)];
        slice := slice + 1;
      }
      pass := pass + 1;
    }
    forall p: seq<seq<nat>> | |p| == 4 * cfg.passes && AllComplete(cfg, rounds, p)
      ensures blocks[..] == RunAll(cfg, rounds, p, before)
    {
      AnyOrderThroughout(cfg, rounds, done, p, before);
    }
  }
}
