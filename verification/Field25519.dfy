/** Arithmetic modulo 2^255 - 19 on ten signed limbs of 26 and 25 bits. */
module Field25519 {
  import opened Words
  import opened WordBytes

  type i32 = x: int | -0x8000_0000 <= x < 0x8000_0000
  type i64 = x: int | -0x8000_0000_0000_0000 <= x < 0x8000_0000_0000_0000

  const Q := 0x7fffffff_ffffffff_ffffffff_ffffffff_ffffffff_ffffffff_ffffffff_ffffffed

  const B24 := 0x100_0000
  const B25 := 0x200_0000
  const B26 := 0x400_0000

  const W1 := 0x4000000
  const W2 := 0x8000000000000
  const W3 := 0x20000000000000000000
  const W4 := 0x40000000000000000000000000
  const W5 := 0x100000000000000000000000000000000
  const W6 := 0x200000000000000000000000000000000000000
  const W7 := 0x800000000000000000000000000000000000000000000
  const W8 := 0x1000000000000000000000000000000000000000000000000000
  const W9 := 0x4000000000000000000000000000000000000000000000000000000000

  datatype Ten = Ten(t0: int, t1: int, t2: int, t3: int, t4: int, t5: int, t6: int, t7: int, t8: int, t9: int)

  /** Limb i has weight 2^ceil(25.5 i). */
  function Value(f: Ten): int {
    f.t0 + W1 * f.t1 + W2 * f.t2 + W3 * f.t3 + W4 * f.t4
      + W5 * f.t5 + W6 * f.t6 + W7 * f.t7 + W8 * f.t8 + W9 * f.t9
  }

  predicate Between(x: int, unit: int, limit: int) { -limit < unit * x < limit }

  /** Even limbs below m / unit, odd limbs below n / unit, in absolute value. */
  predicate Within(f: Ten, unit: int, m: int, n: int) {
    && Between(f.t0, unit, m) && Between(f.t1, unit, n) && Between(f.t2, unit, m) && Between(f.t3, unit, n)
    && Between(f.t4, unit, m) && Between(f.t5, unit, n) && Between(f.t6, unit, m) && Between(f.t7, unit, n)
    && Between(f.t8, unit, m) && Between(f.t9, unit, n)
  }

  /** The documented preconditions 1.65 * 2^26 and 1.65 * 2^25 of a product. */
  predicate Factor(f: Ten) { Within(f, 20, 33 * B26, 33 * B25) }

  /** The documented result bounds 1.1 * 2^25 and 1.1 * 2^24. */
  predicate Carried(f: Ten) { Within(f, 10, 11 * B25, 11 * B24) }

  lemma CarriedIsFactor(f: Ten)
    requires Carried(f)
    ensures Factor(f)
  {}

  // ---------------------------------------------------------------- columns

  /** An int32 product by a small constant. */
  function Times(x: int, k: int): (r: i32)
    requires -0x8000_0000 <= x * k < 0x8000_0000
    ensures r == x * k
  {
    x * k
  }

  lemma ProductBound(x: int, y: int, a: int, b: int)
    requires -a <= x <= a && -b <= y <= b
    ensures -(a * b) <= x * y <= a * b
  {
    var s, t := if x < 0 then -x else x, if y < 0 then -y else y;
    MulMono(s, a, t);
    MulMono(t, b, a);
    MulMono(0, s, t);
    assert x * y == s * t || x * y == -(s * t);
  }

  const LEFT := 0x69a_0000    // at least 1.65 * 2^26
  const RIGHT := 0x7d66_6666  // at least 19 * 1.65 * 2^26

  predicate Small(f: Ten, limit: int) {
    && -limit <= f.t0 <= limit && -limit <= f.t1 <= limit && -limit <= f.t2 <= limit && -limit <= f.t3 <= limit
    && -limit <= f.t4 <= limit && -limit <= f.t5 <= limit && -limit <= f.t6 <= limit && -limit <= f.t7 <= limit
    && -limit <= f.t8 <= limit && -limit <= f.t9 <= limit
  }

  /** Ten 64-bit products, added. */
  function Row(a: Ten, b: Ten): (t: i64)
    requires Small(a, LEFT) && Small(b, RIGHT)
    ensures -0x4000_0000_0000_0000 < t < 0x4000_0000_0000_0000
    ensures t == a.t0 * b.t0 + a.t1 * b.t1 + a.t2 * b.t2 + a.t3 * b.t3 + a.t4 * b.t4
      + a.t5 * b.t5 + a.t6 * b.t6 + a.t7 * b.t7 + a.t8 * b.t8 + a.t9 * b.t9
  {
    ProductBound(a.t0, b.t0, LEFT, RIGHT);
    ProductBound(a.t1, b.t1, LEFT, RIGHT);
    ProductBound(a.t2, b.t2, LEFT, RIGHT);
    ProductBound(a.t3, b.t3, LEFT, RIGHT);
    ProductBound(a.t4, b.t4, LEFT, RIGHT);
    ProductBound(a.t5, b.t5, LEFT, RIGHT);
    ProductBound(a.t6, b.t6, LEFT, RIGHT);
    ProductBound(a.t7, b.t7, LEFT, RIGHT);
    ProductBound(a.t8, b.t8, LEFT, RIGHT);
    ProductBound(a.t9, b.t9, LEFT, RIGHT);
    a.t0 * b.t0 + a.t1 * b.t1 + a.t2 * b.t2 + a.t3 * b.t3 + a.t4 * b.t4
      + a.t5 * b.t5 + a.t6 * b.t6 + a.t7 * b.t7 + a.t8 * b.t8 + a.t9 * b.t9
  }

  /** The ten columns of fe_mul, before carrying. */
  function MulColumns(f: Ten, g: Ten): Ten
    requires Factor(f) && Factor(g)
  {
    var (F1, F3, F5, F7, F9) := (Times(f.t1, 2), Times(f.t3, 2), Times(f.t5, 2), Times(f.t7, 2), Times(f.t9, 2));
    var (G1, G2, G3) := (Times(g.t1, 19), Times(g.t2, 19), Times(g.t3, 19));
    var (G4, G5, G6) := (Times(g.t4, 19), Times(g.t5, 19), Times(g.t6, 19));
    var (G7, G8, G9) := (Times(g.t7, 19), Times(g.t8, 19), Times(g.t9, 19));
    Ten(
      Row(Ten(f.t0, F1, f.t2, F3, f.t4, F5, f.t6, F7, f.t8, F9),
          Ten(g.t0, G9, G8, G7, G6, G5, G4, G3, G2, G1)),
      Row(Ten(f.t0, f.t1, f.t2, f.t3, f.t4, f.t5, f.t6, f.t7, f.t8, f.t9),
          Ten(g.t1, g.t0, G9, G8, G7, G6, G5, G4, G3, G2)),
      Row(Ten(f.t0, F1, f.t2, F3, f.t4, F5, f.t6, F7, f.t8, F9),
          Ten(g.t2, g.t1, g.t0, G9, G8, G7, G6, G5, G4, G3)),
      Row(Ten(f.t0, f.t1, f.t2, f.t3, f.t4, f.t5, f.t6, f.t7, f.t8, f.t9),
          Ten(g.t3, g.t2, g.t1, g.t0, G9, G8, G7, G6, G5, G4)),
      Row(Ten(f.t0, F1, f.t2, F3, f.t4, F5, f.t6, F7, f.t8, F9),
          Ten(g.t4, g.t3, g.t2, g.t1, g.t0, G9, G8, G7, G6, G5)),
      Row(Ten(f.t0, f.t1, f.t2, f.t3, f.t4, f.t5, f.t6, f.t7, f.t8, f.t9),
          Ten(g.t5, g.t4, g.t3, g.t2, g.t1, g.t0, G9, G8, G7, G6)),
      Row(Ten(f.t0, F1, f.t2, F3, f.t4, F5, f.t6, F7, f.t8, F9),
          Ten(g.t6, g.t5, g.t4, g.t3, g.t2, g.t1, g.t0, G9, G8, G7)),
      Row(Ten(f.t0, f.t1, f.t2, f.t3, f.t4, f.t5, f.t6, f.t7, f.t8, f.t9),
          Ten(g.t7, g.t6, g.t5, g.t4, g.t3, g.t2, g.t1, g.t0, G9, G8)),
      Row(Ten(f.t0, F1, f.t2, F3, f.t4, F5, f.t6, F7, f.t8, F9),
          Ten(g.t8, g.t7, g.t6, g.t5, g.t4, g.t3, g.t2, g.t1, g.t0, G9)),
      Row(Ten(f.t0, f.t1, f.t2, f.t3, f.t4, f.t5, f.t6, f.t7, f.t8, f.t9),
          Ten(g.t9, g.t8, g.t7, g.t6, g.t5, g.t4, g.t3, g.t2, g.t1, g.t0)))
  }

  /** One factor distributed over the limbs of the other. */
  lemma Expand(a: int, g: Ten)
    ensures a * Value(g) == a * g.t0 + W1 * (a * g.t1) + W2 * (a * g.t2) + W3 * (a * g.t3) + W4 * (a * g.t4)
      + W5 * (a * g.t5) + W6 * (a * g.t6) + W7 * (a * g.t7) + W8 * (a * g.t8) + W9 * (a * g.t9)
  {}

  lemma Scaled(x: int, y: int, j: int, k: int)
    ensures (x * j) * (y * k) == j * k * (x * y)
  {}

  lemma Column0(f: Ten, g: Ten)
    requires Factor(f) && Factor(g)
    ensures MulColumns(f, g).t0 == (f.t0 * g.t0) + 38 * (f.t1 * g.t9) + 19 * (f.t2 * g.t8) + 38 * (f.t3 * g.t7) + 19 * (f.t4 * g.t6)
      + 38 * (f.t5 * g.t5) + 19 * (f.t6 * g.t4) + 38 * (f.t7 * g.t3) + 19 * (f.t8 * g.t2) + 38 * (f.t9 * g.t1)
  {
    Scaled(f.t1, g.t9, 2, 19);
    Scaled(f.t2, g.t8, 1, 19);
    Scaled(f.t3, g.t7, 2, 19);
    Scaled(f.t4, g.t6, 1, 19);
    Scaled(f.t5, g.t5, 2, 19);
    Scaled(f.t6, g.t4, 1, 19);
    Scaled(f.t7, g.t3, 2, 19);
    Scaled(f.t8, g.t2, 1, 19);
    Scaled(f.t9, g.t1, 2, 19);
  }

  lemma Column1(f: Ten, g: Ten)
    requires Factor(f) && Factor(g)
    ensures MulColumns(f, g).t1 == (f.t0 * g.t1) + (f.t1 * g.t0) + 19 * (f.t2 * g.t9) + 19 * (f.t3 * g.t8) + 19 * (f.t4 * g.t7)
      + 19 * (f.t5 * g.t6) + 19 * (f.t6 * g.t5) + 19 * (f.t7 * g.t4) + 19 * (f.t8 * g.t3) + 19 * (f.t9 * g.t2)
  {
    Scaled(f.t2, g.t9, 1, 19);
    Scaled(f.t3, g.t8, 1, 19);
    Scaled(f.t4, g.t7, 1, 19);
    Scaled(f.t5, g.t6, 1, 19);
    Scaled(f.t6, g.t5, 1, 19);
    Scaled(f.t7, g.t4, 1, 19);
    Scaled(f.t8, g.t3, 1, 19);
    Scaled(f.t9, g.t2, 1, 19);
  }

  lemma Column2(f: Ten, g: Ten)
    requires Factor(f) && Factor(g)
    ensures MulColumns(f, g).t2 == (f.t0 * g.t2) + 2 * (f.t1 * g.t1) + (f.t2 * g.t0) + 38 * (f.t3 * g.t9) + 19 * (f.t4 * g.t8)
      + 38 * (f.t5 * g.t7) + 19 * (f.t6 * g.t6) + 38 * (f.t7 * g.t5) + 19 * (f.t8 * g.t4) + 38 * (f.t9 * g.t3)
  {
    Scaled(f.t1, g.t1, 2, 1);
    Scaled(f.t3, g.t9, 2, 19);
    Scaled(f.t4, g.t8, 1, 19);
    Scaled(f.t5, g.t7, 2, 19);
    Scaled(f.t6, g.t6, 1, 19);
    Scaled(f.t7, g.t5, 2, 19);
    Scaled(f.t8, g.t4, 1, 19);
    Scaled(f.t9, g.t3, 2, 19);
  }

  lemma Column3(f: Ten, g: Ten)
    requires Factor(f) && Factor(g)
    ensures MulColumns(f, g).t3 == (f.t0 * g.t3) + (f.t1 * g.t2) + (f.t2 * g.t1) + (f.t3 * g.t0) + 19 * (f.t4 * g.t9)
      + 19 * (f.t5 * g.t8) + 19 * (f.t6 * g.t7) + 19 * (f.t7 * g.t6) + 19 * (f.t8 * g.t5) + 19 * (f.t9 * g.t4)
  {
    Scaled(f.t4, g.t9, 1, 19);
    Scaled(f.t5, g.t8, 1, 19);
    Scaled(f.t6, g.t7, 1, 19);
    Scaled(f.t7, g.t6, 1, 19);
    Scaled(f.t8, g.t5, 1, 19);
    Scaled(f.t9, g.t4, 1, 19);
  }

  lemma Column4(f: Ten, g: Ten)
    requires Factor(f) && Factor(g)
    ensures MulColumns(f, g).t4 == (f.t0 * g.t4) + 2 * (f.t1 * g.t3) + (f.t2 * g.t2) + 2 * (f.t3 * g.t1) + (f.t4 * g.t0)
      + 38 * (f.t5 * g.t9) + 19 * (f.t6 * g.t8) + 38 * (f.t7 * g.t7) + 19 * (f.t8 * g.t6) + 38 * (f.t9 * g.t5)
  {
    Scaled(f.t1, g.t3, 2, 1);
    Scaled(f.t3, g.t1, 2, 1);
    Scaled(f.t5, g.t9, 2, 19);
    Scaled(f.t6, g.t8, 1, 19);
    Scaled(f.t7, g.t7, 2, 19);
    Scaled(f.t8, g.t6, 1, 19);
    Scaled(f.t9, g.t5, 2, 19);
  }

  lemma Column5(f: Ten, g: Ten)
    requires Factor(f) && Factor(g)
    ensures MulColumns(f, g).t5 == (f.t0 * g.t5) + (f.t1 * g.t4) + (f.t2 * g.t3) + (f.t3 * g.t2) + (f.t4 * g.t1)
      + (f.t5 * g.t0) + 19 * (f.t6 * g.t9) + 19 * (f.t7 * g.t8) + 19 * (f.t8 * g.t7) + 19 * (f.t9 * g.t6)
  {
    Scaled(f.t6, g.t9, 1, 19);
    Scaled(f.t7, g.t8, 1, 19);
    Scaled(f.t8, g.t7, 1, 19);
    Scaled(f.t9, g.t6, 1, 19);
  }

  lemma Column6(f: Ten, g: Ten)
    requires Factor(f) && Factor(g)
    ensures MulColumns(f, g).t6 == (f.t0 * g.t6) + 2 * (f.t1 * g.t5) + (f.t2 * g.t4) + 2 * (f.t3 * g.t3) + (f.t4 * g.t2)
      + 2 * (f.t5 * g.t1) + (f.t6 * g.t0) + 38 * (f.t7 * g.t9) + 19 * (f.t8 * g.t8) + 38 * (f.t9 * g.t7)
  {
    Scaled(f.t1, g.t5, 2, 1);
    Scaled(f.t3, g.t3, 2, 1);
    Scaled(f.t5, g.t1, 2, 1);
    Scaled(f.t7, g.t9, 2, 19);
    Scaled(f.t8, g.t8, 1, 19);
    Scaled(f.t9, g.t7, 2, 19);
  }

  lemma Column7(f: Ten, g: Ten)
    requires Factor(f) && Factor(g)
    ensures MulColumns(f, g).t7 == (f.t0 * g.t7) + (f.t1 * g.t6) + (f.t2 * g.t5) + (f.t3 * g.t4) + (f.t4 * g.t3)
      + (f.t5 * g.t2) + (f.t6 * g.t1) + (f.t7 * g.t0) + 19 * (f.t8 * g.t9) + 19 * (f.t9 * g.t8)
  {
    Scaled(f.t8, g.t9, 1, 19);
    Scaled(f.t9, g.t8, 1, 19);
  }

  lemma Column8(f: Ten, g: Ten)
    requires Factor(f) && Factor(g)
    ensures MulColumns(f, g).t8 == (f.t0 * g.t8) + 2 * (f.t1 * g.t7) + (f.t2 * g.t6) + 2 * (f.t3 * g.t5) + (f.t4 * g.t4)
      + 2 * (f.t5 * g.t3) + (f.t6 * g.t2) + 2 * (f.t7 * g.t1) + (f.t8 * g.t0) + 38 * (f.t9 * g.t9)
  {
    Scaled(f.t1, g.t7, 2, 1);
    Scaled(f.t3, g.t5, 2, 1);
    Scaled(f.t5, g.t3, 2, 1);
    Scaled(f.t7, g.t1, 2, 1);
    Scaled(f.t9, g.t9, 2, 19);
  }

  lemma Column9(f: Ten, g: Ten)
    requires Factor(f) && Factor(g)
    ensures MulColumns(f, g).t9 == (f.t0 * g.t9) + (f.t1 * g.t8) + (f.t2 * g.t7) + (f.t3 * g.t6) + (f.t4 * g.t5)
      + (f.t5 * g.t4) + (f.t6 * g.t3) + (f.t7 * g.t2) + (f.t8 * g.t1) + (f.t9 * g.t0)
  {
  }

  /** What limb i of the first factor adds to each column, and the multiple of Q it drops. */
  function Dropped0(a: int, g: Ten): int { 0 }

  lemma Limb0(a: int, g: Ten)
    ensures a * Value(g) == (a * g.t0) + W1 * ((a * g.t1)) + W2 * ((a * g.t2)) + W3 * ((a * g.t3)) + W4 * ((a * g.t4))
      + W5 * ((a * g.t5)) + W6 * ((a * g.t6)) + W7 * ((a * g.t7)) + W8 * ((a * g.t8)) + W9 * ((a * g.t9))
      + Dropped0(a, g) * Q
  {
    Expand(a, g);
  }

  function Dropped1(a: int, g: Ten): int { 2 * (a * g.t9) }

  lemma Limb1(a: int, g: Ten)
    ensures W1 * (a * Value(g)) == W1 * ((a * g.t0)) + W2 * (2 * (a * g.t1)) + W3 * ((a * g.t2)) + W4 * (2 * (a * g.t3)) + W5 * ((a * g.t4))
      + W6 * (2 * (a * g.t5)) + W7 * ((a * g.t6)) + W8 * (2 * (a * g.t7)) + W9 * ((a * g.t8)) + 38 * (a * g.t9)
      + Dropped1(a, g) * Q
  {
    Expand(a, g);
  }

  function Dropped2(a: int, g: Ten): int { (a * g.t8) + W1 * ((a * g.t9)) }

  lemma Limb2(a: int, g: Ten)
    ensures W2 * (a * Value(g)) == W2 * ((a * g.t0)) + W3 * ((a * g.t1)) + W4 * ((a * g.t2)) + W5 * ((a * g.t3)) + W6 * ((a * g.t4))
      + W7 * ((a * g.t5)) + W8 * ((a * g.t6)) + W9 * ((a * g.t7)) + 19 * (a * g.t8) + W1 * (19 * (a * g.t9))
      + Dropped2(a, g) * Q
  {
    Expand(a, g);
  }

  function Dropped3(a: int, g: Ten): int { 2 * (a * g.t7) + W1 * ((a * g.t8)) + W2 * (2 * (a * g.t9)) }

  lemma Limb3(a: int, g: Ten)
    ensures W3 * (a * Value(g)) == W3 * ((a * g.t0)) + W4 * (2 * (a * g.t1)) + W5 * ((a * g.t2)) + W6 * (2 * (a * g.t3)) + W7 * ((a * g.t4))
      + W8 * (2 * (a * g.t5)) + W9 * ((a * g.t6)) + 38 * (a * g.t7) + W1 * (19 * (a * g.t8)) + W2 * (38 * (a * g.t9))
      + Dropped3(a, g) * Q
  {
    Expand(a, g);
  }

  function Dropped4(a: int, g: Ten): int { (a * g.t6) + W1 * ((a * g.t7)) + W2 * ((a * g.t8)) + W3 * ((a * g.t9)) }

  lemma Limb4(a: int, g: Ten)
    ensures W4 * (a * Value(g)) == W4 * ((a * g.t0)) + W5 * ((a * g.t1)) + W6 * ((a * g.t2)) + W7 * ((a * g.t3)) + W8 * ((a * g.t4))
      + W9 * ((a * g.t5)) + 19 * (a * g.t6) + W1 * (19 * (a * g.t7)) + W2 * (19 * (a * g.t8)) + W3 * (19 * (a * g.t9))
      + Dropped4(a, g) * Q
  {
    Expand(a, g);
  }

  function Dropped5(a: int, g: Ten): int { 2 * (a * g.t5) + W1 * ((a * g.t6)) + W2 * (2 * (a * g.t7)) + W3 * ((a * g.t8)) + W4 * (2 * (a * g.t9)) }

  lemma Limb5(a: int, g: Ten)
    ensures W5 * (a * Value(g)) == W5 * ((a * g.t0)) + W6 * (2 * (a * g.t1)) + W7 * ((a * g.t2)) + W8 * (2 * (a * g.t3)) + W9 * ((a * g.t4))
      + 38 * (a * g.t5) + W1 * (19 * (a * g.t6)) + W2 * (38 * (a * g.t7)) + W3 * (19 * (a * g.t8)) + W4 * (38 * (a * g.t9))
      + Dropped5(a, g) * Q
  {
    Expand(a, g);
  }

  function Dropped6(a: int, g: Ten): int { (a * g.t4) + W1 * ((a * g.t5)) + W2 * ((a * g.t6)) + W3 * ((a * g.t7)) + W4 * ((a * g.t8)) + W5 * ((a * g.t9)) }

  lemma Limb6(a: int, g: Ten)
    ensures W6 * (a * Value(g)) == W6 * ((a * g.t0)) + W7 * ((a * g.t1)) + W8 * ((a * g.t2)) + W9 * ((a * g.t3)) + 19 * (a * g.t4)
      + W1 * (19 * (a * g.t5)) + W2 * (19 * (a * g.t6)) + W3 * (19 * (a * g.t7)) + W4 * (19 * (a * g.t8)) + W5 * (19 * (a * g.t9))
      + Dropped6(a, g) * Q
  {
    Expand(a, g);
  }

  function Dropped7(a: int, g: Ten): int { 2 * (a * g.t3) + W1 * ((a * g.t4)) + W2 * (2 * (a * g.t5)) + W3 * ((a * g.t6)) + W4 * (2 * (a * g.t7)) + W5 * ((a * g.t8)) + W6 * (2 * (a * g.t9)) }

  lemma Limb7(a: int, g: Ten)
    ensures W7 * (a * Value(g)) == W7 * ((a * g.t0)) + W8 * (2 * (a * g.t1)) + W9 * ((a * g.t2)) + 38 * (a * g.t3) + W1 * (19 * (a * g.t4))
      + W2 * (38 * (a * g.t5)) + W3 * (19 * (a * g.t6)) + W4 * (38 * (a * g.t7)) + W5 * (19 * (a * g.t8)) + W6 * (38 * (a * g.t9))
      + Dropped7(a, g) * Q
  {
    Expand(a, g);
  }

  function Dropped8(a: int, g: Ten): int { (a * g.t2) + W1 * ((a * g.t3)) + W2 * ((a * g.t4)) + W3 * ((a * g.t5)) + W4 * ((a * g.t6)) + W5 * ((a * g.t7)) + W6 * ((a * g.t8)) + W7 * ((a * g.t9)) }

  lemma Limb8(a: int, g: Ten)
    ensures W8 * (a * Value(g)) == W8 * ((a * g.t0)) + W9 * ((a * g.t1)) + 19 * (a * g.t2) + W1 * (19 * (a * g.t3)) + W2 * (19 * (a * g.t4))
      + W3 * (19 * (a * g.t5)) + W4 * (19 * (a * g.t6)) + W5 * (19 * (a * g.t7)) + W6 * (19 * (a * g.t8)) + W7 * (19 * (a * g.t9))
      + Dropped8(a, g) * Q
  {
    Expand(a, g);
  }

  function Dropped9(a: int, g: Ten): int { 2 * (a * g.t1) + W1 * ((a * g.t2)) + W2 * (2 * (a * g.t3)) + W3 * ((a * g.t4)) + W4 * (2 * (a * g.t5)) + W5 * ((a * g.t6)) + W6 * (2 * (a * g.t7)) + W7 * ((a * g.t8)) + W8 * (2 * (a * g.t9)) }

  lemma Limb9(a: int, g: Ten)
    ensures W9 * (a * Value(g)) == W9 * ((a * g.t0)) + 38 * (a * g.t1) + W1 * (19 * (a * g.t2)) + W2 * (38 * (a * g.t3)) + W3 * (19 * (a * g.t4))
      + W4 * (38 * (a * g.t5)) + W5 * (19 * (a * g.t6)) + W6 * (38 * (a * g.t7)) + W7 * (19 * (a * g.t8)) + W8 * (38 * (a * g.t9))
      + Dropped9(a, g) * Q
  {
    Expand(a, g);
  }

  lemma MulColumnsValue(f: Ten, g: Ten) returns (q: int)
    requires Factor(f) && Factor(g)
    ensures Value(f) * Value(g) == Value(MulColumns(f, g)) + q * Q
  {
    hide MulColumns;
    Column0(f, g);
    Column1(f, g);
    Column2(f, g);
    Column3(f, g);
    Column4(f, g);
    Column5(f, g);
    Column6(f, g);
    Column7(f, g);
    Column8(f, g);
    Column9(f, g);
    Limb0(f.t0, g);
    Limb1(f.t1, g);
    Limb2(f.t2, g);
    Limb3(f.t3, g);
    Limb4(f.t4, g);
    Limb5(f.t5, g);
    Limb6(f.t6, g);
    Limb7(f.t7, g);
    Limb8(f.t8, g);
    Limb9(f.t9, g);
    Expand(Value(g), f);
    MulComm(Value(f), Value(g));
    MulComm(Value(g), f.t0);
    MulComm(Value(g), f.t1);
    MulComm(Value(g), f.t2);
    MulComm(Value(g), f.t3);
    MulComm(Value(g), f.t4);
    MulComm(Value(g), f.t5);
    MulComm(Value(g), f.t6);
    MulComm(Value(g), f.t7);
    MulComm(Value(g), f.t8);
    MulComm(Value(g), f.t9);
    q := Dropped0(f.t0, g) + Dropped1(f.t1, g) + Dropped2(f.t2, g) + Dropped3(f.t3, g) + Dropped4(f.t4, g)
      + Dropped5(f.t5, g) + Dropped6(f.t6, g) + Dropped7(f.t7, g) + Dropped8(f.t8, g) + Dropped9(f.t9, g);
  }

  const SQUARE_LEFT := 0xd34_0000  // at least 1.65 * 2^27

  predicate SixWithin(x0: int, x1: int, x2: int, x3: int, x4: int, x5: int, limit: int) {
    && -limit <= x0 <= limit && -limit <= x1 <= limit && -limit <= x2 <= limit
    && -limit <= x3 <= limit && -limit <= x4 <= limit && -limit <= x5 <= limit
  }

  /** Up to six 64-bit products, added. */
  function Row6(a0: int, b0: int, a1: int, b1: int, a2: int, b2: int, a3: int, b3: int,
                a4: int, b4: int, a5: int, b5: int): (t: i64)
    requires SixWithin(a0, a1, a2, a3, a4, a5, SQUARE_LEFT) && SixWithin(b0, b1, b2, b3, b4, b5, 0x8000_0000)
    ensures t == a0 * b0 + a1 * b1 + a2 * b2 + a3 * b3 + a4 * b4 + a5 * b5
  {
    ProductBound(a0, b0, SQUARE_LEFT, 0x8000_0000);
    ProductBound(a1, b1, SQUARE_LEFT, 0x8000_0000);
    ProductBound(a2, b2, SQUARE_LEFT, 0x8000_0000);
    ProductBound(a3, b3, SQUARE_LEFT, 0x8000_0000);
    ProductBound(a4, b4, SQUARE_LEFT, 0x8000_0000);
    ProductBound(a5, b5, SQUARE_LEFT, 0x8000_0000);
    a0 * b0 + a1 * b1 + a2 * b2 + a3 * b3 + a4 * b4 + a5 * b5
  }

  /** The ten columns of fe_sq: equal terms are computed once. */
  function SqColumns(f: Ten): Ten
    requires Factor(f)
  {
    var f0_2 := Times(f.t0, 2);
    var f1_2 := Times(f.t1, 2);
    var f2_2 := Times(f.t2, 2);
    var f3_2 := Times(f.t3, 2);
    var f4_2 := Times(f.t4, 2);
    var f5_2 := Times(f.t5, 2);
    var f5_38 := Times(f.t5, 38);
    var f6_2 := Times(f.t6, 2);
    var f6_19 := Times(f.t6, 19);
    var f7_2 := Times(f.t7, 2);
    var f7_38 := Times(f.t7, 38);
    var f8_19 := Times(f.t8, 19);
    var f9_38 := Times(f.t9, 38);
    Ten(
      Row6(f.t0, f.t0, f1_2, f9_38, f2_2, f8_19, f3_2, f7_38, f4_2, f6_19, f.t5, f5_38),
      Row6(f0_2, f.t1, f.t2, f9_38, f3_2, f8_19, f.t4, f7_38, f5_2, f6_19, 0, 0),
      Row6(f0_2, f.t2, f1_2, f.t1, f3_2, f9_38, f4_2, f8_19, f5_2, f7_38, f.t6, f6_19),
      Row6(f0_2, f.t3, f1_2, f.t2, f.t4, f9_38, f5_2, f8_19, f.t6, f7_38, 0, 0),
      Row6(f0_2, f.t4, f1_2, f3_2, f.t2, f.t2, f5_2, f9_38, f6_2, f8_19, f.t7, f7_38),
      Row6(f0_2, f.t5, f1_2, f.t4, f2_2, f.t3, f.t6, f9_38, f7_2, f8_19, 0, 0),
      Row6(f0_2, f.t6, f1_2, f5_2, f2_2, f.t4, f3_2, f.t3, f7_2, f9_38, f.t8, f8_19),
      Row6(f0_2, f.t7, f1_2, f.t6, f2_2, f.t5, f3_2, f.t4, f.t8, f9_38, 0, 0),
      Row6(f0_2, f.t8, f1_2, f7_2, f2_2, f.t6, f3_2, f5_2, f.t4, f.t4, f.t9, f9_38),
      Row6(f0_2, f.t9, f1_2, f.t8, f2_2, f.t7, f3_2, f.t6, f.t4, f5_2, 0, 0))
  }

  lemma SqColumn0(f: Ten)
    requires Factor(f)
    ensures SqColumns(f).t0 == MulColumns(f, f).t0
  {
    Column0(f, f);
    hide MulColumns;
    Scaled(f.t1, f.t9, 2, 38);
    MulComm(f.t1, f.t9);
    Scaled(f.t2, f.t8, 2, 19);
    MulComm(f.t2, f.t8);
    Scaled(f.t3, f.t7, 2, 38);
    MulComm(f.t3, f.t7);
    Scaled(f.t4, f.t6, 2, 19);
    MulComm(f.t4, f.t6);
    Scaled(f.t5, f.t5, 1, 38);
  }

  lemma SqColumn1(f: Ten)
    requires Factor(f)
    ensures SqColumns(f).t1 == MulColumns(f, f).t1
  {
    Column1(f, f);
    hide MulColumns;
    Scaled(f.t0, f.t1, 2, 1);
    MulComm(f.t0, f.t1);
    Scaled(f.t2, f.t9, 1, 38);
    MulComm(f.t2, f.t9);
    Scaled(f.t3, f.t8, 2, 19);
    MulComm(f.t3, f.t8);
    Scaled(f.t4, f.t7, 1, 38);
    MulComm(f.t4, f.t7);
    Scaled(f.t5, f.t6, 2, 19);
    MulComm(f.t5, f.t6);
  }

  lemma SqColumn2(f: Ten)
    requires Factor(f)
    ensures SqColumns(f).t2 == MulColumns(f, f).t2
  {
    Column2(f, f);
    hide MulColumns;
    Scaled(f.t0, f.t2, 2, 1);
    MulComm(f.t0, f.t2);
    Scaled(f.t1, f.t1, 2, 1);
    Scaled(f.t3, f.t9, 2, 38);
    MulComm(f.t3, f.t9);
    Scaled(f.t4, f.t8, 2, 19);
    MulComm(f.t4, f.t8);
    Scaled(f.t5, f.t7, 2, 38);
    MulComm(f.t5, f.t7);
    Scaled(f.t6, f.t6, 1, 19);
  }

  lemma SqColumn3(f: Ten)
    requires Factor(f)
    ensures SqColumns(f).t3 == MulColumns(f, f).t3
  {
    Column3(f, f);
    hide MulColumns;
    Scaled(f.t0, f.t3, 2, 1);
    MulComm(f.t0, f.t3);
    Scaled(f.t1, f.t2, 2, 1);
    MulComm(f.t1, f.t2);
    Scaled(f.t4, f.t9, 1, 38);
    MulComm(f.t4, f.t9);
    Scaled(f.t5, f.t8, 2, 19);
    MulComm(f.t5, f.t8);
    Scaled(f.t6, f.t7, 1, 38);
    MulComm(f.t6, f.t7);
  }

  lemma SqColumn4(f: Ten)
    requires Factor(f)
    ensures SqColumns(f).t4 == MulColumns(f, f).t4
  {
    Column4(f, f);
    hide MulColumns;
    Scaled(f.t0, f.t4, 2, 1);
    MulComm(f.t0, f.t4);
    Scaled(f.t1, f.t3, 2, 2);
    MulComm(f.t1, f.t3);
    Scaled(f.t5, f.t9, 2, 38);
    MulComm(f.t5, f.t9);
    Scaled(f.t6, f.t8, 2, 19);
    MulComm(f.t6, f.t8);
    Scaled(f.t7, f.t7, 1, 38);
  }

  lemma SqColumn5(f: Ten)
    requires Factor(f)
    ensures SqColumns(f).t5 == MulColumns(f, f).t5
  {
    Column5(f, f);
    hide MulColumns;
    Scaled(f.t0, f.t5, 2, 1);
    MulComm(f.t0, f.t5);
    Scaled(f.t1, f.t4, 2, 1);
    MulComm(f.t1, f.t4);
    Scaled(f.t2, f.t3, 2, 1);
    MulComm(f.t2, f.t3);
    Scaled(f.t6, f.t9, 1, 38);
    MulComm(f.t6, f.t9);
    Scaled(f.t7, f.t8, 2, 19);
    MulComm(f.t7, f.t8);
  }

  lemma SqColumn6(f: Ten)
    requires Factor(f)
    ensures SqColumns(f).t6 == MulColumns(f, f).t6
  {
    Column6(f, f);
    hide MulColumns;
    Scaled(f.t0, f.t6, 2, 1);
    MulComm(f.t0, f.t6);
    Scaled(f.t1, f.t5, 2, 2);
    MulComm(f.t1, f.t5);
    Scaled(f.t2, f.t4, 2, 1);
    MulComm(f.t2, f.t4);
    Scaled(f.t3, f.t3, 2, 1);
    Scaled(f.t7, f.t9, 2, 38);
    MulComm(f.t7, f.t9);
    Scaled(f.t8, f.t8, 1, 19);
  }

  lemma SqColumn7(f: Ten)
    requires Factor(f)
    ensures SqColumns(f).t7 == MulColumns(f, f).t7
  {
    Column7(f, f);
    hide MulColumns;
    Scaled(f.t0, f.t7, 2, 1);
    MulComm(f.t0, f.t7);
    Scaled(f.t1, f.t6, 2, 1);
    MulComm(f.t1, f.t6);
    Scaled(f.t2, f.t5, 2, 1);
    MulComm(f.t2, f.t5);
    Scaled(f.t3, f.t4, 2, 1);
    MulComm(f.t3, f.t4);
    Scaled(f.t8, f.t9, 1, 38);
    MulComm(f.t8, f.t9);
  }

  lemma SqColumn8(f: Ten)
    requires Factor(f)
    ensures SqColumns(f).t8 == MulColumns(f, f).t8
  {
    Column8(f, f);
    hide MulColumns;
    Scaled(f.t0, f.t8, 2, 1);
    MulComm(f.t0, f.t8);
    Scaled(f.t1, f.t7, 2, 2);
    MulComm(f.t1, f.t7);
    Scaled(f.t2, f.t6, 2, 1);
    MulComm(f.t2, f.t6);
    Scaled(f.t3, f.t5, 2, 2);
    MulComm(f.t3, f.t5);
    Scaled(f.t9, f.t9, 1, 38);
  }

  lemma SqColumn9(f: Ten)
    requires Factor(f)
    ensures SqColumns(f).t9 == MulColumns(f, f).t9
  {
    Column9(f, f);
    hide MulColumns;
    Scaled(f.t0, f.t9, 2, 1);
    MulComm(f.t0, f.t9);
    Scaled(f.t1, f.t8, 2, 1);
    MulComm(f.t1, f.t8);
    Scaled(f.t2, f.t7, 2, 1);
    MulComm(f.t2, f.t7);
    Scaled(f.t3, f.t6, 2, 1);
    MulComm(f.t3, f.t6);
    Scaled(f.t4, f.t5, 1, 2);
    MulComm(f.t4, f.t5);
  }

  /** Squaring computes the very columns of a product by itself. */
  lemma SqColumnsAreMulColumns(f: Ten)
    requires Factor(f)
    ensures SqColumns(f) == MulColumns(f, f)
  {
    hide SqColumns, MulColumns;
    SqColumn0(f);
    SqColumn1(f);
    SqColumn2(f);
    SqColumn3(f);
    SqColumn4(f);
    SqColumn5(f);
    SqColumn6(f);
    SqColumn7(f);
    SqColumn8(f);
    SqColumn9(f);
  }

  // ------------------------------------------------------------ signed carry

  const LARGE := 0x4000_0000_0000_0000

  /** (t + 2^25) >> 26: rounds to nearest, so that what stays is in [-2^25, 2^25). */
  function Carry26(t: i64): (c: i64)
    requires -LARGE - LARGE / 2 <= t <= LARGE + LARGE / 2
    ensures -B25 <= t - c * B26 < B25
  {
    (t + B25) / B26
  }

  function Carry25(t: i64): (c: i64)
    requires -LARGE - LARGE / 2 <= t <= LARGE + LARGE / 2
    ensures -B24 <= t - c * B25 < B24
  {
    (t + B24) / B25
  }

  predicate ColumnsFit(t: Ten) { Small(t, LARGE) }

  /** The ten limbs of an array. */
  function Limbs(s: seq<int>): Ten
    requires |s| == 10
  {
    Ten(s[0], s[1], s[2], s[3], s[4], s[5], s[6], s[7], s[8], s[9])
  }

  /** The shared carry chain of twelve carries, in three stages of four: every
      step fits its word. */
  method CarryStage1(t: Ten) returns (u: Ten)
    requires ColumnsFit(t)
    ensures Between(u.t0, 1, B25 + 1) && Between(u.t1, 1, B24 + 1) && Between(u.t4, 1, B25 + 1) && Between(u.t5, 1, B24 + 1)
    ensures u.t3 == t.t3 && u.t7 == t.t7 && u.t8 == t.t8 && u.t9 == t.t9
    ensures Between(u.t2, 1, LARGE + LARGE / 4) && Between(u.t6, 1, LARGE + LARGE / 4)
    ensures Value(u) == Value(t)
  {
    hide Carry26, Carry25;
    var t0: i64, t1: i64, t2: i64, t3: i64, t4: i64 := t.t0, t.t1, t.t2, t.t3, t.t4;
    var t5: i64, t6: i64, t7: i64, t8: i64, t9: i64 := t.t5, t.t6, t.t7, t.t8, t.t9;
    var c: i64;
    c := Carry26(t0); t0 := t0 - c * B26; t1 := t1 + c;
    c := Carry26(t4); t4 := t4 - c * B26; t5 := t5 + c;
    c := Carry25(t1); t1 := t1 - c * B25; t2 := t2 + c;
    c := Carry25(t5); t5 := t5 - c * B25; t6 := t6 + c;
    u := Ten(t0, t1, t2, t3, t4, t5, t6, t7, t8, t9);
  }

  method CarryStage2(t: Ten) returns (u: Ten)
    requires Between(t.t0, 1, B25 + 1) && Between(t.t1, 1, B24 + 1) && Between(t.t4, 1, B25 + 1) && Between(t.t5, 1, B24 + 1)
    requires Between(t.t2, 1, LARGE + LARGE / 4) && Between(t.t6, 1, LARGE + LARGE / 4)
    requires Between(t.t3, 1, LARGE + 1) && Between(t.t7, 1, LARGE + 1)
    requires Between(t.t8, 1, LARGE + 1) && Between(t.t9, 1, LARGE + 1)
    ensures u.t0 == t.t0 && u.t1 == t.t1 && u.t5 == t.t5 && u.t9 == t.t9
    ensures Between(u.t2, 1, B25 + 1) && Between(u.t6, 1, B25 + 1)
    ensures Between(u.t3, 1, B24 + 1) && Between(u.t7, 1, B24 + 1)
    ensures Between(u.t4, 1, 0x80_0000_0000) && Between(u.t8, 1, LARGE + LARGE / 4)
    ensures Value(u) == Value(t)
  {
    hide Carry26, Carry25;
    var t0: i64, t1: i64, t2: i64, t3: i64, t4: i64 := t.t0, t.t1, t.t2, t.t3, t.t4;
    var t5: i64, t6: i64, t7: i64, t8: i64, t9: i64 := t.t5, t.t6, t.t7, t.t8, t.t9;
    var c: i64;
    c := Carry26(t2); t2 := t2 - c * B26; t3 := t3 + c;
    c := Carry26(t6); t6 := t6 - c * B26; t7 := t7 + c;
    c := Carry25(t3); t3 := t3 - c * B25; t4 := t4 + c;
    c := Carry25(t7); t7 := t7 - c * B25; t8 := t8 + c;
    u := Ten(t0, t1, t2, t3, t4, t5, t6, t7, t8, t9);
  }

  method CarryStage3(t: Ten) returns (u: Ten, ghost top: int)
    requires Between(t.t0, 1, B25 + 1) && Between(t.t1, 1, B24 + 1) && Between(t.t5, 1, B24 + 1)
    requires Between(t.t2, 1, B25 + 1) && Between(t.t6, 1, B25 + 1)
    requires Between(t.t3, 1, B24 + 1) && Between(t.t7, 1, B24 + 1)
    requires Between(t.t4, 1, 0x80_0000_0000) && Between(t.t8, 1, LARGE + LARGE / 4) && Between(t.t9, 1, LARGE + 1)
    ensures Carried(u) && Value(u) == Value(t) - top * Q
  {
    hide Carry26, Carry25;
    var t0: i64, t1: i64, t2: i64, t3: i64, t4: i64 := t.t0, t.t1, t.t2, t.t3, t.t4;
    var t5: i64, t6: i64, t7: i64, t8: i64, t9: i64 := t.t5, t.t6, t.t7, t.t8, t.t9;
    var c: i64;
    c := Carry26(t4); t4 := t4 - c * B26; t5 := t5 + c;
    c := Carry26(t8); t8 := t8 - c * B26; t9 := t9 + c;
    c := Carry25(t9); t9 := t9 - c * B25; t0 := t0 + c * 19;
    top := c;
    c := Carry26(t0); t0 := t0 - c * B26; t1 := t1 + c;
    u := Ten(t0, t1, t2, t3, t4, t5, t6, t7, t8, t9);
  }

  method CarryChain(t: Ten) returns (u: Ten, ghost top: int)
    requires ColumnsFit(t)
    ensures Carried(u) && Value(u) == Value(t) - top * Q
  {
    hide Value, Carried;
    var v := CarryStage1(t);
    var w := CarryStage2(v);
    u, top := CarryStage3(w);
  }

  method CarryInto(h: array<i32>, t: Ten)
    requires h.Length == 10 && ColumnsFit(t)
    modifies h
    ensures Carried(Limbs(h[..]))
    ensures Cong(Value(Limbs(h[..])), Value(t), Q)
  {
    hide Value, Cong;
    ghost var top;
    var u;
    u, top := CarryChain(t);
    h[0], h[1], h[2], h[3], h[4] := u.t0, u.t1, u.t2, u.t3, u.t4;
    h[5], h[6], h[7], h[8], h[9] := u.t5, u.t6, u.t7, u.t8, u.t9;
    assert Limbs(h[..]) == u;
    CongBy(Value(u), Value(t), -top, Q);
  }

  /** h := f * g, the three possibly the same array. */
  method FeMul(h: array<i32>, f: array<i32>, g: array<i32>)
    requires h.Length == 10 && f.Length == 10 && g.Length == 10
    requires Factor(Limbs(f[..])) && Factor(Limbs(g[..]))
    modifies h
    ensures Carried(Limbs(h[..]))
    ensures Cong(Value(Limbs(h[..])), old(Value(Limbs(f[..])) * Value(Limbs(g[..]))), Q)
  {
    hide Value, MulColumns, Cong, Carried;
    ghost var x, y := Limbs(f[..]), Limbs(g[..]);
    var t := MulColumns(Limbs(f[..]), Limbs(g[..]));
    ColumnsBelow62(x, y);
    CarryInto(h, t);
    var q := MulColumnsValue(x, y);
    CongBy(Value(t), Value(x) * Value(y), -q, Q);
    CongTrans(Value(Limbs(h[..])), Value(t), Value(x) * Value(y), Q);
  }

  lemma ColumnsBelow62(f: Ten, g: Ten)
    requires Factor(f) && Factor(g)
    ensures ColumnsFit(MulColumns(f, g))
  {}

  /** h := f * f. */
  method FeSq(h: array<i32>, f: array<i32>)
    requires h.Length == 10 && f.Length == 10 && Factor(Limbs(f[..]))
    modifies h
    ensures Carried(Limbs(h[..]))
    ensures Cong(Value(Limbs(h[..])), old(Value(Limbs(f[..])) * Value(Limbs(f[..]))), Q)
  {
    hide Value, MulColumns, SqColumns, Cong, Carried;
    ghost var x := Limbs(f[..]);
    var t := SqColumns(Limbs(f[..]));
    SqColumnsAreMulColumns(x);
    ColumnsBelow62(x, x);
    CarryInto(h, t);
    var q := MulColumnsValue(x, x);
    CongBy(Value(t), Value(x) * Value(x), -q, Q);
    CongTrans(Value(Limbs(h[..])), Value(t), Value(x) * Value(x), Q);
  }

  // --------------------------------------------------------------- encoding

  /** 2^26 for even limbs, 2^25 for odd ones. */
  function Radix(i: nat): int { if i % 2 == 0 then B26 else B25 }

  function Weight(n: nat): (w: int)
    ensures w > 0
  {
    if n == 0 then 1 else
      MulMono(1, Radix(n - 1), Weight(n - 1));
      Radix(n - 1) * Weight(n - 1)
  }

  /** The number written by the first n limbs. */
  function Low(t: seq<int>, n: nat): int
    requires n <= |t|
  {
    if n == 0 then 0 else Low(t, n - 1) + t[n - 1] * Weight(n - 1)
  }

  lemma Weights()
    ensures Weight(1) == B26 && Weight(2) == W2 && Weight(3) == W3 && Weight(4) == W4 && Weight(5) == W5
    ensures Weight(6) == W6 && Weight(7) == W7 && Weight(8) == W8 && Weight(9) == W9 && Weight(10) == Q + 19
  {
    assert Weight(3) == W3 by { assert Weight(2) == W2; }
    assert Weight(5) == W5 by { assert Weight(4) == W4; }
    assert Weight(7) == W7 by { assert Weight(6) == W6; }
    assert Weight(9) == W9 by { assert Weight(8) == W8; }
  }

  lemma ValueIsLow(t: seq<int>)
    requires |t| == 10
    ensures Value(Limbs(t)) == Low(t, 10)
  {
    Weights();
    hide Weight;
    WeightZero();
    assert Low(t, 1) == t[0];
    assert Low(t, 2) == t[0] + t[1] * W1;
    assert Low(t, 4) == Low(t, 2) + t[2] * W2 + t[3] * W3;
    assert Low(t, 6) == Low(t, 4) + t[4] * W4 + t[5] * W5;
    assert Low(t, 8) == Low(t, 6) + t[6] * W6 + t[7] * W7;
    assert Low(t, 10) == Low(t, 8) + t[8] * W8 + t[9] * W9;
  }

  lemma WeightZero()
    ensures Weight(0) == 1
  {}

  /** The carry out of the first n limbs, started with q0. */
  ghost function CarryOut(q0: int, t: seq<int>, n: nat): int
    requires n <= |t|
  {
    (q0 + Low(t, n)) / Weight(n)
  }

  /** Dividing limb by limb, rounding down, divides the whole number. */
  lemma DivideLimb(q0: int, t: seq<int>, n: nat)
    requires n < |t|
    ensures (CarryOut(q0, t, n) + t[n]) / Radix(n) == CarryOut(q0, t, n + 1)
  {
    hide Weight;
    assert Weight(n + 1) == Radix(n) * Weight(n) by { WeightNext(n); }
    ModPlusMultiple(q0 + Low(t, n), t[n], Weight(n));
    DivDiv(q0 + Low(t, n + 1), Weight(n), Radix(n));
    MulComm(Weight(n), Radix(n));
  }

  lemma WeightNext(n: nat)
    ensures Weight(n + 1) == Radix(n) * Weight(n)
  {}

  predicate CarriedLimbs(t: seq<int>) {
    && |t| == 10
    && forall i :: 0 <= i < 10 ==> Between(t[i], 10, if i % 2 == 0 then 11 * B25 else 11 * B24)
  }

  lemma CarriedByIndex(t: seq<int>)
    requires |t| == 10 && Carried(Limbs(t))
    ensures CarriedLimbs(t)
  {}

  /** 0 for a number that is not negative, -1 for a negative one: the borrow of
      the whole number, guessed from its top limb. */
  method Sign(t: seq<i32>) returns (q: i32)
    requires CarriedLimbs(t)
    ensures q == if Value(Limbs(t)) >= 0 then 0 else -1
  {
    hide Low, Weight, Value, CarriedLimbs, Limbs, CarryOut;
    LimbBounds(t, 4);
    ghost var q0 := (19 * t[9] as int + B24) / B25;
    assert -16 <= q0 <= 16;
    q := (19 * t[9] as int + B24) / B25;
    var i := 0;
    CarryStart(q0, t);
    while i < 5
      invariant 0 <= i <= 5 && -16 <= q <= 16
      invariant q == CarryOut(q0, t, 2 * i)
    {
      LimbBounds(t, i);
      TwoLimbs(q0, t, i);
      q := q + t[2 * i];
      q := q / B26;
      q := q + t[2 * i + 1];
      q := q / B25;
      i := i + 1;
    }
    CarryEnd(q0, t);
    SignOf(Limbs(t), q0);
  }

  lemma TwoLimbs(q0: int, t: seq<int>, i: nat)
    requires |t| == 10 && i < 5
    ensures ((CarryOut(q0, t, 2 * i) + t[2 * i]) / B26 + t[2 * i + 1]) / B25 == CarryOut(q0, t, 2 * (i + 1))
  {
    hide CarryOut;
    DivideLimb(q0, t, 2 * i);
    DivideLimb(q0, t, 2 * i + 1);
    assert Radix(2 * i) == B26 && Radix(2 * i + 1) == B25 && 2 * i + 1 + 1 == 2 * (i + 1);
  }

  lemma CarryStart(q0: int, t: seq<int>)
    ensures CarryOut(q0, t, 0) == q0
  {
    LowZero(t);
    WeightZero();
  }

  lemma CarryEnd(q0: int, t: seq<int>)
    requires |t| == 10
    ensures CarryOut(q0, t, 10) == (q0 + Value(Limbs(t))) / (Q + 19)
  {
    hide Value, Limbs, Low, Weight;
    ValueIsLow(t);
    Weights();
  }

  lemma LimbBounds(t: seq<int>, i: nat)
    requires CarriedLimbs(t) && i < 5
    ensures |t| == 10 && -0x300_0000 <= t[2 * i] <= 0x300_0000 && -0x180_0000 <= t[2 * i + 1] <= 0x180_0000
    ensures Limbs(t).t9 == t[9] && Carried(Limbs(t))
  {
    assert Between(t[2 * i], 10, 11 * B25) && Between(t[2 * i + 1], 10, 11 * B24);
  }

  lemma LowZero(t: seq<int>)
    ensures Low(t, 0) == 0
  {}

  lemma SignOf(t: Ten, q0: int)
    requires Carried(t) && q0 == (19 * t.t9 + B24) / B25
    ensures (q0 + Value(t)) / (Q + 19) == (if Value(t) >= 0 then 0 else -1) && -Q < Value(t) < Q
  {
    TopLimbDecides(t);
    var v := Value(t);
    if v >= 0 {
      DivModUnique(q0 + v, 0, q0 + v, Q + 19);
    } else {
      DivModUnique(q0 + v, -1, q0 + v + Q + 19, Q + 19);
    }
  }

  lemma TopLimbDecides(t: Ten)
    requires Carried(t)
    ensures -0x6000_0000 * W9 < 0x40 * Value(t) < 0x6000_0000 * W9
    ensures Value(t) >= 0 ==> t.t9 >= 0
    ensures Value(t) < 0 ==> t.t9 <= 0
  {
    var v := Value(t);
    assert -W9 < v - W9 * t.t9 < W9;
  }

  ghost predicate TightLimbs(t: seq<int>, n: nat) {
    n <= |t| && forall i :: 0 <= i < n ==> 0 <= t[i] < Radix(i)
  }

  lemma {:induction false} TightRange(t: seq<int>, n: nat)
    requires TightLimbs(t, n)
    ensures 0 <= Low(t, n) < Weight(n)
    decreases n
  {
    if n > 0 {
      TightRange(t, n - 1);
      MulMono(t[n - 1], Radix(n - 1) - 1, Weight(n - 1));
      MulMono(0, t[n - 1], Weight(n - 1));
    }
  }

  lemma {:induction false} LowPrefix(s: seq<int>, t: seq<int>, n: nat)
    requires n <= |s| && n <= |t| && forall i :: 0 <= i < n ==> s[i] == t[i]
    ensures Low(s, n) == Low(t, n)
    decreases n
  {
    if n > 0 { LowPrefix(s, t, n - 1); }
  }

  /** Carries q in at limb n and out above it. */
  lemma PropagateLimb(before: seq<int>, after: seq<int>, original: seq<int>, n: nat, q: int, c: int, q0: int)
    requires |before| == |after| == |original| && n < |after| && forall i :: 0 <= i < n ==> after[i] == before[i]
    requires Low(before, n) + q * Weight(n) == Low(original, n) + q0
    requires after[n] + c * Radix(n) == original[n] + q
    ensures Low(after, n + 1) + c * Weight(n + 1) == Low(original, n + 1) + q0
  {
    LowPrefix(before, after, n);
    var w := Weight(n);
    WeightNext(n);
    MulAssoc(c, Radix(n), w);
    Distribute(w, after[n], c * Radix(n));
    Distribute(w, original[n], q);
    MulComm(w, after[n]);
    MulComm(w, c * Radix(n));
    MulComm(w, original[n]);
    MulComm(w, q);
  }

  /** Adds q0 and brings every limb into its positive range; what is carried out is left in q. */
  method Propagate(t: array<i32>, q0: i32) returns (q: i32)
    requires t.Length == 10 && CarriedLimbs(t[..]) && -19 <= q0 <= 0
    modifies t
    ensures TightLimbs(t[..], 10)
    ensures Low(t[..], 10) + q * Weight(10) == old(Low(t[..], 10)) + q0
  {
    hide Low, Weight;
    ghost var original := t[..];
    q := q0;
    var i := 0;
    assert Low(t[..], 0) + q * Weight(0) == Low(original, 0) + q0 by { LowZero(t[..]); LowZero(original); WeightZero(); }
    while i < 5
      invariant 0 <= i <= 5 && -19 <= q <= 1
      invariant TightLimbs(t[..], 2 * i)
      invariant forall j :: 2 * i <= j < 10 ==> t[j] == original[j]
      invariant Low(t[..], 2 * i) + q * Weight(2 * i) == Low(original, 2 * i) + q0
    {
      ghost var a, qa := t[..], q;
      t[2 * i] := t[2 * i] + q;
      q := t[2 * i] / B26;
      t[2 * i] := t[2 * i] - q * B26;
      ghost var b, qb := t[..], q;
      PropagateLimb(a, b, original, 2 * i, qa, qb, q0);
      t[2 * i + 1] := t[2 * i + 1] + q;
      q := t[2 * i + 1] / B25;
      t[2 * i + 1] := t[2 * i + 1] - q * B25;
      PropagateLimb(b, t[..], original, 2 * i + 1, qb, q, q0);
      i := i + 1;
    }
  }

  /** low | high << k on 32-bit words, where unit is 2^k and above is 2^(32 - k). */
  function PackWord(low: nat, high: nat, unit: nat, above: nat): (w: u32)
    requires low < unit && above > 0 && unit * above == B32
    ensures w == low + unit * (high % above)
  {
    ShiftOut(high, unit, above);
    MulMono(high % above, above - 1, unit);
    Or(low, (high * unit) % B32, unit)
  }

  predicate Tight(t: Ten) {
    && 0 <= t.t0 < B26 && 0 <= t.t1 < B25 && 0 <= t.t2 < B26 && 0 <= t.t3 < B25 && 0 <= t.t4 < B26
    && 0 <= t.t5 < B25 && 0 <= t.t6 < B26 && 0 <= t.t7 < B25 && 0 <= t.t8 < B26 && 0 <= t.t9 < B25
  }

  /** The limbs packed into eight 32-bit words. */
  function PackedWords(t: Ten): (w: seq<u32>)
    requires Tight(t)
    ensures |w| == 8
  {
    [PackWord(t.t0, t.t1, 0x400_0000, 0x40), PackWord(t.t1 / 0x40, t.t2, 0x8_0000, 0x2000),
     PackWord(t.t2 / 0x2000, t.t3, 0x2000, 0x8_0000), PackWord(t.t3 / 0x8_0000, t.t4, 0x40, 0x400_0000),
     PackWord(t.t5, t.t6, 0x200_0000, 0x80), PackWord(t.t6 / 0x80, t.t7, 0x8_0000, 0x2000),
     PackWord(t.t7 / 0x2000, t.t8, 0x1000, 0x10_0000), PackWord(t.t8 / 0x10_0000, t.t9, 0x40, 0x400_0000)]
  }

  lemma PackedValue(t: Ten)
    requires Tight(t)
    ensures Val(B32, PackedWords(t)) == Value(t)
  {
    var w := PackedWords(t);
    EightWords(w);
    hide Val;
    DivModUnique(t.t4, 0, t.t4, 0x400_0000);
    DivModUnique(t.t9, 0, t.t9, 0x400_0000);
    PackedHalf(t, w);
  }

  lemma PackedHalf(t: Ten, w: seq<u32>)
    requires Tight(t) && w == PackedWords(t) && t.t4 % 0x400_0000 == t.t4 && t.t9 % 0x400_0000 == t.t9
    ensures w[0] + B32 * w[1] + B64 * w[2] + B64 * B32 * w[3] == t.t0 + W1 * t.t1 + W2 * t.t2 + W3 * t.t3 + W4 * t.t4
    ensures w[4] + B32 * w[5] + B64 * w[6] + B64 * B32 * w[7]
      == t.t5 + 0x2000000 * t.t6 + 0x8000000000000 * t.t7 + 0x10000000000000000000 * t.t8 + 0x40000000000000000000000000 * t.t9
  {}

  lemma EightWords(w: seq<u32>)
    requires |w| == 8
    ensures Val(B32, w) == w[0] + B32 * w[1] + B64 * w[2] + B64 * B32 * w[3]
      + B128 * w[4] + B128 * B32 * w[5] + B128 * B64 * w[6] + B128 * B64 * B32 * w[7]
  {
    hide Val;
    assert w[0..] == w && w[8..] == [] && Val(B32, []) == 0 by { ValEmpty(B32); }
    NextDigit(B32, w, 0);
    NextDigit(B32, w, 1);
    NextDigit(B32, w, 2);
    NextDigit(B32, w, 3);
    NextDigit(B32, w, 4);
    NextDigit(B32, w, 5);
    NextDigit(B32, w, 6);
    NextDigit(B32, w, 7);
  }

  /** s := the canonical encoding of h, which may be negative. */
  method FeToBytes(s: array<byte>, h: array<i32>)
    requires s.Length == 32 && h.Length == 10 && Carried(Limbs(h[..]))
    modifies s
    ensures LE(s[..]) == Value(Limbs(h[..])) % Q
  {
    hide Val, Value, Carried, PackedWords, Digits, Low, Weight, Tight, Store;
    var t := new i32[10](i requires 0 <= i < 10 reads h => h[i]);
    assert t[..] == h[..];
    CarriedByIndex(t[..]);
    ghost var v := Value(Limbs(t[..]));
    ValueIsLow(t[..]);
    var q := Sign(t[..]);
    q := q * 19;
    ghost var q0 := q;
    q := Propagate(t, q);
    ValueIsLow(t[..]);
    TightRange(t[..], 10);
    ByIndexTight(t[..]);
    CanonicalResult(Limbs(h[..]), q0, Value(Limbs(t[..])), q);
    PackedValue(Limbs(t[..]));
    StoreAll(s, PackedWords(Limbs(t[..])));
  }

  lemma ByIndexTight(t: seq<int>)
    requires |t| == 10 && TightLimbs(t, 10)
    ensures Tight(Limbs(t))
  {}

  lemma CanonicalResult(h: Ten, q0: int, u: int, q: int)
    requires Carried(h) && q0 == (if Value(h) >= 0 then 0 else -19)
    requires 0 <= u < Weight(10) && u + q * Weight(10) == Value(h) + q0
    ensures u == Value(h) % Q
  {
    hide Weight, Value;
    Weights();
    SignOf(h, (19 * h.t9 + B24) / B25);
    var v := Value(h);
    DivModUnique(v, if v >= 0 then 0 else -1, u, Q);
  }

  /** Eight store32_le. */
  method StoreAll(s: array<byte>, w: seq<u32>)
    requires s.Length == 32 && |w| == 8
    modifies s
    ensures LE(s[..]) == Val(B32, w)
  {
    hide Val, Digits, Store;
    assert w[..0] == [] && s[..0] == [] && Store([], 4) == [] by { StoreEmpty(); }
    StoreSnoc(w, 0);
    Store32(s, 0, w[0]);
    StoreSnoc(w, 1);
    Store32(s, 4, w[1]);
    StoreSnoc(w, 2);
    Store32(s, 8, w[2]);
    StoreSnoc(w, 3);
    Store32(s, 12, w[3]);
    StoreSnoc(w, 4);
    Store32(s, 16, w[4]);
    StoreSnoc(w, 5);
    Store32(s, 20, w[5]);
    StoreSnoc(w, 6);
    Store32(s, 24, w[6]);
    StoreSnoc(w, 7);
    Store32(s, 28, w[7]);
    assert s[..] == s[..32] && w[..8] == w;
    assert Pow(256, 4) == B32;
    StoreValue(w, 4);
  }
}
