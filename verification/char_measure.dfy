/**
 `impl Measure for char` (src/measure.rs:18-39). A Dafny `char` is a Unicode
 scalar value, exactly like a Rust `char`: a code point in `0..=0x10FFFF`
 outside the surrogate range `0xD800..=0xDFFF`.

 The impl measures in `u64`. Its formula for two characters on opposite
 sides of the surrogate range uses the constant `0xD000`; `Distance` models it
 as written, and `GapFreeDistance` models it with `0xE000`, which makes the
 distance the number of scalar values between the two characters.
 */
module CharMeasure {
  import opened IntTypes
  import opened IntMeasure

  /** Last code point below the surrogate range. */
  const BelowGap: int := 0xD7FF
  /** First code point above the surrogate range. */
  const AboveGap: int := 0xE000
  /** Number of surrogate code points. */
  const GapSize: int := 0x800

  /** `x - y` in `u64`: wraps in release builds, panics in debug builds. */
  function SubU64(x: int, y: int): (r: int)
    ensures InRange(U64, W64, r)
    ensures InRange(U64, W64, x - y) ==> r == x - y
  {
    As(x - y, U64, W64)
  }

  /** `x + y` in `u64`. */
  function AddU64(x: int, y: int): (r: int)
    ensures InRange(U64, W64, r)
    ensures InRange(U64, W64, x + y) ==> r == x + y
  {
    As(x + y, U64, W64)
  }

  /** `c as u64`. */
  function Code(c: char): (n: int)
    ensures 0 <= n <= 0x10FFFF && !(0xD800 <= n <= 0xDFFF)
    ensures InRange(U64, W64, n)
  {
    c as int
  }

  /** The smaller and the larger code point: the `mem::swap` of line 30. */
  function Ordered(a: char, b: char): (p: (int, int))
    ensures p.0 <= p.1
    ensures (p.0, p.1) == (Code(a), Code(b)) || (p.0, p.1) == (Code(b), Code(a))
  {
    var x, y := Code(a), Code(b);
    if x > y then (y, x) else (x, y)
  }

  /** The two characters lie on opposite sides of the surrogate range. */
  predicate Straddles(a: char, b: char)
    ensures Straddles(a, b) <==> (Code(a) <= BelowGap && AboveGap <= Code(b)) || (Code(b) <= BelowGap && AboveGap <= Code(a))
  {
    var (lo, hi) := Ordered(a, b);
    lo <= BelowGap && hi >= AboveGap
  }

  /** Code points above the surrogate range moved up by its size: the scale the as-written distance measures on. */
  function Inflate(c: char): int
  {
    if Code(c) >= AboveGap then Code(c) + GapSize else Code(c)
  }

  /**
   `a.distance(&b)` as written: across the surrogate range,
   `(b - 0xd000 + 1) + (0xd7ff - a)` in `u64`, otherwise `b - a`. The value is
   the distance on the inflated scale, so nothing wraps.
   */
  function Distance(a: char, b: char): (d: int)
    ensures InRange(U64, W64, d)
    ensures d == Abs(Inflate(a) - Inflate(b))
  {
    var (lo, hi) := Ordered(a, b);
    if lo <= BelowGap && hi >= AboveGap then
      AddU64(AddU64(SubU64(hi, 0xD000), 1), SubU64(BelowGap, lo))
    else
      SubU64(hi, lo)
  }

  /** `a.len()`: the literal `1` of type `u64`, whatever `a` is. */
  function Len(a: char): (n: int)
    ensures n == 1
  {
    As(1, U64, W64)
  }

  /** In the branch across the range, neither subtraction underflows and the sum does not overflow. */
  lemma GapBranchNoWrap(a: char, b: char)
    requires Straddles(a, b)
    ensures InRange(U64, W64, Ordered(a, b).1 - 0xD000)
    ensures InRange(U64, W64, BelowGap - Ordered(a, b).0)
    ensures InRange(U64, W64, (Ordered(a, b).1 - 0xD000 + 1) + (BelowGap - Ordered(a, b).0))
  {
  }

  /**
   Across the surrogate range the distance is the numeric difference plus
   `0x800`; otherwise it is the numeric difference.
   */
  lemma DistanceCases(a: char, b: char)
    ensures Straddles(a, b) ==> Distance(a, b) == Abs(Code(a) - Code(b)) + GapSize
    ensures !Straddles(a, b) ==> Distance(a, b) == Abs(Code(a) - Code(b))
  {
  }

  lemma DistanceSymmetric(a: char, b: char)
    ensures Distance(a, b) == Distance(b, a)
  {
  }

  lemma DistanceZero(a: char, b: char)
    ensures Distance(a, b) == 0 <==> a == b
  {
    CodeInjective(a, b);
  }

  lemma CodeInjective(a: char, b: char)
    ensures Code(a) == Code(b) <==> a == b
  {
  }

  /** Distances add up along increasing code points. */
  lemma DistanceAdditive(a: char, b: char, c: char)
    requires a <= b <= c
    ensures Distance(a, c) == Distance(a, b) + Distance(b, c)
  {
  }

  /** `distance('\u{D7FF}', '\u{E000}') == 4097` and `distance('A', 'C') == 2`. */
  lemma DistanceExamples()
    ensures Distance('\U{D7FF}', '\U{E000}') == 4097
    ensures Distance('A', 'C') == 2
  {
  }

  // ---------------------------------------------------------------------
  // The distance with `0xE000` in place of `0xD000`

  /** The number of scalar values below `c`: the surrogate range takes no room. */
  function Index(c: char): (i: int)
    ensures 0 <= i <= Code(c)
  {
    if Code(c) >= AboveGap then Code(c) - GapSize else Code(c)
  }

  /**
   `a.distance(&b)` with the branch across the surrogate range written
   `(b - 0xe000 + 1) + (0xd7ff - a)`: the number of scalar values from the
   smaller character up to the larger, counting the larger and not the smaller.
   */
  function GapFreeDistance(a: char, b: char): (d: int)
    ensures InRange(U64, W64, d)
    ensures d == Abs(Index(a) - Index(b))
  {
    var (lo, hi) := Ordered(a, b);
    if lo <= BelowGap && hi >= AboveGap then
      AddU64(AddU64(SubU64(hi, AboveGap), 1), SubU64(BelowGap, lo))
    else
      SubU64(hi, lo)
  }

  /** The `char` right after `c`: no `char` lies strictly between them. */
  function Next(c: char): (n: char)
    requires Code(c) < 0x10FFFF
    ensures Code(c) < Code(n)
    ensures forall x: char :: !(Code(c) < Code(x) < Code(n))
  {
    if Code(c) == BelowGap then AboveGap as char else (Code(c) + 1) as char
  }

  /** Consecutive characters are one apart, across the surrogate range too. */
  lemma GapFreeStep(c: char)
    requires Code(c) < 0x10FFFF
    ensures GapFreeDistance(c, Next(c)) == 1
  {
    var n := Next(c);
    if Code(c) == BelowGap {
      assert Code(n) == AboveGap;
    } else {
      assert Code(n) == Code(c) + 1;
    }
  }

  /** As written, consecutive characters are one apart except across the surrogate range. */
  lemma AsWrittenStep(c: char)
    requires Code(c) < 0x10FFFF
    ensures Distance(c, Next(c)) == if Code(c) == BelowGap then 0x1001 else 1
  {
    var n := Next(c);
    if Code(c) == BelowGap {
      assert Code(n) == AboveGap;
    } else {
      assert Code(n) == Code(c) + 1;
    }
  }

  /** The corrected distance adds up along increasing code points. */
  lemma GapFreeAdditive(a: char, b: char, c: char)
    requires a <= b <= c
    ensures GapFreeDistance(a, c) == GapFreeDistance(a, b) + GapFreeDistance(b, c)
  {
  }

  /** The corrected distance is symmetric and vanishes only on equal characters. */
  lemma GapFreeMetric(a: char, b: char)
    ensures GapFreeDistance(a, b) == GapFreeDistance(b, a)
    ensures GapFreeDistance(a, b) == 0 <==> a == b
  {
    CodeInjective(a, b);
  }

  /**
   The two formulas differ by exactly `0x1000` across the surrogate range
   and agree elsewhere.
   */
  lemma FormulasDiffer(a: char, b: char)
    ensures Straddles(a, b) ==> Distance(a, b) == GapFreeDistance(a, b) + 0x1000
    ensures !Straddles(a, b) ==> Distance(a, b) == GapFreeDistance(a, b)
  {
  }

  /** The input that shows the difference: `'\u{D7FF}'` and `'\u{E000}'` are neighbours. */
  lemma NeighboursAcrossGap()
    ensures Next('\U{D7FF}') == '\U{E000}'
    ensures Distance('\U{D7FF}', '\U{E000}') == 0x1001
    ensures GapFreeDistance('\U{D7FF}', '\U{E000}') == 1
  {
  }
}
