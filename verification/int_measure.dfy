/**
 The body that `impl_measure!` gives every `impl Measure<$ty2> for $ty1`:
 both operands are cast into the intermediate type `$cast`, the smaller is
 subtracted from the larger there, and the difference is cast into `$len`.

 Integer `as` wraps in every build of Rust and is modelled so. The
 subtraction is modelled as release-mode arithmetic, which wraps where a
 debug build would panic; the lemmas show that for a row whose types are
 wide enough neither the casts nor the subtraction wrap, so a debug build
 would not panic either.
 */
module IntMeasure {
  import opened IntTypes

  /** The four type arguments of one `impl_measure!($ty1, $ty2, $cast, $len)`. */
  datatype Row = Row(ty1: IntType, ty2: IntType, cast: IntType, len: IntType)

  /** The row `@both` emits next to `row`: the operand types swapped. */
  function Mirror(row: Row): Row
  {
    Row(row.ty2, row.ty1, row.cast, row.len)
  }

  function Abs(x: int): int
  {
    if x < 0 then -x else x
  }

  function Max(x: int, y: int): int
  {
    if x < y then y else x
  }

  /** Every value of type `u` is a value of type `t`. */
  predicate Contains(t: IntType, u: IntType, pw: PointerWidth)
  {
    MinValue(t, pw) <= MinValue(u, pw) && MaxValue(u, pw) <= MaxValue(t, pw)
  }

  /** The largest `|a - b|` over a value `a` of `ty1` and a value `b` of `ty2`. */
  function MaxSpan(row: Row, pw: PointerWidth): int
  {
    Max(MaxValue(row.ty1, pw) - MinValue(row.ty2, pw), MaxValue(row.ty2, pw) - MinValue(row.ty1, pw))
  }

  /** `$cast` holds both operand types, so `as $cast` loses nothing. */
  predicate CastLossless(row: Row, pw: PointerWidth)
  {
    Contains(row.cast, row.ty1, pw) && Contains(row.cast, row.ty2, pw)
  }

  /** `$cast` holds the larger-minus-smaller difference of any two operands. */
  predicate SubtractionFits(row: Row, pw: PointerWidth)
  {
    MaxSpan(row, pw) <= MaxValue(row.cast, pw)
  }

  /** `$len` holds the distance of any two operands. */
  predicate LenFits(row: Row, pw: PointerWidth)
  {
    MaxSpan(row, pw) <= MaxValue(row.len, pw)
  }

  /** What the macro's comments promise of the types chosen for a row. */
  predicate Safe(row: Row, pw: PointerWidth)
  {
    CastLossless(row, pw) && SubtractionFits(row, pw) && LenFits(row, pw)
  }

  /** Wrapping subtraction in type `t`. */
  function Sub(x: int, y: int, t: IntType, pw: PointerWidth): (r: int)
    ensures InRange(t, pw, r)
    ensures InRange(t, pw, x - y) ==> r == x - y
  {
    As(x - y, t, pw)
  }

  /** The larger minus the smaller of `x` and `y`, subtracting in type `t`. */
  function Difference(x: int, y: int, t: IntType, pw: PointerWidth): (r: int)
    ensures InRange(t, pw, r)
    ensures InRange(t, pw, Abs(x - y)) ==> r == Abs(x - y)
  {
    if x > y then Sub(x, y, t, pw) else Sub(y, x, t, pw)
  }

  lemma DifferenceSymmetric(x: int, y: int, t: IntType, pw: PointerWidth)
    ensures Difference(x, y, t, pw) == Difference(y, x, t, pw)
  {
  }

  /**
   `distance(&a, &b)` of the macro's main arm for the impl `row`: a value of
   `$len`, and the exact absolute difference whenever the row's types are as
   wide as the macro's comments require.
   */
  function Distance(row: Row, pw: PointerWidth, a: int, b: int): (d: int)
    requires InRange(row.ty1, pw, a) && InRange(row.ty2, pw, b)
    ensures InRange(row.len, pw, d)
    ensures Safe(row, pw) ==> d == Abs(a - b)
  {
    var d := As(Difference(As(a, row.cast, pw), As(b, row.cast, pw), row.cast, pw), row.len, pw);
    assert Safe(row, pw) ==> d == Abs(a - b) by {
      if Safe(row, pw) {
        SafeRowSteps(row, pw, a, b);
      }
    }
    d
  }

  /** `len(&a)` of the macro's main arm: the literal `1` of type `$len`, whatever `a` is. */
  function Len(row: Row, pw: PointerWidth, a: int): (n: int)
    requires InRange(row.ty1, pw, a)
    ensures n == 1
  {
    As(1, row.len, pw)
  }

  /**
   The three steps of `distance` on a safe row: both casts into `$cast` are
   the identity, the subtraction stays inside `$cast`, and the final cast
   into `$len` is the identity.
   */
  lemma SafeRowSteps(row: Row, pw: PointerWidth, a: int, b: int)
    requires Safe(row, pw)
    requires InRange(row.ty1, pw, a) && InRange(row.ty2, pw, b)
    ensures As(a, row.cast, pw) == a && As(b, row.cast, pw) == b
    ensures InRange(row.cast, pw, Abs(a - b))
    ensures InRange(row.len, pw, Abs(a - b))
  {
    SpanBound(MinValue(row.ty1, pw), MaxValue(row.ty1, pw), MinValue(row.ty2, pw), MaxValue(row.ty2, pw), a, b);
    ZeroInRange(row.cast, pw);
    ZeroInRange(row.len, pw);
  }

  /** The distance of two values from two ranges is at most the wider reach between the ranges. */
  lemma SpanBound(lo1: int, hi1: int, lo2: int, hi2: int, a: int, b: int)
    requires lo1 <= a <= hi1 && lo2 <= b <= hi2
    ensures Abs(a - b) <= Max(hi1 - lo2, hi2 - lo1)
  {
  }

  /** Both directions of one row pair give the same value, for any types. */
  lemma DistanceSymmetric(row: Row, pw: PointerWidth, a: int, b: int)
    requires InRange(row.ty1, pw, a) && InRange(row.ty2, pw, b)
    ensures Distance(row, pw, a, b) == Distance(Mirror(row), pw, b, a)
  {
    DifferenceSymmetric(As(a, row.cast, pw), As(b, row.cast, pw), row.cast, pw);
  }

  /** The distance from a value to itself is zero, for any types. */
  lemma DistanceIdentity(row: Row, pw: PointerWidth, a: int)
    requires InRange(row.ty1, pw, a) && InRange(row.ty2, pw, a)
    ensures Distance(row, pw, a, a) == 0
  {
  }

  /** The distance is exact for every pair of operands. */
  ghost predicate ExactEverywhere(row: Row, pw: PointerWidth)
  {
    forall a, b :: InRange(row.ty1, pw, a) && InRange(row.ty2, pw, b) ==> Distance(row, pw, a, b) == Abs(a - b)
  }

  /**
   With lossless casts and a subtraction that fits, the distance is exact
   for all operands exactly when `$len` holds the largest distance: the two
   extreme operand pairs reach that distance.
   */
  lemma LenFitsIffExact(row: Row, pw: PointerWidth)
    requires CastLossless(row, pw) && SubtractionFits(row, pw)
    ensures ExactEverywhere(row, pw) <==> LenFits(row, pw)
  {
    if LenFits(row, pw) {
      forall a, b | InRange(row.ty1, pw, a) && InRange(row.ty2, pw, b)
        ensures Distance(row, pw, a, b) == Abs(a - b)
      {
        assert Safe(row, pw);
      }
    } else {
      LenOverflowWitness(row, pw);
    }
  }

  /** When `$len` is too narrow, one of the two extreme operand pairs has a wrong distance. */
  lemma LenOverflowWitness(row: Row, pw: PointerWidth)
    requires !LenFits(row, pw)
    ensures Distance(row, pw, MaxValue(row.ty1, pw), MinValue(row.ty2, pw)) != MaxValue(row.ty1, pw) - MinValue(row.ty2, pw)
         || Distance(row, pw, MinValue(row.ty1, pw), MaxValue(row.ty2, pw)) != MaxValue(row.ty2, pw) - MinValue(row.ty1, pw)
    ensures !ExactEverywhere(row, pw)
  {
    var lo1, hi1 := MinValue(row.ty1, pw), MaxValue(row.ty1, pw);
    var lo2, hi2 := MinValue(row.ty2, pw), MaxValue(row.ty2, pw);
    var top := MaxValue(row.len, pw);
    if hi1 - lo2 >= hi2 - lo1 {
      var d := Distance(row, pw, hi1, lo2);
      assert d <= top < hi1 - lo2 == Abs(hi1 - lo2);
    } else {
      var d := Distance(row, pw, lo1, hi2);
      assert d <= top < hi2 - lo1 == Abs(lo1 - hi2);
    }
  }
}
