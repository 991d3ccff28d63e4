/**
 The invocations of `impl_measure!` in src/measure.rs, their expansion into
 one impl per ordered pair of operand types, and the proof that every impl
 they produce has types wide enough for `distance` to be exact.

 The `usize` invocations depend on `target_pointer_width`; here they are a
 function of the pointer width.
 */
module ImplTable {
  import opened IntTypes
  import opened IntMeasure

  /** One invocation of the macro: `@refl` or `@both`. */
  datatype Invocation =
    | Refl(ty: IntType, cast: IntType, len: IntType)
    | Both(ty1: IntType, ty2: IntType, cast: IntType, len: IntType)

  /**
   The impls one invocation produces: its head first, and then for `@both`
   the same impl with the operand types swapped.
   */
  function Expand(inv: Invocation): (rows: seq<Row>)
    ensures |rows| == if inv.Refl? then 1 else 2
    ensures rows[0] == Head(inv)
    ensures forall r :: r in rows <==> r == Head(inv) || r == Mirror(Head(inv))
  {
    match inv
    case Refl(t, c, l) => [Row(t, t, c, l)]
    case Both(t1, t2, c, l) => [Row(t1, t2, c, l), Row(t2, t1, c, l)]
  }

  /** The impls of a list of invocations, in order. */
  function Rows(invs: seq<Invocation>): (rows: seq<Row>)
    ensures forall r :: r in rows <==> exists i :: 0 <= i < |invs| && r in Expand(invs[i])
  {
    if invs == [] then []
    else
      var rest := Rows(invs[1..]);
      assert forall i :: 1 <= i < |invs| ==> invs[i] == invs[1..][i - 1];
      Expand(invs[0]) + rest
  }

  /** Lines 77-84: one `@refl` per fixed-width type. */
  const ReflFixed: seq<Invocation> := [
    Refl(U8, U8, U16),
    Refl(U16, U16, U32),
    Refl(U32, U32, U64),
    Refl(U64, U64, U128),
    Refl(I8, I16, U8),
    Refl(I16, I32, U16),
    Refl(I32, I64, U32),
    Refl(I64, I128, U64)
  ]

  /** Lines 85-91: `u8` against every later type. */
  const BothU8: seq<Invocation> := [
    Both(U8, U16, U16, U32),
    Both(U8, U32, U32, U64),
    Both(U8, U64, U64, U128),
    Both(U8, I8, I16, U16),
    Both(U8, I16, I32, U16),
    Both(U8, I32, I64, U32),
    Both(U8, I64, I128, U64)
  ]

  /** Lines 92-97: `u16` against every later type. */
  const BothU16: seq<Invocation> := [
    Both(U16, U32, U32, U64),
    Both(U16, U64, U64, U128),
    Both(U16, I8, I32, U32),
    Both(U16, I16, I32, U32),
    Both(U16, I32, I64, U32),
    Both(U16, I64, I128, U64)
  ]

  /** Lines 98-102: `u32` against every later type. */
  const BothU32: seq<Invocation> := [
    Both(U32, U64, U64, U128),
    Both(U32, I8, I64, U64),
    Both(U32, I16, I64, U64),
    Both(U32, I32, I64, U64),
    Both(U32, I64, I128, U64)
  ]

  /** Lines 103-106: `u64` against every later type. */
  const BothU64: seq<Invocation> := [
    Both(U64, I8, I128, U128),
    Both(U64, I16, I128, U128),
    Both(U64, I32, I128, U128),
    Both(U64, I64, I128, U128)
  ]

  /** Lines 107-109: `i8` against every later type. */
  const BothI8: seq<Invocation> := [
    Both(I8, I16, I32, U16),
    Both(I8, I32, I64, U32),
    Both(I8, I64, I128, U64)
  ]

  /** Lines 110-111: `i16` against every later type. */
  const BothI16: seq<Invocation> := [
    Both(I16, I32, I64, U32),
    Both(I16, I64, I128, U64)
  ]

  /** Line 112: `i32` against `i64`. */
  const BothI32: seq<Invocation> := [
    Both(I32, I64, I128, U64)
  ]

  /**
   The invocations for the fixed-width types, in source order: the `@refl`
   rows, then every pair of distinct types in the order
   `u8, u16, u32, u64, i8, i16, i32, i64`.
   */
  const FixedInvocations: seq<Invocation> :=
    ReflFixed + BothU8 + BothU16 + BothU32 + BothU64 + BothI8 + BothI16 + BothI32

  /**
   The invocations for `usize` compiled in at the given pointer width: one
   `@refl`, then one `@both` of `usize` with each fixed-width type in the
   order `u8, u16, u32, u64, i8, i16, i32, i64`.
   */
  function UsizeInvocations(pw: PointerWidth): (invs: seq<Invocation>)
    ensures |invs| == 9
    ensures invs[0].Refl? && invs[0].ty == USize
    ensures forall i :: 1 <= i < 9 ==> invs[i].Both? && invs[i].ty1 == USize
    ensures forall i :: 1 <= i < 9 ==> invs[i].ty2 == [U8, U16, U32, U64, I8, I16, I32, I64][i - 1]
  {
    match pw
    case W8 => [
      Refl(USize, U8, U16),
      Both(USize, U8, U8, U16),
      Both(USize, U16, U16, U32),
      Both(USize, U32, U32, U64),
      Both(USize, U64, U64, U128),
      Both(USize, I8, I16, U16),
      Both(USize, I16, I32, U16),
      Both(USize, I32, I64, U32),
      Both(USize, I64, I128, U64)
    ]
    case W16 => [
      Refl(USize, U16, U32),
      Both(USize, U8, U16, U32),
      Both(USize, U16, U16, U32),
      Both(USize, U32, U32, U64),
      Both(USize, U64, U64, U128),
      Both(USize, I8, I32, U32),
      Both(USize, I16, I32, U32),
      Both(USize, I32, I64, U32),
      Both(USize, I64, I128, U64)
    ]
    case W32 => [
      Refl(USize, U32, U64),
      Both(USize, U8, U32, U64),
      Both(USize, U16, U32, U64),
      Both(USize, U32, U32, U64),
      Both(USize, U64, U64, U128),
      Both(USize, I8, I64, U64),
      Both(USize, I16, I64, U64),
      Both(USize, I32, I64, U64),
      Both(USize, I64, I128, U64)
    ]
    case W64 => [
      Refl(USize, U64, U128),
      Both(USize, U8, U64, U128),
      Both(USize, U16, U64, U128),
      Both(USize, U32, U64, U128),
      Both(USize, U64, U64, U128),
      Both(USize, I8, I128, U128),
      Both(USize, I16, I128, U128),
      Both(USize, I32, I128, U128),
      Both(USize, I64, I128, U128)
    ]
  }

  function Invocations(pw: PointerWidth): seq<Invocation>
  {
    FixedInvocations + UsizeInvocations(pw)
  }

  /**
   Every `impl Measure<T2> for T1` compiled at the given pointer width: the
   head of each compiled invocation and its mirror, and nothing else.
   */
  function Table(pw: PointerWidth): (rows: seq<Row>)
    ensures forall inv :: inv in Invocations(pw) ==> Head(inv) in rows && Mirror(Head(inv)) in rows
    ensures forall r :: r in rows ==> exists inv :: inv in Invocations(pw) && (r == Head(inv) || r == Mirror(Head(inv)))
  {
    Rows(Invocations(pw))
  }

  /** The modelled types that have `Measure` impls: all but `u128` and `i128`. */
  predicate IsOperand(t: IntType)
  {
    !t.U128? && !t.I128?
  }

  // ---------------------------------------------------------------------
  // Every impl in the table is safe

  /** The first impl an invocation emits; `@both` emits its mirror after it. */
  function Head(inv: Invocation): Row
  {
    match inv
    case Refl(t, c, l) => Row(t, t, c, l)
    case Both(t1, t2, c, l) => Row(t1, t2, c, l)
  }

  predicate MentionsUsize(row: Row)
  {
    row.ty1.USize? || row.ty2.USize? || row.cast.USize? || row.len.USize?
  }

  /** A `usize`-free invocation checked at one width: safe at every width. */
  predicate CheckedOnce(inv: Invocation)
  {
    !MentionsUsize(Head(inv)) && Safe(Head(inv), W64)
  }

  lemma BoundsWidthFree(t: IntType, pw: PointerWidth)
    requires !t.USize?
    ensures MinValue(t, pw) == MinValue(t, W64) && MaxValue(t, pw) == MaxValue(t, W64)
  {
  }

  /** A row without `usize` is equally safe at every pointer width. */
  lemma SafeWidthFree(row: Row, pw: PointerWidth)
    requires !MentionsUsize(row)
    ensures Safe(row, pw) <==> Safe(row, W64)
  {
    BoundsWidthFree(row.ty1, pw);
    BoundsWidthFree(row.ty2, pw);
    BoundsWidthFree(row.cast, pw);
    BoundsWidthFree(row.len, pw);
  }

  /** The mirror of a row is safe exactly when the row is. */
  lemma SafeMirror(row: Row, pw: PointerWidth)
    ensures Safe(Mirror(row), pw) <==> Safe(row, pw)
  {
    assert MaxSpan(Mirror(row), pw) == MaxSpan(row, pw);
  }

  /** Lines 77-84. */
  lemma ReflFixedChecked()
    ensures forall inv :: inv in ReflFixed ==> CheckedOnce(inv)
  {
  }

  /** Lines 85-91. */
  lemma BothU8Checked()
    ensures forall inv :: inv in BothU8 ==> CheckedOnce(inv)
  {
  }

  /** Lines 92-97. */
  lemma BothU16Checked()
    ensures forall inv :: inv in BothU16 ==> CheckedOnce(inv)
  {
  }

  /** Lines 98-102. */
  lemma BothU32Checked()
    ensures forall inv :: inv in BothU32 ==> CheckedOnce(inv)
  {
  }

  /** Lines 103-106. */
  lemma BothU64Checked()
    ensures forall inv :: inv in BothU64 ==> CheckedOnce(inv)
  {
  }

  /** Lines 107-109. */
  lemma BothI8Checked()
    ensures forall inv :: inv in BothI8 ==> CheckedOnce(inv)
  {
  }

  /** Lines 110-111. */
  lemma BothI16Checked()
    ensures forall inv :: inv in BothI16 ==> CheckedOnce(inv)
  {
  }

  /** Line 112. */
  lemma BothI32Checked()
    ensures forall inv :: inv in BothI32 ==> CheckedOnce(inv)
  {
  }

  lemma FixedChecked()
    ensures forall inv :: inv in FixedInvocations ==> CheckedOnce(inv)
  {
    ReflFixedChecked();
    BothU8Checked();
    BothU16Checked();
    BothU32Checked();
    BothU64Checked();
    BothI8Checked();
    BothI16Checked();
    BothI32Checked();
  }

  /** Lines 113-130. */
  lemma UsizeChecked8()
    ensures forall inv :: inv in UsizeInvocations(W8) ==> Safe(Head(inv), W8)
  {
  }

  /** Lines 131-148. */
  lemma UsizeChecked16()
    ensures forall inv :: inv in UsizeInvocations(W16) ==> Safe(Head(inv), W16)
  {
  }

  /** Lines 149-166. */
  lemma UsizeChecked32()
    ensures forall inv :: inv in UsizeInvocations(W32) ==> Safe(Head(inv), W32)
  {
  }

  /** Lines 167-184. */
  lemma UsizeChecked64()
    ensures forall inv :: inv in UsizeInvocations(W64) ==> Safe(Head(inv), W64)
  {
  }

  lemma InvocationsSafe(pw: PointerWidth)
    ensures forall inv :: inv in Invocations(pw) ==> Safe(Head(inv), pw)
  {
    FixedChecked();
    match pw {
      case W8 => UsizeChecked8();
      case W16 => UsizeChecked16();
      case W32 => UsizeChecked32();
      case W64 => UsizeChecked64();
    }
    forall inv | inv in FixedInvocations
      ensures Safe(Head(inv), pw)
    {
      SafeWidthFree(Head(inv), pw);
    }
  }

  /** The impls of safe invocations are safe. */
  lemma RowsSafe(invs: seq<Invocation>, pw: PointerWidth)
    requires forall inv :: inv in invs ==> Safe(Head(inv), pw)
    ensures forall r :: r in Rows(invs) ==> Safe(r, pw)
  {
    forall r | r in Rows(invs)
      ensures Safe(r, pw)
    {
      var i :| 0 <= i < |invs| && r in Expand(invs[i]);
      SafeMirror(Head(invs[i]), pw);
    }
  }

  /** Every impl compiled at width `pw` has types as wide as the macro's comments demand. */
  lemma TableSafe(pw: PointerWidth)
    ensures forall r :: r in Table(pw) ==> Safe(r, pw)
  {
    InvocationsSafe(pw);
    RowsSafe(Invocations(pw), pw);
  }

  /**
   For every impl compiled at width `pw` and all operands of its types,
   nothing wraps: both casts into `$cast` keep the operands, the difference
   fits `$cast`, and `distance` is the exact absolute difference.
   */
  lemma TableDistanceExact(pw: PointerWidth, r: Row, a: int, b: int)
    requires r in Table(pw)
    requires InRange(r.ty1, pw, a) && InRange(r.ty2, pw, b)
    ensures As(a, r.cast, pw) == a && As(b, r.cast, pw) == b
    ensures InRange(r.cast, pw, Abs(a - b))
    ensures Distance(r, pw, a, b) == Abs(a - b)
  {
    TableSafe(pw);
    SafeRowSteps(r, pw, a, b);
  }

  /** The impls of any list of invocations come in mirrored pairs. */
  lemma RowsMirrorClosed(invs: seq<Invocation>)
    ensures forall r :: r in Rows(invs) ==> Mirror(r) in Rows(invs)
  {
    forall r | r in Rows(invs)
      ensures Mirror(r) in Rows(invs)
    {
      var i :| 0 <= i < |invs| && r in Expand(invs[i]);
      assert Mirror(r) in Expand(invs[i]);
    }
  }

  /** With `@both`, the impl for the swapped operand types is in the table too. */
  lemma TableMirrorClosed(pw: PointerWidth)
    ensures forall r :: r in Table(pw) ==> Mirror(r) in Table(pw)
  {
    RowsMirrorClosed(Invocations(pw));
  }

  /** `$len` holds the number of values of the operand type, not just the largest distance. */
  predicate LenHoldsDomain(row: Row, pw: PointerWidth)
  {
    InRange(row.len, pw, MaxValue(row.ty1, pw) - MinValue(row.ty1, pw) + 1)
  }

  /**
   The comment on `$len` (line 45) holds for the unsigned `@refl` rows but not
   for the signed ones: `i8` has 256 values and its `$len` is `u8`. The
   distances themselves still fit, by `TableSafe`.
   */
  lemma ReflDomain(pw: PointerWidth)
    ensures forall inv :: inv in ReflFixed ==> (LenHoldsDomain(Head(inv), pw) <==> !Signed(inv.ty))
  {
  }

  /** The `usize` `@refl` row's `$len` holds the number of `usize` values at every pointer width. */
  lemma UsizeReflDomain(pw: PointerWidth)
    ensures UsizeInvocations(pw)[0].Refl?
    ensures LenHoldsDomain(Head(UsizeInvocations(pw)[0]), pw)
  {
  }
}
