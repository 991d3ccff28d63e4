/**
 The trait `Measure<U>` as a caller sees it: `a.distance(&b)` and `a.len()`
 for `a: T1` and `b: T2` resolve to the unique impl `Measure<T2> for T1`
 that the invocations compile in at the platform's pointer width.
 */
module Dispatch {
  import opened IntTypes
  import opened IntMeasure
  import opened ImplTable
  import opened Coverage

  datatype Option<T> = None | Some(value: T)

  /** The first impl `Measure<t2> for t1` in `rows`, if there is one. */
  function Find(rows: seq<Row>, t1: IntType, t2: IntType): (o: Option<Row>)
    ensures o.Some? <==> ImplCount(rows, t1, t2) > 0
    ensures o.Some? ==> o.value in rows && o.value.ty1 == t1 && o.value.ty2 == t2
  {
    if rows == [] then None
    else if rows[0].ty1 == t1 && rows[0].ty2 == t2 then Some(rows[0])
    else
      var o := Find(rows[1..], t1, t2);
      assert o.Some? ==> o.value in rows;
      o
  }

  /** Two impls for one pair of operand types in a list that counts one such impl are the same impl. */
  lemma {:induction false} OnlyImpl(rows: seq<Row>, r: Row, s: Row)
    requires ImplCount(rows, r.ty1, r.ty2) == 1
    requires r in rows && s in rows && s.ty1 == r.ty1 && s.ty2 == r.ty2
    ensures r == s
  {
    var head := rows[0];
    if head.ty1 == r.ty1 && head.ty2 == r.ty2 {
      assert ImplCount(rows[1..], r.ty1, r.ty2) == 0;
      if r != head {
        assert r in rows[1..];
        NoImplAbsent(rows[1..], r);
      }
      if s != head {
        assert s in rows[1..];
        NoImplAbsent(rows[1..], s);
      }
    } else {
      assert r in rows[1..] && s in rows[1..];
      OnlyImpl(rows[1..], r, s);
    }
  }

  /** A list that counts no impl for the operand types of `r` does not contain `r`. */
  lemma {:induction false} NoImplAbsent(rows: seq<Row>, r: Row)
    requires ImplCount(rows, r.ty1, r.ty2) == 0
    ensures r !in rows
  {
    if rows != [] {
      NoImplAbsent(rows[1..], r);
      assert rows == [rows[0]] + rows[1..];
    }
  }

  /**
   The impl `Measure<t2> for t1` compiled in at pointer width `pw`: there is
   one exactly when both types are among the nine operand types, that is,
   neither is `u128` or `i128`.
   */
  function Resolve(pw: PointerWidth, t1: IntType, t2: IntType): (o: Option<Row>)
    ensures o.Some? <==> IsOperand(t1) && IsOperand(t2)
    ensures o.Some? ==> o.value in Table(pw) && o.value.ty1 == t1 && o.value.ty2 == t2
  {
    ExactlyOneImpl(pw, t1, t2);
    Find(Table(pw), t1, t2)
  }

  /** Every impl of the table is the one that resolution picks for its operand types. */
  lemma ResolveEveryImpl(pw: PointerWidth, r: Row)
    requires r in Table(pw)
    ensures Resolve(pw, r.ty1, r.ty2) == Some(r)
  {
    NotOperandAbsent(pw, r);
    var o := Resolve(pw, r.ty1, r.ty2);
    ExactlyOneImpl(pw, r.ty1, r.ty2);
    OnlyImpl(Table(pw), r, o.value);
  }

  /** No impl of the table mentions a 128-bit operand type. */
  lemma NotOperandAbsent(pw: PointerWidth, r: Row)
    requires r in Table(pw)
    ensures IsOperand(r.ty1) && IsOperand(r.ty2)
  {
    ExactlyOneImpl(pw, r.ty1, r.ty2);
    if !(IsOperand(r.ty1) && IsOperand(r.ty2)) {
      NoImplAbsent(Table(pw), r);
    }
  }

  /**
   The impl for the swapped operand types is the mirror of the impl for the
   original ones: the same intermediate and length types.
   */
  lemma ResolveMirror(pw: PointerWidth, t1: IntType, t2: IntType)
    requires IsOperand(t1) && IsOperand(t2)
    ensures Resolve(pw, t2, t1) == Some(Mirror(Resolve(pw, t1, t2).value))
  {
    var r := Resolve(pw, t1, t2).value;
    TableMirrorClosed(pw);
    ResolveEveryImpl(pw, Mirror(r));
  }

  /** The type `<T1 as Measure<T2>>::Len`. */
  function LenType(pw: PointerWidth, t1: IntType, t2: IntType): (l: IntType)
    requires IsOperand(t1) && IsOperand(t2)
    ensures exists r :: r in Table(pw) && r.ty1 == t1 && r.ty2 == t2 && r.len == l
  {
    Resolve(pw, t1, t2).value.len
  }

  /** `a.distance(&b)` for `a: t1` and `b: t2`: always the exact absolute difference. */
  function MeasureDistance(pw: PointerWidth, t1: IntType, t2: IntType, a: int, b: int): (d: int)
    requires IsOperand(t1) && IsOperand(t2)
    requires InRange(t1, pw, a) && InRange(t2, pw, b)
    ensures d == Abs(a - b)
    ensures InRange(LenType(pw, t1, t2), pw, d)
  {
    var r := Resolve(pw, t1, t2).value;
    TableDistanceExact(pw, r, a, b);
    Distance(r, pw, a, b)
  }

  /** `a.len()` for `a: t1` measured against `t2`: always one. */
  function MeasureLen(pw: PointerWidth, t1: IntType, t2: IntType, a: int): (n: int)
    requires IsOperand(t1) && IsOperand(t2)
    requires InRange(t1, pw, a)
    ensures n == 1
  {
    Len(Resolve(pw, t1, t2).value, pw, a)
  }

  /**
   `a.distance(&b) == b.distance(&a)`, computed by the two mirrored impls,
   which also agree on the length type.
   */
  lemma MeasureSymmetric(pw: PointerWidth, t1: IntType, t2: IntType, a: int, b: int)
    requires IsOperand(t1) && IsOperand(t2)
    requires InRange(t1, pw, a) && InRange(t2, pw, b)
    ensures MeasureDistance(pw, t1, t2, a, b) == MeasureDistance(pw, t2, t1, b, a)
    ensures LenType(pw, t1, t2) == LenType(pw, t2, t1)
  {
    ResolveMirror(pw, t1, t2);
    DistanceSymmetric(Resolve(pw, t1, t2).value, pw, a, b);
  }

  /** Distances along a line add up: for `a <= b <= c`, `d(a, c) == d(a, b) + d(b, c)`. */
  lemma MeasureAdditive(pw: PointerWidth, t: IntType, a: int, b: int, c: int)
    requires IsOperand(t)
    requires InRange(t, pw, a) && InRange(t, pw, b) && InRange(t, pw, c)
    requires a <= b <= c
    ensures MeasureDistance(pw, t, t, a, c) == MeasureDistance(pw, t, t, a, b) + MeasureDistance(pw, t, t, b, c)
  {
  }

  /** `5u8.distance(&10u8) == 5`. */
  lemma ExampleU8(pw: PointerWidth)
    ensures MeasureDistance(pw, U8, U8, 5, 10) == 5
  {
  }

  /** `(-5i8).distance(&10u8) == 15`. */
  lemma ExampleI8U8(pw: PointerWidth)
    ensures MeasureDistance(pw, I8, U8, -5, 10) == 15
  {
  }

  /** `<u8 as Measure<u8>>::Len` is `u16`: line 77. */
  lemma LenTypeU8(pw: PointerWidth)
    ensures LenType(pw, U8, U8) == U16
  {
    var invs := Invocations(pw);
    assert invs[0] == Refl(U8, U8, U16);
    assert Row(U8, U8, U8, U16) in Expand(invs[0]);
    ResolveEveryImpl(pw, Row(U8, U8, U8, U16));
  }

  /** `<i8 as Measure<u8>>::Len` is `u16`: the second impl of line 88. */
  lemma LenTypeI8U8(pw: PointerWidth)
    ensures LenType(pw, I8, U8) == U16
  {
    var invs := Invocations(pw);
    assert invs[11] == Both(U8, I8, I16, U16);
    assert Row(I8, U8, I16, U16) in Expand(invs[11]);
    ResolveEveryImpl(pw, Row(I8, U8, I16, U16));
  }

  /** The computation itself for `(-5i8).distance(&10u8)`: both cast to `i16`, `10 - (-5)`, cast to `u16`. */
  lemma DistanceExample(pw: PointerWidth)
    ensures Distance(Row(I8, U8, I16, U16), pw, -5, 10) == 15
  {
  }
}
