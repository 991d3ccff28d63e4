/**
 The invocations cover every ordered pair of operand types exactly once: each
 fixed-width type against itself (`@refl`), each unordered pair of distinct
 fixed-width types once (`@both`, which yields both orders), and `usize`
 against itself and against every fixed-width type.

 Types are counted by their position in the order the invocations enumerate
 them, so that the counting is arithmetic on positions.
 */
module Coverage {
  import opened IntTypes
  import opened IntMeasure
  import opened ImplTable

  /**
   Position of a type in the order the invocations enumerate the fixed-width
   types (`u8, u16, u32, u64, i8, i16, i32, i64`), `usize` after them and the
   128-bit types, which have no impl, last.
   */
  function Idx(t: IntType): nat
  {
    match t
    case U8 => 0
    case U16 => 1
    case U32 => 2
    case U64 => 3
    case I8 => 4
    case I16 => 5
    case I32 => 6
    case I64 => 7
    case USize => 8
    case U128 => 9
    case I128 => 10
  }

  lemma IdxInjective(t: IntType, u: IntType)
    ensures Idx(t) == Idx(u) <==> t == u
  {
  }

  lemma OperandPosition(t: IntType)
    ensures IsOperand(t) <==> Idx(t) <= 8
  {
  }

  // ---------------------------------------------------------------------
  // Counting keys of invocations

  /** The operand positions an invocation names: one for `@refl`, two for `@both`. */
  datatype Key = Same(i: nat) | Pair(i: nat, j: nat)

  /** How many impls for the ordered pair of positions `(i, j)` an invocation with key `k` produces. */
  function Weight(k: Key, i: nat, j: nat): nat
  {
    match k
    case Same(x) => if x == i && x == j then 1 else 0
    case Pair(x, y) => (if x == i && y == j then 1 else 0) + (if y == i && x == j then 1 else 0)
  }

  function KeyCount(keys: seq<Key>, i: nat, j: nat): nat
  {
    if keys == [] then 0 else Weight(keys[0], i, j) + KeyCount(keys[1..], i, j)
  }

  lemma KeyCountCons(k: Key, keys: seq<Key>, i: nat, j: nat)
    ensures KeyCount([k] + keys, i, j) == Weight(k, i, j) + KeyCount(keys, i, j)
  {
    assert ([k] + keys)[1..] == keys;
  }

  lemma {:induction false} KeyCountAppend(a: seq<Key>, b: seq<Key>, i: nat, j: nat)
    ensures KeyCount(a + b, i, j) == KeyCount(a, i, j) + KeyCount(b, i, j)
  {
    if a != [] {
      assert a + b == [a[0]] + (a[1..] + b);
      KeyCountCons(a[0], a[1..] + b, i, j);
      KeyCountAppend(a[1..], b, i, j);
    } else {
      assert a + b == b;
    }
  }

  /** The number of occurrences of `i` in `xs`. */
  function Occurrences(xs: seq<nat>, i: nat): nat
  {
    if xs == [] then 0 else (if xs[0] == i then 1 else 0) + Occurrences(xs[1..], i)
  }

  /** `@refl` for every position of `xs`. */
  function Diag(xs: seq<nat>): seq<Key>
  {
    if xs == [] then [] else [Same(xs[0])] + Diag(xs[1..])
  }

  /** `@both` of `x` with every position of `ys`. */
  function Fan(x: nat, ys: seq<nat>): seq<Key>
  {
    if ys == [] then [] else [Pair(x, ys[0])] + Fan(x, ys[1..])
  }

  /** `@refl` over `xs` yields one impl of a type against itself per occurrence of the type. */
  lemma {:induction false} DiagCount(xs: seq<nat>, i: nat, j: nat)
    ensures KeyCount(Diag(xs), i, j) == if i == j then Occurrences(xs, i) else 0
  {
    if xs != [] {
      KeyCountCons(Same(xs[0]), Diag(xs[1..]), i, j);
      DiagCount(xs[1..], i, j);
    }
  }

  /** `@both` of `x` with each position of `ys` yields an impl for each order of each pair. */
  lemma {:induction false} FanCount(x: nat, ys: seq<nat>, i: nat, j: nat)
    ensures KeyCount(Fan(x, ys), i, j)
         == (if i == x then Occurrences(ys, j) else 0) + (if j == x then Occurrences(ys, i) else 0)
  {
    if ys != [] {
      KeyCountCons(Pair(x, ys[0]), Fan(x, ys[1..]), i, j);
      FanCount(x, ys[1..], i, j);
    }
  }

  /** The ordered pairs an invocation with key `k` yields impls for. */
  function Orders(k: Key): seq<(nat, nat)>
  {
    match k
    case Same(x) => [(x, x)]
    case Pair(x, y) => [(x, y), (y, x)]
  }

  function AllOrders(keys: seq<Key>): seq<(nat, nat)>
  {
    if keys == [] then [] else Orders(keys[0]) + AllOrders(keys[1..])
  }

  /** The number of occurrences of the ordered pair `(i, j)` in `ps`. */
  function PairCount(ps: seq<(nat, nat)>, i: nat, j: nat): nat
  {
    if ps == [] then 0 else (if ps[0] == (i, j) then 1 else 0) + PairCount(ps[1..], i, j)
  }

  lemma {:induction false} PairCountAppend(a: seq<(nat, nat)>, b: seq<(nat, nat)>, i: nat, j: nat)
    ensures PairCount(a + b, i, j) == PairCount(a, i, j) + PairCount(b, i, j)
  {
    if a != [] {
      assert (a + b)[1..] == a[1..] + b;
      PairCountAppend(a[1..], b, i, j);
    } else {
      assert a + b == b;
    }
  }

  /** A key's weight is the number of its ordered pairs that are `(i, j)`. */
  lemma {:induction false} OrdersCount(keys: seq<Key>, i: nat, j: nat)
    ensures PairCount(AllOrders(keys), i, j) == KeyCount(keys, i, j)
  {
    if keys != [] {
      var ps: seq<(nat, nat)> := Orders(keys[0]);
      PairCountAppend(ps, AllOrders(keys[1..]), i, j);
      assert |ps[1..]| == 0 || |ps[1..][1..]| == 0;
      OrdersCount(keys[1..], i, j);
    }
  }

  /** The positions from `k` up to the last fixed-width type, in order. */
  function From(k: nat): (xs: seq<nat>)
    ensures forall i :: Occurrences(xs, i) == if k <= i < 8 then 1 else 0
    decreases 8 - k
  {
    if k >= 8 then []
    else
      var xs := [k] + From(k + 1);
      assert xs[1..] == From(k + 1);
      xs
  }

  // ---------------------------------------------------------------------
  // From impls to keys

  /** The number of impls `Measure<t2> for t1` in `rows`. */
  function ImplCount(rows: seq<Row>, t1: IntType, t2: IntType): nat
  {
    if rows == [] then 0
    else (if rows[0].ty1 == t1 && rows[0].ty2 == t2 then 1 else 0) + ImplCount(rows[1..], t1, t2)
  }

  /** The positions of the operand types `(Self, U)` of each impl `Measure<U> for Self`. */
  function Positions(rows: seq<Row>): (ps: seq<(nat, nat)>)
    ensures |ps| == |rows|
  {
    if rows == [] then [] else [(Idx(rows[0].ty1), Idx(rows[0].ty2))] + Positions(rows[1..])
  }

  /** Counting impls by type is counting them by position. */
  lemma {:induction false} ImplCountPositions(rows: seq<Row>, t1: IntType, t2: IntType)
    ensures ImplCount(rows, t1, t2) == PairCount(Positions(rows), Idx(t1), Idx(t2))
  {
    if rows != [] {
      ImplCountPositions(rows[1..], t1, t2);
      IdxInjective(rows[0].ty1, t1);
      IdxInjective(rows[0].ty2, t2);
      assert Positions(rows)[1..] == Positions(rows[1..]);
    }
  }

  function KeyOf(inv: Invocation): Key
  {
    match inv
    case Refl(t, _, _) => Same(Idx(t))
    case Both(t1, t2, _, _) => Pair(Idx(t1), Idx(t2))
  }

  function Keys(invs: seq<Invocation>): (keys: seq<Key>)
    ensures |keys| == |invs|
  {
    if invs == [] then [] else [KeyOf(invs[0])] + Keys(invs[1..])
  }

  lemma {:induction false} KeysAppend(a: seq<Invocation>, b: seq<Invocation>)
    ensures Keys(a + b) == Keys(a) + Keys(b)
  {
    if a != [] {
      assert (a + b)[1..] == a[1..] + b;
      KeysAppend(a[1..], b);
    } else {
      assert a + b == b;
    }
  }

  lemma {:induction false} PositionsAppend(a: seq<Row>, b: seq<Row>)
    ensures Positions(a + b) == Positions(a) + Positions(b)
  {
    if a != [] {
      assert (a + b)[1..] == a[1..] + b;
      PositionsAppend(a[1..], b);
    } else {
      assert a + b == b;
    }
  }

  /** The impls of the invocations are those their keys promise. */
  lemma {:induction false} RowsPositions(invs: seq<Invocation>)
    ensures Positions(Rows(invs)) == AllOrders(Keys(invs))
  {
    if invs != [] {
      var rows := Expand(invs[0]);
      PositionsAppend(rows, Rows(invs[1..]));
      assert rows[1..] == [] || rows[1..][1..] == [];
      RowsPositions(invs[1..]);
    }
  }

  // ---------------------------------------------------------------------
  // The keys of the source's invocations

  /** Lines 77-84 name each fixed-width type once with `@refl`. */
  lemma ReflFixedKeys()
    ensures Keys(ReflFixed) == Diag(From(0))
  {
  }

  // Lines 85-112 pair each fixed-width type with every later one, one group
  // of lines per type.

  /** Lines 85-91 pair `u8` with each later type once. */
  lemma BothU8Keys()
    ensures Keys(BothU8) == Fan(0, From(1))
  {
  }

  lemma BothU16Keys()
    ensures Keys(BothU16) == Fan(1, From(2))
  {
  }

  lemma BothU32Keys()
    ensures Keys(BothU32) == Fan(2, From(3))
  {
  }

  lemma BothU64Keys()
    ensures Keys(BothU64) == Fan(3, From(4))
  {
  }

  lemma BothI8Keys()
    ensures Keys(BothI8) == Fan(4, From(5))
  {
  }

  lemma BothI16Keys()
    ensures Keys(BothI16) == Fan(5, From(6))
  {
  }

  lemma BothI32Keys()
    ensures Keys(BothI32) == Fan(6, From(7))
  {
  }

  lemma FixedKeys()
    ensures Keys(FixedInvocations)
         == Diag(From(0)) + Fan(0, From(1)) + Fan(1, From(2)) + Fan(2, From(3))
          + Fan(3, From(4)) + Fan(4, From(5)) + Fan(5, From(6)) + Fan(6, From(7))
  {
    ReflFixedKeys();
    BothU8Keys();
    BothU16Keys();
    BothU32Keys();
    BothU64Keys();
    BothI8Keys();
    BothI16Keys();
    BothI32Keys();
    KeysAppend(ReflFixed, BothU8);
    KeysAppend(ReflFixed + BothU8, BothU16);
    KeysAppend(ReflFixed + BothU8 + BothU16, BothU32);
    KeysAppend(ReflFixed + BothU8 + BothU16 + BothU32, BothU64);
    KeysAppend(ReflFixed + BothU8 + BothU16 + BothU32 + BothU64, BothI8);
    KeysAppend(ReflFixed + BothU8 + BothU16 + BothU32 + BothU64 + BothI8, BothI16);
    KeysAppend(ReflFixed + BothU8 + BothU16 + BothU32 + BothU64 + BothI8 + BothI16, BothI32);
  }

  /** The keys of the `@refl` invocations followed by the first `n` groups of `@both` invocations. */
  function KeysPrefix(n: nat): seq<Key>
    requires n <= 7
  {
    if n == 0 then Diag(From(0)) else KeysPrefix(n - 1) + Fan(n - 1, From(n))
  }

  /** The count each prefix of the fixed invocations reaches, as a function of positions. */
  function PrefixCovered(n: nat, i: nat, j: nat): nat
  {
    if i < 8 && j < 8 && (i == j || i < n || j < n) then 1 else 0
  }

  /**
   After the first `n` groups, each fixed-width type has been paired with
   itself, and each pair of distinct types whose earlier position is below
   `n` has been covered, once in each order.
   */
  lemma {:induction false} KeysPrefixCount(n: nat, i: nat, j: nat)
    requires n <= 7
    ensures KeyCount(KeysPrefix(n), i, j) == PrefixCovered(n, i, j)
  {
    if n == 0 {
      DiagCount(From(0), i, j);
    } else {
      var k := n - 1;
      KeysPrefixCount(k, i, j);
      AddFan(KeysPrefix(k), k, i, j);
    }
  }

  /** Appending the fan of position `k` adds the pairs of `k` with every later position, in both orders. */
  lemma AddFan(keys: seq<Key>, k: nat, i: nat, j: nat)
    ensures KeyCount(keys + Fan(k, From(k + 1)), i, j)
         == KeyCount(keys, i, j) + (if i == k && k < j < 8 then 1 else 0) + (if j == k && k < i < 8 then 1 else 0)
  {
    KeyCountAppend(keys, Fan(k, From(k + 1)), i, j);
    FanCount(k, From(k + 1), i, j);
  }

  /** Each ordered pair of fixed-width positions has exactly one key among the fixed invocations. */
  lemma FixedCount(i: nat, j: nat)
    ensures KeyCount(Keys(FixedInvocations), i, j) == if i < 8 && j < 8 then 1 else 0
  {
    FixedIsPrefix();
    KeysPrefixCount(7, i, j);
  }

  lemma KeysPrefixSeven()
    ensures KeysPrefix(7)
         == Diag(From(0)) + Fan(0, From(1)) + Fan(1, From(2)) + Fan(2, From(3))
          + Fan(3, From(4)) + Fan(4, From(5)) + Fan(5, From(6)) + Fan(6, From(7))
  {
  }

  lemma FixedIsPrefix()
    ensures Keys(FixedInvocations) == KeysPrefix(7)
  {
    FixedKeys();
    KeysPrefixSeven();
  }

  /** Lines 113-184: at every pointer width, `usize` against itself and against each fixed-width type. */
  lemma UsizeKeys8()
    ensures Keys(UsizeInvocations(W8)) == [Same(8)] + Fan(8, From(0))
  {
  }

  lemma UsizeKeys16()
    ensures Keys(UsizeInvocations(W16)) == [Same(8)] + Fan(8, From(0))
  {
  }

  lemma UsizeKeys32()
    ensures Keys(UsizeInvocations(W32)) == [Same(8)] + Fan(8, From(0))
  {
  }

  lemma UsizeKeys64()
    ensures Keys(UsizeInvocations(W64)) == [Same(8)] + Fan(8, From(0))
  {
  }

  /** `usize` against itself and against each fixed-width type, once, at every pointer width. */
  lemma UsizeCount(pw: PointerWidth, i: nat, j: nat)
    ensures KeyCount(Keys(UsizeInvocations(pw)), i, j)
         == (if i == 8 && j == 8 then 1 else 0) + (if i == 8 && j < 8 then 1 else 0) + (if j == 8 && i < 8 then 1 else 0)
  {
    var keys := [Same(8)] + Fan(8, From(0));
    assert Keys(UsizeInvocations(pw)) == keys by {
      match pw {
        case W8 => UsizeKeys8();
        case W16 => UsizeKeys16();
        case W32 => UsizeKeys32();
        case W64 => UsizeKeys64();
      }
    }
    KeyCountCons(Same(8), Fan(8, From(0)), i, j);
    FanCount(8, From(0), i, j);
  }

  /** Each ordered pair of positions up to that of `usize` has exactly one key. */
  lemma InvocationsCount(pw: PointerWidth, i: nat, j: nat)
    ensures KeyCount(Keys(Invocations(pw)), i, j) == if i <= 8 && j <= 8 then 1 else 0
  {
    KeysAppend(FixedInvocations, UsizeInvocations(pw));
    KeyCountAppend(Keys(FixedInvocations), Keys(UsizeInvocations(pw)), i, j);
    FixedCount(i, j);
    UsizeCount(pw, i, j);
  }

  /**
   At every pointer width, every ordered pair of the nine operand types
   (`u8` to `i64` and `usize`) has exactly one impl `Measure<t2> for t1`,
   and a pair with `u128` or `i128` has none. (`isize` has no impl and is
   not one of the modelled types.)
   */
  lemma ExactlyOneImpl(pw: PointerWidth, t1: IntType, t2: IntType)
    ensures ImplCount(Table(pw), t1, t2) == if IsOperand(t1) && IsOperand(t2) then 1 else 0
  {
    var i, j := Idx(t1), Idx(t2);
    ImplCountPositions(Table(pw), t1, t2);
    RowsPositions(Invocations(pw));
    OrdersCount(Keys(Invocations(pw)), i, j);
    InvocationsCount(pw, i, j);
    OperandPosition(t1);
    OperandPosition(t2);
  }
}
