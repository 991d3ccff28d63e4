/**
 Rust's primitive integer types as ranges of mathematical integers, and the
 integer-to-integer `as` cast as a two's-complement wrap into such a range.

 `usize` has the platform's pointer width, which is a parameter here rather
 than a compile-time configuration.
 */
module IntTypes {

  /** Bit widths of Rust's integer types. */
  datatype Width = W8 | W16 | W32 | W64 | W128

  /** The widths `target_pointer_width` may take. */
  type PointerWidth = w: Width | w != W128 witness W64

  /** The integer types that occur as operands, intermediates or lengths. */
  datatype IntType = U8 | U16 | U32 | U64 | U128 | USize | I8 | I16 | I32 | I64 | I128

  /** The number of bit patterns of a width: the modulus of its arithmetic. */
  function Modulus(w: Width): (m: nat)
    ensures m >= 0x100 && m % 2 == 0
  {
    match w
    case W8 => 0x100
    case W16 => 0x1_0000
    case W32 => 0x1_0000_0000
    case W64 => 0x1_0000_0000_0000_0000
    case W128 => 0x1_0000_0000_0000_0000_0000_0000_0000_0000
  }

  function WidthOf(t: IntType, pw: PointerWidth): Width
  {
    match t
    case U8 => W8
    case I8 => W8
    case U16 => W16
    case I16 => W16
    case U32 => W32
    case I32 => W32
    case U64 => W64
    case I64 => W64
    case U128 => W128
    case I128 => W128
    case USize => pw
  }

  predicate Signed(t: IntType)
  {
    t.I8? || t.I16? || t.I32? || t.I64? || t.I128?
  }

  /** Least value of a width: `0` when unsigned, `-2^(bits-1)` when signed. */
  function Lowest(w: Width, signed: bool): int
  {
    if signed then -(Modulus(w) / 2) else 0
  }

  function Highest(w: Width, signed: bool): int
  {
    Lowest(w, signed) + Modulus(w) - 1
  }

  predicate Fits(x: int, w: Width, signed: bool)
  {
    Lowest(w, signed) <= x <= Highest(w, signed)
  }

  // The bounds of each type, written out as literals. `Lowest` and `Highest`
  // give the same bounds from a width and a signedness (`BoundsOfType`),
  // which is the form `Wrap` needs; the literal tables are the form the
  // table of impls is checked against, where every bound is a constant the
  // verifier compares directly rather than half of a power of two.

  /** Least value of type `t`. */
  function MinValue(t: IntType, pw: PointerWidth): int
  {
    match t
    case I8 => -0x80
    case I16 => -0x8000
    case I32 => -0x8000_0000
    case I64 => -0x8000_0000_0000_0000
    case I128 => -0x8000_0000_0000_0000_0000_0000_0000_0000
    case _ => 0
  }

  /** Greatest value of type `t`. */
  function MaxValue(t: IntType, pw: PointerWidth): int
  {
    match t
    case U8 => 0xFF
    case U16 => 0xFFFF
    case U32 => 0xFFFF_FFFF
    case U64 => 0xFFFF_FFFF_FFFF_FFFF
    case U128 => 0xFFFF_FFFF_FFFF_FFFF_FFFF_FFFF_FFFF_FFFF
    case USize => Modulus(pw) - 1
    case I8 => 0x7F
    case I16 => 0x7FFF
    case I32 => 0x7FFF_FFFF
    case I64 => 0x7FFF_FFFF_FFFF_FFFF
    case I128 => 0x7FFF_FFFF_FFFF_FFFF_FFFF_FFFF_FFFF_FFFF
  }

  /** The bounds of a type are those of its width and signedness. */
  lemma BoundsOfType(t: IntType, pw: PointerWidth)
    ensures MinValue(t, pw) == Lowest(WidthOf(t, pw), Signed(t))
    ensures MaxValue(t, pw) == Highest(WidthOf(t, pw), Signed(t))
  {
  }

  /** Zero and one are values of every type. */
  lemma ZeroInRange(t: IntType, pw: PointerWidth)
    ensures MinValue(t, pw) <= 0 < MaxValue(t, pw)
  {
  }

  /** `x` is a value of type `t` on a platform of pointer width `pw`. */
  predicate InRange(t: IntType, pw: PointerWidth, x: int)
  {
    MinValue(t, pw) <= x <= MaxValue(t, pw)
  }

  /** A multiple of `m` strictly between `-m` and `m` is zero. */
  lemma SmallMultipleIsZero(q: int, m: int)
    requires m > 0
    requires -m < q * m < m
    ensures q == 0
  {
    if q >= 1 {
      MultipleAtLeast(q, m);
    } else if q <= -1 {
      MultipleAtLeast(-q, m);
    }
  }

  lemma MultipleAtLeast(q: int, m: int)
    requires q >= 1 && m > 0
    ensures q * m >= m
  {
  }

  /** Euclidean remainder of a multiple is zero. */
  lemma ModOfMultiple(k: int, m: int)
    requires m > 0
    ensures (k * m) % m == 0
  {
    var q, r := (k * m) / m, (k * m) % m;
    assert (k - q) * m == r;
    SmallMultipleIsZero(k - q, m);
  }

  /**
   Two's-complement wrap of a mathematical integer into a width: the bit
   pattern's low `bits` bits read back as signed or unsigned. The result is the
   unique value of the width that is congruent to `x` modulo `2^bits`, so it
   leaves values the width already holds unchanged.
   */
  function Wrap(x: int, w: Width, signed: bool): (r: int)
    ensures Fits(r, w, signed)
    ensures (x - r) % Modulus(w) == 0
    ensures Fits(x, w, signed) ==> r == x
  {
    var m := Modulus(w);
    var lo := Lowest(w, signed);
    var r := lo + (x - lo) % m;
    assert x - r == ((x - lo) / m) * m;
    ModOfMultiple((x - lo) / m, m);
    r
  }

  /** Rust's `x as t` between integer types. */
  function As(x: int, t: IntType, pw: PointerWidth): (r: int)
    ensures InRange(t, pw, r)
    ensures (x - r) % Modulus(WidthOf(t, pw)) == 0
    ensures InRange(t, pw, x) ==> r == x
  {
    BoundsOfType(t, pw);
    Wrap(x, WidthOf(t, pw), Signed(t))
  }

  /** Two values of one width that are congruent modulo its modulus are equal. */
  lemma WrapUnique(x: int, y: int, w: Width, signed: bool)
    requires Fits(x, w, signed) && Fits(y, w, signed)
    requires (x - y) % Modulus(w) == 0
    ensures x == y
  {
    var m := Modulus(w);
    var q := (x - y) / m;
    assert x - y == q * m;
    SmallMultipleIsZero(q, m);
  }

  /** `as` truncates: `300 as u8 == 44` and `200 as i8 == -56`. */
  lemma AsTruncates(pw: PointerWidth)
    ensures As(300, U8, pw) == 44
    ensures As(200, I8, pw) == -56
    ensures As(-1, U64, pw) == 0xFFFF_FFFF_FFFF_FFFF
  {
    WrapUnique(As(300, U8, pw), 44, W8, false);
    WrapUnique(As(200, I8, pw), -56, W8, true);
    WrapUnique(As(-1, U64, pw), 0xFFFF_FFFF_FFFF_FFFF, W64, false);
  }
}
