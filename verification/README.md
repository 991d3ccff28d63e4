# Integer and character distances of `Measure`

A Dafny model of `src/measure.rs`. That file defines the trait `Measure<U>`:
`a.distance(&b)` is the absolute separation of two scalar values and
`a.len()` is the size of one value. The model covers its integer and `char`
implementations:

- **Integer types** (`int_types.dfy`, module `IntTypes`). Each Rust integer
  type is a range of mathematical integers. `usize` takes its range from the
  platform's pointer width, which is a parameter (8, 16, 32 or 64 bits). The
  integer-to-integer `as` cast is a two's-complement wrap.
- **The macro body** (`int_measure.dfy`, module `IntMeasure`). Every impl
  `impl_measure!` generates does the same thing. It casts both operands into
  `$cast` and subtracts the smaller from the larger in `$cast`. It then casts
  the difference into `$len`. The casts wrap, as integer `as` does in every
  build; the subtraction is modelled with release-mode wrapping, where a
  debug build would panic instead. The lemmas show that nothing wraps when
  the row's types are wide enough, so a debug build never panics either.
- **The invocation table** (`impl_table.dfy`, module `ImplTable`). This
  covers every `@refl` and `@both` invocation on lines 77-184 and the impls
  they expand to. The proofs show that every generated impl has lossless
  casts, a subtraction that fits `$cast` and a `$len` that holds every
  distance, so `distance` is exact everywhere.
- **Coverage** (`coverage.dfy`, module `Coverage`). At every pointer width,
  every ordered pair of the nine operand types (`u8`, `u16`, `u32`, `u64`,
  `i8`, `i16`, `i32`, `i64` and `usize`) has exactly one impl, and a pair
  with `u128` or `i128` has none. `isize` is not a modelled type: the source
  gives it no impl.
- **Trait dispatch** (`dispatch.dfy`, module `Dispatch`). `a.distance(&b)`
  for `a: T1`, `b: T2` goes to the unique impl `Measure<T2> for T1`. At this
  level the model proves these properties for all operands:
  - the distance is `|a - b|`;
  - `len` is 1;
  - swapping the operands keeps both the value and the length type.
- **Characters** (`char_measure.dfy`, module `CharMeasure`). This is the
  `char` impl, with its special formula for characters on opposite sides of
  the surrogate range `0xD800..=0xDFFF`. A Dafny `char` is a Unicode scalar
  value, just like a Rust `char`.

Nothing from I/O or the environment is involved. The one configuration input
is `target_pointer_width`, and it becomes the `pw: PointerWidth` parameter.

## Model

| member | source | states |
|---|---|---|
| IntTypes.As | src/measure.rs:62-63 | `x as T` is a value of `T` congruent to `x` modulo `2^bits`, and it is `x` itself when `T` holds `x` |
| IntMeasure.Sub | src/measure.rs:66-68 | the subtraction in `$cast` yields a value of `$cast`, and it is the true difference whenever that fits |
| IntMeasure.Difference | src/measure.rs:65-69 | larger minus smaller in `$cast` is `|x - y|` whenever `$cast` holds it, and is always a value of `$cast` |
| IntMeasure.Distance | src/measure.rs:61-70 | `distance` returns a value of `$len`, and returns exactly `|a - b|` when the row's types are as wide as the macro's comments require |
| IntMeasure.Len | src/measure.rs:57-59 | `len` is 1 whatever the operand |
| IntMeasure.Safe | src/measure.rs:43-45 | the comments as bounds on a row: `$cast` contains both operand types, and both `$cast` and `$len` hold the largest distance between an operand of `$ty1` and one of `$ty2` |
| IntMeasure.SafeRowSteps | src/measure.rs:43-45 | on a row satisfying the comments, both casts into `$cast` are the identity, and `|a - b|` fits both `$cast` and `$len` |
| IntMeasure.DistanceSymmetric | src/measure.rs:49-52 | for any types, the two impls `@both` emits give the same value with the operands swapped |
| IntMeasure.DistanceIdentity | src/measure.rs:65-69 | the distance from a value to itself is 0 |
| IntMeasure.LenFitsIffExact | src/measure.rs:43-45 | with lossless casts and a subtraction that fits, the distance is exact for all operands if and only if `$len` holds the largest distance |
| IntMeasure.LenOverflowWitness | src/measure.rs:45 | if `$len` is too narrow, `distance` is wrong on one of the two extreme operand pairs (the maximum of `$ty1` with the minimum of `$ty2`, or the minimum of `$ty1` with the maximum of `$ty2`), so it is not exact everywhere |
| ImplTable.Expand | src/measure.rs:46-52 | `@refl` yields one impl and `@both` two; the first is the invocation's own, and the only other one is that impl with the operand types swapped, with the same `$cast` and `$len` |
| ImplTable.Rows | src/measure.rs:46-52 | an impl comes from a list of invocations exactly when one of those invocations expands to it |
| ImplTable.UsizeInvocations | src/measure.rs:113-184 | at each pointer width, nine `usize` invocations are compiled: one `@refl`, then one `@both` of `usize` with each of `u8, u16, u32, u64, i8, i16, i32, i64` in that order |
| ImplTable.Table | src/measure.rs:77-184 | the compiled impls are exactly each compiled invocation's own impl and its mirror |
| ImplTable.SafeWidthFree | src/measure.rs:77-112 | a row without `usize` satisfies the comments at every pointer width if and only if it does at 64 bits |
| ImplTable.SafeMirror | src/measure.rs:49-52 | the swapped impl of a `@both` satisfies the comments exactly when the original does |
| ImplTable.ReflFixedChecked | src/measure.rs:77-84 | each fixed-width `@refl` row has lossless casts, a subtraction that fits and a `$len` that holds every distance |
| ImplTable.BothU8Checked | src/measure.rs:85-91 | the same for every `@both` row pairing `u8` with a later type |
| ImplTable.BothU16Checked | src/measure.rs:92-97 | the same for the `u16` rows |
| ImplTable.BothU32Checked | src/measure.rs:98-102 | the same for the `u32` rows |
| ImplTable.BothU64Checked | src/measure.rs:103-106 | the same for the `u64` rows |
| ImplTable.BothI8Checked | src/measure.rs:107-109 | the same for the `i8` rows |
| ImplTable.BothI16Checked | src/measure.rs:110-111 | the same for the `i16` rows |
| ImplTable.BothI32Checked | src/measure.rs:112 | the same for the `i32`/`i64` row |
| ImplTable.FixedChecked | src/measure.rs:77-112 | every fixed-width invocation satisfies the comments |
| ImplTable.UsizeChecked8 | src/measure.rs:113-130 | every `usize` invocation compiled for 8-bit pointers satisfies the comments |
| ImplTable.UsizeChecked16 | src/measure.rs:131-148 | the same for 16-bit pointers |
| ImplTable.UsizeChecked32 | src/measure.rs:149-166 | the same for 32-bit pointers |
| ImplTable.UsizeChecked64 | src/measure.rs:167-184 | the same for 64-bit pointers |
| ImplTable.InvocationsSafe | src/measure.rs:77-184 | every invocation compiled at a pointer width satisfies the comments |
| ImplTable.RowsSafe | src/measure.rs:46-52 | if every invocation satisfies the comments, so does every impl it expands to |
| ImplTable.TableSafe | src/measure.rs:77-184 | every compiled impl has lossless casts, a subtraction that fits and a `$len` that holds every distance |
| ImplTable.TableDistanceExact | src/measure.rs:61-70 | for every compiled impl and all operands, nothing wraps: both casts into `$cast` keep the operands, `|a - b|` fits `$cast`, and `distance` is exactly `|a - b|` |
| ImplTable.RowsMirrorClosed | src/measure.rs:49-52 | for every impl an invocation list yields, the impl with swapped operand types is in the list too |
| ImplTable.TableMirrorClosed | src/measure.rs:77-184 | for every compiled impl `Measure<U> for T`, the impl `Measure<T> for U` is compiled too, with the same `$cast` and `$len` |
| ImplTable.ReflDomain | src/measure.rs:77-84 | a fixed-width `@refl` row's `$len` holds the number of values of its type if and only if the type is unsigned |
| ImplTable.UsizeReflDomain | src/measure.rs:113-184 | at every pointer width, the `usize` `@refl` row's `$len` holds the number of `usize` values |
| Coverage.DiagCount | src/measure.rs:46-48 | `@refl` over a list of types yields an impl of a type against itself once per occurrence of the type, and no other impl |
| Coverage.FanCount | src/measure.rs:49-52 | `@both` of `x` with a list of types yields, for each listed `y`, one impl for `(x, y)` and one for `(y, x)` |
| Coverage.RowsPositions | src/measure.rs:46-52 | the operand types of the impls an invocation list yields are exactly the ordered pairs its invocations name |
| Coverage.ImplCountPositions | src/measure.rs:54 | counting impls by operand types is the same as counting them by the types' positions |
| Coverage.ReflFixedKeys | src/measure.rs:77-84 | the `@refl` lines name each fixed-width type once, in order |
| Coverage.BothU8Keys | src/measure.rs:85-91 | the `u8` lines pair `u8` with each later fixed-width type once |
| Coverage.BothU16Keys | src/measure.rs:92-97 | the `u16` lines pair `u16` with each later type once |
| Coverage.BothU32Keys | src/measure.rs:98-102 | the `u32` lines pair `u32` with each later type once |
| Coverage.BothU64Keys | src/measure.rs:103-106 | the `u64` lines pair `u64` with each signed type once |
| Coverage.BothI8Keys | src/measure.rs:107-109 | the `i8` lines pair `i8` with each later type once |
| Coverage.BothI16Keys | src/measure.rs:110-111 | the `i16` lines pair `i16` with each later type once |
| Coverage.BothI32Keys | src/measure.rs:112 | the `i32` line pairs `i32` with `i64` |
| Coverage.KeysPrefixCount | src/measure.rs:77-112 | after the `@refl` lines and the first `n` groups of `@both` lines, each type has met itself, and each pair of distinct types with one of the first `n` types has met once in each order |
| Coverage.FixedCount | src/measure.rs:77-112 | every ordered pair of fixed-width types has exactly one impl among the fixed-width invocations |
| Coverage.UsizeKeys8 | src/measure.rs:113-130 | at 8-bit pointers, the `usize` lines name `usize` once alone and pair it with each fixed-width type once |
| Coverage.UsizeKeys16 | src/measure.rs:131-148 | the same at 16-bit pointers |
| Coverage.UsizeKeys32 | src/measure.rs:149-166 | the same at 32-bit pointers |
| Coverage.UsizeKeys64 | src/measure.rs:167-184 | the same at 64-bit pointers |
| Coverage.UsizeCount | src/measure.rs:113-184 | at every pointer width, the `usize` lines give one impl of `usize` against itself and one for each order of `usize` with each fixed-width type |
| Coverage.InvocationsCount | src/measure.rs:77-184 | every ordered pair of the nine operand types is named exactly once by the invocations compiled at a pointer width |
| Coverage.ExactlyOneImpl | src/measure.rs:77-184 | at every pointer width, each ordered pair of the nine operand types (`u8` to `i64`, `usize`) has exactly one impl, and a pair with `u128` or `i128` has none |
| Dispatch.Find | src/measure.rs:54 | the lookup finds an impl for `(t1, t2)` exactly when the list has one, and what it finds is such an impl from the list |
| Dispatch.Resolve | src/measure.rs:77-184 | an impl `Measure<t2> for t1` exists exactly when both types are among the nine operand types (neither is `u128` or `i128`), and it is in the compiled table |
| Dispatch.ResolveEveryImpl | src/measure.rs:77-184 | every compiled impl is the one chosen for its operand types, since no pair has two impls |
| Dispatch.ResolveMirror | src/measure.rs:49-52 | the impl for the swapped operand types is the mirror of the impl for the original ones |
| Dispatch.LenType | src/measure.rs:55 | `Len` is the `$len` of the compiled impl for the two types |
| Dispatch.MeasureDistance | src/measure.rs:15 | for every supported pair of types and all operands, `a.distance(&b)` is `|a - b|` and fits the impl's `Len` |
| Dispatch.MeasureLen | src/measure.rs:12 | `a.len()` is 1 for every supported pair of types and every operand |
| Dispatch.MeasureSymmetric | src/measure.rs:49-52 | `a.distance(&b) == b.distance(&a)`, and both directions use the same `Len` type |
| Dispatch.MeasureAdditive | src/measure.rs:61-70 | for `a <= b <= c` of one type, the distance from `a` to `c` is the sum of the distances from `a` to `b` and from `b` to `c` |
| Dispatch.ExampleU8 | src/measure.rs:77 | `5u8.distance(&10u8) == 5` |
| Dispatch.ExampleI8U8 | src/measure.rs:88 | `(-5i8).distance(&10u8) == 15` |
| Dispatch.LenTypeU8 | src/measure.rs:77 | `<u8 as Measure<u8>>::Len` is `u16` |
| Dispatch.LenTypeI8U8 | src/measure.rs:88 | `<i8 as Measure<u8>>::Len` is `u16` |
| Dispatch.DistanceExample | src/measure.rs:88 | the impl `Measure<u8> for i8` computes 15 for `-5` and `10`: both are cast to `i16`, subtracted, and cast to `u16` |
| CharMeasure.SubU64 | src/measure.rs:34-36 | `u64` subtraction yields a `u64`, and it is the true difference whenever that fits |
| CharMeasure.AddU64 | src/measure.rs:34 | `u64` addition yields a `u64`, and it is the true sum whenever that fits |
| CharMeasure.Code | src/measure.rs:26-27 | `c as u64` is a code point outside the surrogate range |
| CharMeasure.Ordered | src/measure.rs:29-31 | after the swap the smaller code point comes first, and the pair is the two inputs in some order |
| CharMeasure.Straddles | src/measure.rs:33 | the range test after the swap holds exactly when one character is at most `0xD7FF` and the other at least `0xE000`, in either order |
| CharMeasure.Distance | src/measure.rs:25-38 | the result is a `u64`, and it is the distance between the two code points after every code point above the surrogate range is moved up by `0x800` |
| CharMeasure.Len | src/measure.rs:21-23 | `len` is 1 whatever the character |
| CharMeasure.GapBranchNoWrap | src/measure.rs:33-34 | in the branch across the surrogate range, neither `u64` subtraction underflows and the sum does not overflow |
| CharMeasure.DistanceCases | src/measure.rs:33-37 | across the surrogate range the distance is the numeric difference plus `0x800`; otherwise it is the numeric difference |
| CharMeasure.DistanceSymmetric | src/measure.rs:29-31 | `a.distance(&b) == b.distance(&a)` |
| CharMeasure.DistanceZero | src/measure.rs:29-37 | the distance is 0 if and only if the two characters are equal |
| CharMeasure.DistanceAdditive | src/measure.rs:33-37 | for characters `a <= b <= c`, the distance from `a` to `c` is the sum of the distances from `a` to `b` and from `b` to `c` |
| CharMeasure.DistanceExamples | src/measure.rs:33-36 | `'\u{D7FF}'.distance(&'\u{E000}') == 4097` and `'A'.distance(&'C') == 2` |
| CharMeasure.GapFreeDistance | src/measure.rs:33-34 | with `0xe000` in the formula, the distance is the number of scalar values between the two characters, and it is a `u64` |
| CharMeasure.Next | src/measure.rs:33 | the next character after `c` is greater than `c`, with no character strictly between them |
| CharMeasure.GapFreeStep | src/measure.rs:33-34 | with the corrected constant, consecutive characters are 1 apart, across the surrogate range too |
| CharMeasure.AsWrittenStep | src/measure.rs:33-34 | as written, consecutive characters are 1 apart except `'\u{D7FF}'` and `'\u{E000}'`, which are `0x1001` apart |
| CharMeasure.GapFreeAdditive | src/measure.rs:33-37 | the corrected distance adds up along increasing characters |
| CharMeasure.GapFreeMetric | src/measure.rs:29-37 | the corrected distance is symmetric, and it is 0 only on equal characters |
| CharMeasure.FormulasDiffer | src/measure.rs:33-37 | across the surrogate range the written formula is `0x1000` larger than the corrected one; elsewhere the two agree |
| CharMeasure.NeighboursAcrossGap | src/measure.rs:33-34 | `'\u{E000}'` comes right after `'\u{D7FF}'`, yet the written distance between them is `0x1001`; the corrected distance is 1 |

Note on line 45: that comment says `$len` "can handle the size of the entire
domain of `$ty`". Taken literally, this is false for the signed `@refl` rows.
For example, `i8` has 256 values, but its `$len` is `u8`. `ImplTable.ReflDomain`
records this. What the code needs, and what `ImplTable.TableSafe` proves, is
weaker: `$len` holds the largest distance, which is one less than the number
of values.

## Left out

- The floating-point impls (`impl_f_measure!` for `f32` and `f64`, lines 186-214): IEEE-754 arithmetic and infinities are outside this integer model.
- The `ordered-float` impls for `NotNan<f32>` and `NotNan<f64>` (lines 216-234): floating point again, and an optional dependency.
- The bounds on `Measure::Len` (`Default + Add + Sub + PartialEq`, line 9): every modelled `Len` is an integer type, which meets them. No property of that algebra is stated.
- The script `generate-measures.rb`, which produced lines 77-184: it is not part of this model, and the model checks its output instead.
- `#[cfg(target_pointer_width = ...)]` (lines 113-183): conditional compilation becomes the `PointerWidth` parameter. Pointer widths other than 8, 16, 32 and 64 have no `usize` impl in the source and are not modelled.
- `isize`: the source has no `Measure` impl for it, so `IntType` leaves it out, and the coverage results speak of the nine operand types and the two 128-bit types only.
- Debug-build overflow panics: integer `as` casts wrap in every build and are modelled so. Only the subtraction in `$cast` (lines 66 and 68) and the `u64` arithmetic of the `char` impl (lines 34 and 36) would panic on overflow in a debug build. The model makes them wrap as in a release build, and the lemmas prove that no compiled impl ever overflows, so the panics cannot happen.
- The trait declaration itself (lines 8-16) is not a separate member. `Dispatch.MeasureDistance`, `Dispatch.MeasureLen` and `Dispatch.LenType` model its two methods and its associated type.

## Findings

| source | as written | input that shows it | evidently intended | confidence | as-written member | corrected member |
|---|---|---|---|---|---|---|
| src/measure.rs:34 | across the surrogate range, `(b - 0xd000 + 1) + (0xd7ff - a)`, which is `(b - a) + 0x800`, so it adds the `0x800` surrogates where it should subtract them | `'\u{D7FF}'.distance(&'\u{E000}')` is 4097, yet the two characters are neighbours | `(b - 0xe000 + 1) + (0xd7ff - a)`, which is `(b - a) - 0x800`, the number of scalar values between the two characters | medium (not executed) | CharMeasure.Distance | CharMeasure.GapFreeDistance |

`CharMeasure.Distance` keeps the literal formula because it is what the code
computes. The impl's own properties (symmetry, zero exactly on equal
characters, additivity, `len` of 1) are proved for it. They are proved for
`CharMeasure.GapFreeDistance` too. `CharMeasure.FormulasDiffer` and
`CharMeasure.NeighboursAcrossGap` state the difference between the two.
