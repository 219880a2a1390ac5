# Exact fractions of the `calc` calculator, in Dafny

This project models `Rationals`, the calculator's exact-fraction type
(`src/exact_math/rationals.rs`), and proves properties of it. A value has two
signed 64-bit fields: `under` is the denominator and `over` the numerator.
Nothing is checked when a value is built, so unreduced forms and a zero
`under` are legal. The operations are:

- `new(under, over)`: builds a value; the argument order is kept.
- `put_to_denominator(n)`: multiplies both fields by `n`.
- `reduce`: maps zero components to sentinels and otherwise divides both
  fields by their gcd.
- the hand-written `PartialEq` (`eq`, `ne`) and `PartialOrd` (`partial_cmp`,
  `le`, `ge`), plus Rust's default `lt` and `gt`.

The model follows the code as written, including three places where it differs
from textbook fraction arithmetic:

- `partial_cmp` compares the raw numerators when the `under`s differ. It only
  scales both sides when the `under`s are already equal.
- `reduce` drops the sign of a mixed-sign input. The result equals the input's
  absolute value.
- `reduce` maps every nonzero-over-zero fraction to the positive infinity
  sentinel `{under: 1, over: i64::MAX}`, whatever the numerator's sign.

The datatype `ExactMath.Rationals` models the struct at
`src/exact_math/rationals.rs:4-7`: the fields `under` then `over`, with no
invariant.

Files:

- `integer_utils.dfy` (module `IntegerUtils`): the `i64` range and a gcd.
- `rationals.dfy` (module `ExactMath`): the type, its operations and their laws.
- `rationals_test.dfy` (module `RationalsTest`): the source's unit tests, as lemmas.

Modelling decisions:

- **Overflow.** Rust's `i64` becomes a `newtype` over the 64-bit range. Each
  multiplication and negation in the source carries a precondition that it
  stays in that range: `ScaleDefined`, `EqDefined`, `CmpDefined` and
  `ReduceDefined`. `ReduceDefined` also excludes `{i64::MIN, i64::MIN}`, the
  one input on which the gcd `reduce` divides by (2^63) is not an `i64`;
  `ReduceGcdFits` proves that it is one on every other input. So the overflow
  cases are excluded, not modelled. `le` and
  `ge` need `eq`'s precondition only when `lt` or `gt` is false, because `||`
  evaluates its right side only then.
- **gcd.** The crate's `utils::integer_utils::gcd` is not part of this model.
  `IntegerUtils.Gcd` stands in for it: Euclid's algorithm on the absolute
  values of the arguments, so its result is always positive. Only one thing
  depends on that sign convention: on an input with both components negative,
  `reduce` returns both fields negative. Value preservation
  (`DivideOutKeepsValue`) holds for any nonzero common divisor. Coprimality
  (`ReduceSameSign`, `ReduceMixedSign`) needs the true gcd.
- **Division.** The source divides with Rust's truncating `/`, and the model
  uses Dafny's Euclidean `/`. Every such division here is exact (the divisor
  divides the dividend), and for exact division the two agree.
- **Equality of values.** `SameValue(a, b)` is cross-multiplication over
  unbounded integers: `a.over * b.under == b.over * a.under`. The lemmas use it
  as the reference for "denotes the same fraction". `FractionCompare` is the
  reference fraction order for positive denominators.

Consequences of the code as written, each proved by the lemma named:

- `partial_cmp` is not fraction ordering (`PartialCmpDifferentUnders`,
  `PartialCmpNotTransitive`).
- A mixed-sign input loses its sign in `reduce` (`ReduceMixedSign`).
- Under `eq`, `0/0` equals the zero sentinel `new(1, 0)`, the infinity sentinel
  `new(1, i64::MAX)` and every
  fraction with a nonzero `under` (`UndefinedSentinel`,
  `ZeroZeroEqualsEveryFraction`).

## Model

| member | source | states |
|---|---|---|
| IntegerUtils.Gcd | src/exact_math/rationals.rs:47 | for two integers not both zero, the result is positive and divides both (stand-in for the crate's `gcd`) |
| IntegerUtils.EuclidGcd | src/exact_math/rationals.rs:47 | Euclid's algorithm on naturals returns a positive common divisor of both arguments |
| IntegerUtils.GcdGreatest | src/exact_math/rationals.rs:47 | every common divisor of the arguments divides `Gcd`, and a positive one is at most `Gcd` |
| IntegerUtils.GcdOfQuotients | src/exact_math/rationals.rs:47-53 | dividing two nonzero integers by their gcd leaves nonzero quotients whose gcd is 1 |
| ExactMath.New | src/exact_math/rationals.rs:16-18 | stores `under` and `over` exactly as given, in that argument order, with no validation |
| ExactMath.PutToDenominator | src/exact_math/rationals.rs:10-15 | both fields are multiplied by `n` (no overflow allowed); the result denotes the same fraction, and a nonzero `under` stays nonzero for nonzero `n` |
| ExactMath.Reduce | src/exact_math/rationals.rs:19-59 | `0/0` gives `{0,0}`; zero numerator with nonzero denominator gives `{under 1, over 0}`; nonzero numerator over zero gives `{under 1, over i64::MAX}` whatever its sign; no result is mixed-sign |
| ExactMath.Eq | src/exact_math/rationals.rs:63-71 | equal `under`s: true iff the `over`s are equal; differing `under`s: true iff `a.over * b.under == b.over * a.under` |
| ExactMath.Ne | src/exact_math/rationals.rs:72-74 | the negation of `eq`; with nonzero `under`s, true iff the fractions differ in value |
| ExactMath.PartialCmp | src/exact_math/rationals.rs:78-104 | always `Some`; differing `under`s: the order of the raw `over`s; one shared positive `under`: the order of the `over`s; a shared negative `under`: the reversed order; a shared zero `under`: Equal |
| ExactMath.Lt | src/exact_math/rationals.rs:106 | `partial_cmp` is Less: `a.over < b.over` for differing or positive shared `under`s, `a.over > b.over` for a negative shared `under`, never for a zero shared `under` |
| ExactMath.Gt | src/exact_math/rationals.rs:109 | `partial_cmp` is Greater, characterised in the same three cases as `Lt` |
| ExactMath.Le | src/exact_math/rationals.rs:105-107 | `lt` or `eq`: differing `under`s: `a.over < b.over` or equal value; shared positive `under`: `a.over <= b.over`; shared negative: `a.over >= b.over`; shared zero: equal `over`s only |
| ExactMath.Ge | src/exact_math/rationals.rs:108-110 | `gt` or `eq`, characterised in the same four cases as `Le` with the order reversed |
| ExactMath.ScalePreservesEq | src/exact_math/rationals.rs:10-15 | for a nonzero `under` and any `n`, `eq(r, r.put_to_denominator(n))` holds |
| ExactMath.ScaleZeroUnder | src/exact_math/rationals.rs:64-65 | for a zero `under`, `eq(r, r.put_to_denominator(n))` holds iff `n == 1` or `over == 0` |
| ExactMath.EqIsFractionEquality | src/exact_math/rationals.rs:63-70 | when both `under`s are nonzero, `eq` is exactly cross-multiplication equality, in both directions |
| ExactMath.EqReflexive | src/exact_math/rationals.rs:63-65 | every value is `eq` to itself |
| ExactMath.EqSymmetric | src/exact_math/rationals.rs:63-70 | `eq(a, b)` and `eq(b, a)` agree, and they need the same overflow precondition |
| ExactMath.SameValueTransitive | src/exact_math/rationals.rs:66-69 | cross-multiplication equality is transitive through a fraction with nonzero denominator |
| ExactMath.EqTransitiveOnNonzeroUnders | src/exact_math/rationals.rs:63-70 | on values whose `under`s are all nonzero, `eq` is transitive |
| ExactMath.ZeroZeroEqualsEveryFraction | src/exact_math/rationals.rs:63-70 | `{0,0}` is `eq` to every value with a nonzero `under`, in both argument orders |
| ExactMath.EqNotTransitive | src/exact_math/rationals.rs:63-70 | `1/1 eq 0/0` and `0/0 eq 2/1`, but `1/1` is not `eq` to `2/1` |
| ExactMath.DivideOutKeepsValue | src/exact_math/rationals.rs:47-53 | dividing numerator and denominator exactly by any common divisor keeps the value |
| ExactMath.ReduceGcdFits | src/exact_math/rationals.rs:47-48 | on every input `reduce` accepts with both components nonzero, the gcd it divides by is at most `i64::MAX` |
| ExactMath.ReduceSameSign | src/exact_math/rationals.rs:31-57 | both components nonzero with the same sign: the result times the gcd gives back both fields, it has the input's value, and its fields are coprime |
| ExactMath.ReduceMixedSign | src/exact_math/rationals.rs:23-57 | exactly one component negative: the result times the gcd gives `under` and `-over`, it equals the input's absolute value and not the input, and its fields are coprime |
| ExactMath.ReduceKeepsValue | src/exact_math/rationals.rs:19-59 | for a nonzero `under` and no mixed sign, the result has a nonzero `under` and the input's value |
| ExactMath.ReduceEqualsInput | src/exact_math/rationals.rs:19-59 | for the same inputs, the result is `eq` to the input |
| ExactMath.ReduceCoprimeFixed | src/exact_math/rationals.rs:46-57 | a nonzero, not mixed-sign value with coprime fields is returned unchanged |
| ExactMath.ReduceIdempotent | src/exact_math/rationals.rs:19-59 | reducing a reduced value changes nothing, sentinels included |
| ExactMath.UndefinedSentinel | src/exact_math/rationals.rs:37-45 | `{0,0}` reduces to itself, is not `eq` to `new(0, 1)`, and is `eq` to both the zero sentinel `new(1, 0)` and the infinity sentinel `new(1, i64::MAX)` |
| ExactMath.InfinityLosesSign | src/exact_math/rationals.rs:41-45 | `new(0, n)` and `new(0, -n)` both reduce to `new(1, i64::MAX)` |
| ExactMath.PartialCmpAntisymmetric | src/exact_math/rationals.rs:78-104 | swapping the arguments flips the answer |
| ExactMath.PartialCmpSharedPositiveUnder | src/exact_math/rationals.rs:90-103 | with one shared positive `under`, `partial_cmp` is textbook fraction comparison |
| ExactMath.PartialCmpDifferentUnders | src/exact_math/rationals.rs:79-88 | with differing `under`s it is not: `new(1,2)` (2/1) is reported Less than `new(4,3)` (3/4) |
| ExactMath.PartialCmpNotTransitive | src/exact_math/rationals.rs:78-104 | `new(-1,1) > new(-1,2) > new(5,1)`, yet `new(-1,1)` and `new(5,1)` compare Equal |
| ExactMath.CmpEqualWithoutEq | src/exact_math/rationals.rs:79-81 | `new(2,1)` and `new(3,1)` compare Equal, yet neither `eq`, `le` nor `ge` holds |
| ExactMath.GeIsFlippedLe | src/exact_math/rationals.rs:105-110 | `ge(b, a) == le(a, b)`, and the two need the same overflow precondition |
| RationalsTest.TestDenominator | src/exact_math/rationals.rs:117-122 | `new(2,6).put_to_denominator(5)` is `new(10,30)`, structurally and under `eq` |
| RationalsTest.TestEqualitySimple | src/exact_math/rationals.rs:124-129 | `new(2,5) > new(2,3)` |
| RationalsTest.TestEqualityHard | src/exact_math/rationals.rs:131-136 | `new(3,1) < new(2,3)` |
| RationalsTest.TestReduceOne | src/exact_math/rationals.rs:138-142 | `new(10,30).reduce()` is `new(1,3)`, structurally and under `eq` |
| RationalsTest.TestReduceTwo | src/exact_math/rationals.rs:144-148 | `new(15,9).reduce()` is `new(5,3)`, structurally and under `eq` |

## Left out

- `src/main.rs`: the interactive shell is not modelled. This covers configuration loading, the line editor and its history, coloured banners, the command words, and seeding the variable map with the floating-point constants `pi` and `e`. All of it is I/O or floating point.
- The lexer, parser, expression tree, interpreter and pretty printer that `src/main.rs` calls are not part of this model, because their source is not available.
- Fraction arithmetic (addition, multiplication, division) is not part of this model, because `rationals.rs` does not define it.
- The body of the crate's `gcd` is not part of this model. `IntegerUtils.Gcd` is a positive Euclidean gcd standing in for it, and its sign convention on negative arguments is an assumption.
- `i64` overflow is excluded by preconditions. Rust's panic (debug builds) or wrap-around (release builds) is not modelled.
- The derived `Debug` and `Clone` add no behaviour and are not modelled.
