/**
 * The calculator's exact-fraction type `Rationals`: a pair of signed 64-bit
 * integers, `under` (the denominator) and `over` (the numerator), with no
 * invariant on construction. The module models its constructor, the scaling
 * helper, the canonicalising `reduce` and the hand-written equality and
 * ordering, exactly as they are written, including where they differ from
 * textbook fraction arithmetic.
 *
 * Rust's `i64` overflow is not modelled as wrap-around: every multiplication
 * and negation the source performs carries a precondition that it stays in
 * range.
 */
module ExactMath {
  import opened IntegerUtils

  /** The fraction `over / under`; unreduced forms and a zero `under` are legal. */
  datatype Rationals = Rationals(under: i64, over: i64)

  datatype Ordering = Less | Equal | Greater

  datatype Option<T> = None | Some(value: T)

  /** The reference three-way comparison of two integers. */
  function Compare(x: int, y: int): (o: Ordering)
    ensures o == Less <==> x < y
    ensures o == Equal <==> x == y
    ensures o == Greater <==> x > y
  {
    if x < y then Less else if x == y then Equal else Greater
  }

  function Flip(o: Ordering): (f: Ordering)
    ensures f == Less <==> o == Greater
    ensures f == Equal <==> o == Equal
    ensures f == Greater <==> o == Less
  {
    match o
    case Less => Greater
    case Equal => Equal
    case Greater => Less
  }

  /**
   * `a` and `b` denote the same fraction by cross-multiplication over the
   * unbounded integers: `a.over * b.under == b.over * a.under`.
   */
  predicate SameValue(a: Rationals, b: Rationals) {
    a.over as int * b.under as int == b.over as int * a.under as int
  }

  /** Both fields of `r` times `n` stay inside `i64`. */
  predicate ScaleDefined(r: Rationals, n: i64) {
    InI64(r.under as int * n as int) && InI64(r.over as int * n as int)
  }

  /** `new(under, over)`: stores both fields as given, without validation or reduction. */
  function New(under: i64, over: i64): (r: Rationals)
    ensures r.under == under && r.over == over
  {
    Rationals(under, over)
  }

  /** `put_to_denominator`: both fields multiplied by `n`. */
  function PutToDenominator(r: Rationals, n: i64): (s: Rationals)
    requires ScaleDefined(r, n)
    ensures s.under as int == r.under as int * n as int
    ensures s.over as int == r.over as int * n as int
    ensures SameValue(r, s)
    ensures n != 0 && r.under != 0 ==> s.under != 0
  {
    Rationals(r.under * n, r.over * n)
  }

  // ---------------------------------------------------------------------------
  // reduce
  // ---------------------------------------------------------------------------

  /** Exactly one of the two components is negative (and neither is zero). */
  predicate MixedSign(r: Rationals) {
    (r.over < 0 && r.under > 0) || (r.over > 0 && r.under < 0)
  }

  /**
   * The negations in the two mixed-sign branches of `reduce` do not overflow,
   * and the gcd it divides by fits in an `i64`: for `{i64::MIN, i64::MIN}`
   * the gcd would be 2^63.
   */
  predicate ReduceDefined(r: Rationals) {
    && (r.over < 0 && r.under > 0 ==> r.over as int != I64_MIN)
    && (r.over > 0 && r.under < 0 ==> r.under as int != I64_MIN)
    && !(r.over as int == I64_MIN && r.under as int == I64_MIN)
  }

  /** Dividing an `i64` exactly by a positive divisor keeps its sign and does not grow it. */
  lemma QuotientSign(g: int, n: int)
    requires g > 0 && Divides(g, n)
    ensures n > 0 ==> 0 < n / g <= n
    ensures n < 0 ==> n <= n / g < 0
    ensures n == 0 ==> n / g == 0
  {
    QuotientTimesDivisor(g, n);
    ProductBounds(g, n / g);
  }

  lemma ProductBounds(g: int, k: int)
    requires g > 0
    ensures k > 0 ==> k <= g * k
    ensures k < 0 ==> g * k <= k
    ensures k == 0 ==> g * k == 0
  {
    assert g * k - k == (g - 1) * k;
  }

  /**
   * `reduce`: the sentinels for zero components, otherwise both fields
   * divided by the gcd of the (sign-adjusted) components, with the sign of a
   * mixed-sign input dropped. The `minus` flag of the source is the first
   * component of the triple.
   */
  function Reduce(r: Rationals): (q: Rationals)
    requires ReduceDefined(r)
    ensures r.over == 0 && r.under == 0 ==> q == Rationals(0, 0)
    ensures r.over == 0 && r.under != 0 ==> q == Rationals(1, 0)
    ensures r.over != 0 && r.under == 0 ==> q == Rationals(1, I64_MAX as i64)
    ensures !MixedSign(q)
  {
    var (minus, i1, i2) :=
      if r.over < 0 && r.under > 0 then (true, -r.over, r.under)
      else if r.over > 0 && r.under < 0 then (true, r.over, -r.under)
      else (false, r.over, r.under);
    if i1 == 0 && i2 == 0 then
      Rationals(0, 0)
    else if i1 == 0 then
      Rationals(1, 0)
    else if i2 == 0 then
      Rationals(1, I64_MAX as i64)
    else
      var g := Gcd(i1 as int, i2 as int);
      DividesAbs(g, i1 as int);
      DividesAbs(g, i2 as int);
      DividesAbs(g, r.over as int);
      DividesAbs(g, r.under as int);
      QuotientSign(g, r.under as int);
      QuotientSign(g, r.over as int);
      var newUnder := r.under as int / g;
      var newOver := if minus then -(r.over as int / g) else r.over as int / g;
      Rationals(newUnder as i64, newOver as i64)
  }

  // ---------------------------------------------------------------------------
  // PartialEq
  // ---------------------------------------------------------------------------

  /** The scalings `eq` performs when the `under`s differ stay inside `i64`. */
  predicate EqDefined(a: Rationals, b: Rationals) {
    a.under != b.under ==> ScaleDefined(a, b.under) && ScaleDefined(b, a.under)
  }

  /**
   * `eq`: equal `under`s compare the `over`s directly; otherwise both sides
   * are scaled by the other's `under` and the scaled `over`s compared.
   */
  function Eq(a: Rationals, b: Rationals): (r: bool)
    requires EqDefined(a, b)
    ensures a.under == b.under ==> (r <==> a.over == b.over)
    ensures a.under != b.under ==> (r <==> SameValue(a, b))
  {
    if a.under == b.under then
      a.over == b.over
    else
      var i1 := PutToDenominator(a, b.under);
      var i2 := PutToDenominator(b, a.under);
      i1.over == i2.over
  }

  /** `x * u == y * u` with `u` nonzero gives `x == y`. */
  lemma CancelFactor(x: int, y: int, u: int)
    requires u != 0 && x * u == y * u
    ensures x == y
  {
    assert (x - y) * u == 0;
  }

  /** On fractions with nonzero denominators `eq` is exactly fraction equality. */
  lemma EqIsFractionEquality(a: Rationals, b: Rationals)
    requires EqDefined(a, b) && a.under != 0 && b.under != 0
    ensures Eq(a, b) <==> SameValue(a, b)
  {
    if a.under == b.under && SameValue(a, b) {
      CancelFactor(a.over as int, b.over as int, a.under as int);
    }
  }

  /** `ne`: the negation of `eq`. */
  function Ne(a: Rationals, b: Rationals): (r: bool)
    requires EqDefined(a, b)
    ensures r <==> !Eq(a, b)
    ensures a.under != 0 && b.under != 0 ==> (r <==> !SameValue(a, b))
  {
    if a.under != 0 && b.under != 0 then
      EqIsFractionEquality(a, b);
      !Eq(a, b)
    else
      !Eq(a, b)
  }

  // ---------------------------------------------------------------------------
  // PartialOrd
  // ---------------------------------------------------------------------------

  /** The scalings `partial_cmp` performs when the `under`s are equal stay inside `i64`. */
  predicate CmpDefined(a: Rationals, b: Rationals) {
    a.under == b.under ==> ScaleDefined(a, b.under) && ScaleDefined(b, a.under)
  }

  /** Multiplying both sides by `u` keeps (`u > 0`) or reverses (`u < 0`) their order. */
  lemma CompareScaled(x: int, y: int, u: int)
    ensures u > 0 ==> Compare(x * u, y * u) == Compare(x, y)
    ensures u < 0 ==> Compare(x * u, y * u) == Compare(y, x)
    ensures u == 0 ==> Compare(x * u, y * u) == Equal
  {
    assert x * u - y * u == (x - y) * u;
    if u > 0 {
      if x < y { assert (x - y) * u < 0; }
      if x > y { assert (x - y) * u > 0; }
    } else if u < 0 {
      if x < y { assert (x - y) * u > 0; }
      if x > y { assert (x - y) * u < 0; }
    }
  }

  /**
   * `partial_cmp`: when the `under`s differ it orders by the raw `over`s;
   * when they are equal it orders the `over`s scaled by that shared `under`.
   * The trailing `None` of each branch is unreachable.
   */
  function PartialCmp(a: Rationals, b: Rationals): (r: Option<Ordering>)
    requires CmpDefined(a, b)
    ensures r.Some?
    ensures a.under != b.under ==> r.value == Compare(a.over as int, b.over as int)
    ensures a.under == b.under && a.under > 0 ==> r.value == Compare(a.over as int, b.over as int)
    ensures a.under == b.under && a.under < 0 ==> r.value == Compare(b.over as int, a.over as int)
    ensures a.under == b.under && a.under == 0 ==> r.value == Equal
  {
    if !(a.under == b.under) then
      if a.over == b.over then Some(Equal)
      else if a.over > b.over then Some(Greater)
      else if a.over < b.over then Some(Less)
      else None
    else
      var i1 := PutToDenominator(a, b.under);
      var i2 := PutToDenominator(b, a.under);
      CompareScaled(a.over as int, b.over as int, a.under as int);
      if i1.over == i2.over then Some(Equal)
      else if i1.over > i2.over then Some(Greater)
      else if i1.over < i2.over then Some(Less)
      else None
  }

  /** Rust's default `lt`: `partial_cmp` returned `Less`. */
  function Lt(a: Rationals, b: Rationals): (r: bool)
    requires CmpDefined(a, b)
    ensures a.under != b.under || a.under > 0 ==> (r <==> a.over < b.over)
    ensures a.under == b.under && a.under < 0 ==> (r <==> a.over > b.over)
    ensures a.under == b.under && a.under == 0 ==> !r
  {
    PartialCmp(a, b) == Some(Less)
  }

  /** Rust's default `gt`: `partial_cmp` returned `Greater`. */
  function Gt(a: Rationals, b: Rationals): (r: bool)
    requires CmpDefined(a, b)
    ensures a.under != b.under || a.under > 0 ==> (r <==> a.over > b.over)
    ensures a.under == b.under && a.under < 0 ==> (r <==> a.over < b.over)
    ensures a.under == b.under && a.under == 0 ==> !r
  {
    PartialCmp(a, b) == Some(Greater)
  }

  /** `le`: `self < other || self == other`, with `eq` evaluated only when `lt` fails. */
  function Le(a: Rationals, b: Rationals): (r: bool)
    requires CmpDefined(a, b) && (!Lt(a, b) ==> EqDefined(a, b))
    ensures a.under != b.under ==> (r <==> a.over < b.over || SameValue(a, b))
    ensures a.under == b.under && a.under > 0 ==> (r <==> a.over <= b.over)
    ensures a.under == b.under && a.under < 0 ==> (r <==> a.over >= b.over)
    ensures a.under == b.under && a.under == 0 ==> (r <==> a.over == b.over)
  {
    Lt(a, b) || Eq(a, b)
  }

  /** `ge`: `self > other || self == other`, with `eq` evaluated only when `gt` fails. */
  function Ge(a: Rationals, b: Rationals): (r: bool)
    requires CmpDefined(a, b) && (!Gt(a, b) ==> EqDefined(a, b))
    ensures a.under != b.under ==> (r <==> a.over > b.over || SameValue(a, b))
    ensures a.under == b.under && a.under > 0 ==> (r <==> a.over >= b.over)
    ensures a.under == b.under && a.under < 0 ==> (r <==> a.over <= b.over)
    ensures a.under == b.under && a.under == 0 ==> (r <==> a.over == b.over)
  {
    Gt(a, b) || Eq(a, b)
  }

  // ---------------------------------------------------------------------------
  // Laws of put_to_denominator
  // ---------------------------------------------------------------------------

  /**
   * Scaling a fraction with nonzero `under` by any `n` leaves it `eq` to
   * itself (for `n == 0` the scaled form is `0/0`, which `eq` equates with
   * every fraction with nonzero `under`).
   */
  lemma ScalePreservesEq(r: Rationals, n: i64)
    requires r.under != 0 && ScaleDefined(r, n)
    requires EqDefined(r, PutToDenominator(r, n))
    ensures Eq(r, PutToDenominator(r, n))
  {
    var s := PutToDenominator(r, n);
    if r.under == s.under {
      CancelFactor(n as int, 1, r.under as int);
    }
  }

  /** With a zero `under`, scaling keeps `eq` only for `n == 1` or a zero `over`. */
  lemma ScaleZeroUnder(r: Rationals, n: i64)
    requires r.under == 0 && ScaleDefined(r, n)
    ensures Eq(r, PutToDenominator(r, n)) <==> n == 1 || r.over == 0
  {
    if r.over != 0 && r.over as int * n as int == r.over as int {
      CancelFactor(n as int, 1, r.over as int);
    }
  }

  // ---------------------------------------------------------------------------
  // Laws of eq
  // ---------------------------------------------------------------------------

  lemma EqReflexive(a: Rationals)
    ensures EqDefined(a, a) && Eq(a, a)
  {
  }

  lemma EqSymmetric(a: Rationals, b: Rationals)
    requires EqDefined(a, b)
    ensures EqDefined(b, a) && (Eq(b, a) <==> Eq(a, b))
  {
  }

  /** Cross-multiplication equality is transitive through a nonzero middle denominator. */
  lemma SameValueTransitive(a: Rationals, b: Rationals, c: Rationals)
    requires b.under != 0 && SameValue(a, b) && SameValue(b, c)
    ensures SameValue(a, c)
  {
    var x1, y1 := a.over as int, a.under as int;
    var x2, y2 := b.over as int, b.under as int;
    var x3, y3 := c.over as int, c.under as int;
    calc {
      (x1 * y3) * y2;
      == (x1 * y2) * y3;
      == (x2 * y1) * y3;
      == y1 * (x2 * y3);
      == y1 * (x3 * y2);
      == (x3 * y1) * y2;
    }
    CancelFactor(x1 * y3, x3 * y1, y2);
  }

  /** On fractions with nonzero `under`s, `eq` is transitive. */
  lemma EqTransitiveOnNonzeroUnders(a: Rationals, b: Rationals, c: Rationals)
    requires a.under != 0 && b.under != 0 && c.under != 0
    requires EqDefined(a, b) && EqDefined(b, c) && EqDefined(a, c)
    requires Eq(a, b) && Eq(b, c)
    ensures Eq(a, c)
  {
    EqIsFractionEquality(a, b);
    EqIsFractionEquality(b, c);
    EqIsFractionEquality(a, c);
    SameValueTransitive(a, b, c);
  }

  /** The `0/0` form is `eq` to every fraction whose `under` is nonzero, in both directions. */
  lemma ZeroZeroEqualsEveryFraction(b: Rationals)
    requires b.under != 0
    ensures EqDefined(Rationals(0, 0), b) && EqDefined(b, Rationals(0, 0))
    ensures Eq(Rationals(0, 0), b) && Eq(b, Rationals(0, 0))
  {
  }

  /** Hence `eq` is not transitive once a zero `under` takes part. */
  lemma EqNotTransitive()
    ensures Eq(New(1, 1), New(0, 0)) && Eq(New(0, 0), New(1, 2))
    ensures !Eq(New(1, 1), New(1, 2))
  {
  }

  // ---------------------------------------------------------------------------
  // Laws of reduce
  // ---------------------------------------------------------------------------

  /** Dividing numerator and denominator by any common divisor keeps the value. */
  lemma DivideOutKeepsValue(u: int, o: int, d: int)
    requires Divides(d, u) && Divides(d, o)
    ensures (o / d) * u == o * (u / d)
  {
    QuotientTimesDivisor(d, u);
    QuotientTimesDivisor(d, o);
    calc {
      (o / d) * u;
      == (o / d) * (d * (u / d));
      == (d * (o / d)) * (u / d);
      == o * (u / d);
    }
  }

  /**
   * On every input `reduce` accepts with both components nonzero, the gcd it
   * divides by is a value of `i64`, as the crate's `gcd` returns one.
   */
  lemma ReduceGcdFits(r: Rationals)
    requires ReduceDefined(r) && r.over != 0 && r.under != 0
    ensures Gcd(r.over as int, r.under as int) <= I64_MAX
  {
    var o, u := r.over as int, r.under as int;
    var g := Gcd(o, u);
    if o != I64_MIN {
      DividesAbs(g, o);
      DivisorBound(g, Abs(o));
    } else {
      DividesAbs(g, u);
      DivisorBound(g, Abs(u));
    }
  }

  /**
   * Both components nonzero with the same sign: `reduce` divides both fields
   * exactly by their gcd, keeps the value, and leaves coprime fields.
   */
  lemma ReduceSameSign(r: Rationals)
    requires r.over != 0 && r.under != 0 && !MixedSign(r) && ReduceDefined(r)
    ensures var g, q := Gcd(r.over as int, r.under as int), Reduce(r);
      && q.under as int * g == r.under as int
      && q.over as int * g == r.over as int
      && SameValue(q, r)
      && Gcd(q.over as int, q.under as int) == 1
  {
    var o, u := r.over as int, r.under as int;
    var g := Gcd(o, u);
    QuotientTimesDivisor(g, u);
    QuotientTimesDivisor(g, o);
    DivideOutKeepsValue(u, o, g);
    GcdOfQuotients(o, u);
  }

  /**
   * Exactly one component negative: `reduce` returns both fields divided by
   * the gcd with the numerator negated, i.e. a fraction equal to the input's
   * absolute value; the sign of the value is lost.
   */
  lemma ReduceMixedSign(r: Rationals)
    requires MixedSign(r) && ReduceDefined(r)
    ensures var g, q := Gcd(r.over as int, r.under as int), Reduce(r);
      && q.under as int * g == r.under as int
      && q.over as int * g == -(r.over as int)
      && q.over as int * Abs(r.under as int) == Abs(r.over as int) * q.under as int
      && !SameValue(q, r)
      && Gcd(q.over as int, q.under as int) == 1
  {
    var o, u := r.over as int, r.under as int;
    var q := Reduce(r);
    ReduceMixedFields(r);
    MixedSignQuotients(o, u, q.over as int, q.under as int);
  }

  /** The fields `reduce` computes on a mixed-sign input. */
  lemma ReduceMixedFields(r: Rationals)
    requires MixedSign(r) && ReduceDefined(r)
    ensures var g := Gcd(r.over as int, r.under as int);
      && Reduce(r).under as int == r.under as int / g
      && Reduce(r).over as int == -(r.over as int / g)
  {
    var o, u := r.over as int, r.under as int;
    if o < 0 {
      assert Gcd(-o, u) == Gcd(o, u);
    } else {
      assert Gcd(o, -u) == Gcd(o, u);
    }
  }

  /** The arithmetic of a mixed-sign `reduce`, on plain integers. */
  lemma MixedSignQuotients(o: int, u: int, qo: int, qu: int)
    requires (o < 0 && u > 0) || (o > 0 && u < 0)
    requires qu == u / Gcd(o, u) && qo == -(o / Gcd(o, u))
    ensures var g := Gcd(o, u);
      && qu * g == u
      && qo * g == -o
      && qo * Abs(u) == Abs(o) * qu
      && qo * u != o * qu
      && Gcd(qo, qu) == 1
  {
    var g := Gcd(o, u);
    QuotientTimesDivisor(g, u);
    QuotientTimesDivisor(g, o);
    QuotientSign(g, u);
    QuotientSign(g, o);
    DivideOutKeepsValue(u, o, g);
    GcdOfQuotients(o, u);
    assert Gcd(qo, qu) == Gcd(o / g, u / g);
    MixedSignProducts(qo, qu, o, u);
  }

  /** The sign facts behind the lost sign of a mixed-sign `reduce`. */
  lemma MixedSignProducts(qo: int, qu: int, o: int, u: int)
    requires (o < 0 && u > 0 && qo > 0 && qu > 0) || (o > 0 && u < 0 && qo < 0 && qu < 0)
    ensures qo * u != o * qu
  {
    if o < 0 {
      assert qo * u > 0 && o * qu < 0;
    } else {
      assert qo * u > 0 && o * qu < 0;
    }
  }

  /** On every input that is not mixed-sign and has nonzero `under`, `reduce` keeps the value. */
  lemma ReduceKeepsValue(r: Rationals)
    requires r.under != 0 && !MixedSign(r) && ReduceDefined(r)
    ensures Reduce(r).under != 0 && SameValue(Reduce(r), r)
  {
    if r.over != 0 {
      ReduceSameSign(r);
    }
  }

  /** ... and so `reduce`'s result is `eq` to its input. */
  lemma ReduceEqualsInput(r: Rationals)
    requires r.under != 0 && !MixedSign(r)
    requires ReduceDefined(r) && EqDefined(Reduce(r), r)
    ensures Eq(Reduce(r), r)
  {
    ReduceKeepsValue(r);
    EqIsFractionEquality(Reduce(r), r);
  }

  /** A nonzero, not mixed-sign fraction with coprime fields is left as it is. */
  lemma ReduceCoprimeFixed(q: Rationals)
    requires q.over != 0 && q.under != 0 && !MixedSign(q)
    requires Gcd(q.over as int, q.under as int) == 1
    ensures ReduceDefined(q) && Reduce(q) == q
  {
  }

  /** `reduce` is idempotent: its results, sentinels included, are fixed points. */
  lemma ReduceIdempotent(r: Rationals)
    requires ReduceDefined(r)
    ensures ReduceDefined(Reduce(r)) && Reduce(Reduce(r)) == Reduce(r)
  {
    var q := Reduce(r);
    if r.over != 0 && r.under == 0 {
      var g := Gcd(I64_MAX, 1);
      DivisorBound(g, 1);
      ReduceCoprimeFixed(q);
    } else if r.over != 0 && r.under != 0 {
      if MixedSign(r) {
        ReduceMixedSign(r);
      } else {
        ReduceSameSign(r);
      }
      ReduceCoprimeFixed(q);
    }
  }

  /**
   * The `0/0` sentinel is fixed by `reduce`, differs from `new(0, 1)` under
   * `eq`, but is `eq` to both other sentinels: the zero `new(1, 0)` and the
   * infinity `new(1, i64::MAX)`.
   */
  lemma UndefinedSentinel()
    ensures Reduce(New(0, 0)) == New(0, 0)
    ensures !Eq(New(0, 0), New(0, 1))
    ensures Eq(New(0, 0), New(1, 0))
    ensures Eq(New(0, 0), New(1, I64_MAX as i64))
  {
  }

  /** The infinity sentinel does not remember the sign of the numerator. */
  lemma InfinityLosesSign(n: i64)
    requires n != 0
    ensures Reduce(New(0, n)) == New(1, I64_MAX as i64)
    ensures n as int != I64_MIN ==> Reduce(New(0, -n)) == Reduce(New(0, n))
  {
  }

  // ---------------------------------------------------------------------------
  // Laws of partial_cmp, lt, gt, le, ge
  // ---------------------------------------------------------------------------

  /** Swapping the arguments of `partial_cmp` flips its answer. */
  lemma PartialCmpAntisymmetric(a: Rationals, b: Rationals)
    requires CmpDefined(a, b)
    ensures CmpDefined(b, a) && PartialCmp(b, a) == Some(Flip(PartialCmp(a, b).value))
  {
  }

  /** Textbook comparison of two fractions with positive denominators. */
  function FractionCompare(a: Rationals, b: Rationals): (o: Ordering)
    requires a.under > 0 && b.under > 0
    ensures o == Equal <==> SameValue(a, b)
  {
    Compare(a.over as int * b.under as int, b.over as int * a.under as int)
  }

  /** With one shared positive `under`, `partial_cmp` is textbook fraction comparison. */
  lemma PartialCmpSharedPositiveUnder(a: Rationals, b: Rationals)
    requires a.under == b.under && a.under > 0 && CmpDefined(a, b)
    ensures PartialCmp(a, b) == Some(FractionCompare(a, b))
  {
    CompareScaled(a.over as int, b.over as int, a.under as int);
  }

  /** With differing `under`s it is not: `2/1` is reported Less than `3/4`. */
  lemma PartialCmpDifferentUnders()
    ensures Lt(New(1, 2), New(4, 3))
    ensures FractionCompare(New(1, 2), New(4, 3)) == Greater
  {
  }

  /** `partial_cmp` is not transitive once a negative `under` takes part. */
  lemma PartialCmpNotTransitive()
    ensures Gt(New(-1, 1), New(-1, 2)) && Gt(New(-1, 2), New(5, 1))
    ensures PartialCmp(New(-1, 1), New(5, 1)) == Some(Equal)
  {
  }

  /** `partial_cmp` answering Equal does not make `eq`, `le` or `ge` hold. */
  lemma CmpEqualWithoutEq()
    ensures PartialCmp(New(2, 1), New(3, 1)) == Some(Equal)
    ensures !Eq(New(2, 1), New(3, 1))
    ensures !Le(New(2, 1), New(3, 1)) && !Ge(New(2, 1), New(3, 1))
  {
  }

  /** `ge` is `le` with the arguments swapped. */
  lemma GeIsFlippedLe(a: Rationals, b: Rationals)
    requires CmpDefined(a, b) && (!Lt(a, b) ==> EqDefined(a, b))
    ensures CmpDefined(b, a) && (!Gt(b, a) ==> EqDefined(b, a))
    ensures Ge(b, a) == Le(a, b)
  {
    PartialCmpAntisymmetric(a, b);
  }
}
