/**
 * Integer helpers used by the exact-fraction type: Rust's signed 64-bit
 * range and the greatest common divisor that `reduce` divides by.
 *
 * The crate's own `gcd` (module `utils::integer_utils`) is not part of this
 * model; here it is Euclid's algorithm on the absolute values of its
 * arguments, so its result is always positive.
 */
module IntegerUtils {

  const I64_MIN: int := -0x8000_0000_0000_0000
  const I64_MAX: int := 0x7fff_ffff_ffff_ffff

  /** Rust's `i64`: arithmetic that leaves this range is an overflow. */
  newtype i64 = x: int | I64_MIN <= x <= I64_MAX

  predicate InI64(x: int) {
    I64_MIN <= x <= I64_MAX
  }

  function Abs(x: int): (a: nat)
    ensures a == x || a == -x
    ensures x >= 0 ==> a == x
  {
    if x < 0 then -x else x
  }

  /** `d` divides `n` exactly. */
  predicate Divides(d: int, n: int) {
    d != 0 && n % d == 0
  }

  /** The only multiple of `d` in the range `0 .. |d| - 1` is zero. */
  lemma SmallMultipleIsZero(d: int, e: int)
    requires d != 0 && 0 <= d * e < Abs(d)
    ensures e == 0
  {
  }

  /** A multiple of `d` is divisible by `d`, and dividing it gives the factor back. */
  lemma MultipleDivides(d: int, k: int)
    requires d != 0
    ensures Divides(d, d * k) && (d * k) / d == k
  {
    var n := d * k;
    var q, m := n / d, n % d;
    assert n == d * q + m && 0 <= m < Abs(d);
    assert d * (k - q) == m by {
      assert d * (k - q) == d * k - d * q;
    }
    SmallMultipleIsZero(d, k - q);
  }

  /** An exact quotient multiplies back to the dividend. */
  lemma QuotientTimesDivisor(d: int, n: int)
    requires Divides(d, n)
    ensures n == d * (n / d)
  {
  }

  /** A common divisor of `x` and `y` divides `x * c + y`. */
  lemma DividesLinear(d: int, x: int, y: int, c: int)
    requires Divides(d, x) && Divides(d, y)
    ensures Divides(d, x * c + y)
  {
    var p, s := x / d, y / d;
    QuotientTimesDivisor(d, x);
    QuotientTimesDivisor(d, y);
    assert x * c + y == d * (p * c + s) by {
      assert x * c == d * p * c;
    }
    MultipleDivides(d, p * c + s);
  }

  /** A positive divisor of a positive number is no larger than it. */
  lemma DivisorBound(d: int, n: int)
    requires d > 0 && n > 0 && Divides(d, n)
    ensures d <= n
  {
    QuotientTimesDivisor(d, n);
    var q := n / d;
    assert q >= 1;
    assert d * q == d + d * (q - 1);
    assert d * (q - 1) >= 0;
  }

  /** Euclid's algorithm on natural numbers. */
  function EuclidGcd(a: nat, b: nat): (g: nat)
    requires a > 0 || b > 0
    ensures g > 0 && Divides(g, a) && Divides(g, b)
    decreases b
  {
    if b == 0 then
      a
    else
      var g := EuclidGcd(b, a % b);
      DividesLinear(g, b, a % b, a / b);
      assert b * (a / b) + a % b == a;
      g
  }

  /** Every common divisor of `a` and `b` divides their Euclidean gcd. */
  lemma {:induction false} EuclidGcdGreatest(a: nat, b: nat, d: int)
    requires a > 0 || b > 0
    requires Divides(d, a) && Divides(d, b)
    ensures Divides(d, EuclidGcd(a, b))
    decreases b
  {
    if b != 0 {
      assert a % b == b * -(a / b) + a;
      DividesLinear(d, b, a, -(a / b));
      EuclidGcdGreatest(b, a % b, d);
    }
  }

  lemma DividesNegation(d: int, n: int)
    requires Divides(d, n)
    ensures Divides(d, -n)
  {
    DividesLinear(d, n, 0, -1);
  }

  /** Divisibility ignores the sign of the dividend. */
  lemma DividesAbs(d: int, n: int)
    ensures Divides(d, Abs(n)) <==> Divides(d, n)
  {
    if n < 0 {
      if Divides(d, n) { DividesNegation(d, n); }
      if Divides(d, -n) { DividesNegation(d, -n); }
    }
  }

  /** Greatest common divisor of two integers that are not both zero. */
  function Gcd(a: int, b: int): (g: int)
    requires a != 0 || b != 0
    ensures g > 0 && Divides(g, a) && Divides(g, b)
    ensures g == EuclidGcd(Abs(a), Abs(b))
  {
    var g := EuclidGcd(Abs(a), Abs(b));
    DividesAbs(g, a);
    DividesAbs(g, b);
    g
  }

  /** `Gcd` is the greatest common divisor: every common divisor divides it. */
  lemma GcdGreatest(a: int, b: int, d: int)
    requires a != 0 || b != 0
    requires Divides(d, a) && Divides(d, b)
    ensures Divides(d, Gcd(a, b))
    ensures d > 0 ==> d <= Gcd(a, b)
  {
    DividesAbs(d, a);
    DividesAbs(d, b);
    EuclidGcdGreatest(Abs(a), Abs(b), d);
    if d > 0 {
      DivisorBound(d, Gcd(a, b));
    }
  }

  /** `g * h` divides `a` whenever `h` divides `a / g`. */
  lemma DividesThroughQuotient(g: int, h: int, a: int)
    requires Divides(g, a) && Divides(h, a / g)
    ensures Divides(g * h, a)
  {
    var p := a / g;
    QuotientTimesDivisor(g, a);
    QuotientTimesDivisor(h, p);
    var k := p / h;
    assert a == g * (h * k);
    assert g * (h * k) == (g * h) * k;
    MultipleDivides(g * h, k);
  }

  /** A positive factor `h` with `g * h <= g` for positive `g` is 1. */
  lemma FactorAtMostOne(g: int, h: int)
    requires g > 0 && h > 0 && g * h <= g
    ensures h == 1
  {
    assert g * (h - 1) <= 0;
  }

  /** The nonzero quotients of two nonzero integers by their gcd. */
  lemma QuotientsNonzero(a: int, b: int)
    requires a != 0 && b != 0
    ensures a / Gcd(a, b) != 0 && b / Gcd(a, b) != 0
  {
    var g := Gcd(a, b);
    QuotientTimesDivisor(g, a);
    QuotientTimesDivisor(g, b);
  }

  /** Dividing both arguments by their gcd leaves coprime quotients. */
  lemma GcdOfQuotients(a: int, b: int)
    requires a != 0 && b != 0
    ensures var g := Gcd(a, b); a / g != 0 && b / g != 0 && Gcd(a / g, b / g) == 1
  {
    var g := Gcd(a, b);
    QuotientsNonzero(a, b);
    var h := Gcd(a / g, b / g);
    DividesThroughQuotient(g, h, a);
    DividesThroughQuotient(g, h, b);
    assert g * h > 0;
    GcdGreatest(a, b, g * h);
    FactorAtMostOne(g, h);
  }
}
