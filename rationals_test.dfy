/**
 * The unit tests of the fraction type, stated as lemmas. Rust's
 * `assert_eq!` compares with the hand-written `eq`, so each equality test
 * is stated with `Eq`; structural equality is stated beside it.
 */
module RationalsTest {
  import opened IntegerUtils
  import opened ExactMath

  lemma TestDenominator()
    ensures PutToDenominator(New(2, 6), 5) == New(10, 30)
    ensures Eq(New(10, 30), PutToDenominator(New(2, 6), 5))
  {
  }

  lemma TestEqualitySimple()
    ensures Gt(New(2, 5), New(2, 3))
  {
  }

  lemma TestEqualityHard()
    ensures Lt(New(3, 1), New(2, 3))
  {
  }

  lemma TestReduceOne()
    ensures Reduce(New(10, 30)) == New(1, 3)
    ensures Eq(New(1, 3), Reduce(New(10, 30)))
  {
    assert EuclidGcd(30, 10) == EuclidGcd(10, 0) == 10;
    assert Gcd(30, 10) == 10;
    assert 10 / 10 == 1 && 30 / 10 == 3;
  }

  lemma TestReduceTwo()
    ensures Reduce(New(15, 9)) == New(5, 3)
    ensures Eq(New(5, 3), Reduce(New(15, 9)))
  {
    calc {
      EuclidGcd(9, 15);
      == EuclidGcd(15, 9);
      == EuclidGcd(9, 6);
      == EuclidGcd(6, 3);
      == EuclidGcd(3, 0);
      == 3;
    }
    assert Gcd(9, 15) == 3;
    assert 15 / 3 == 5 && 9 / 3 == 3;
  }
}
