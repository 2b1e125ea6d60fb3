/**
 * Products and squares of reals, and the few facts about them that the
 * geometric proofs use. Products are kept behind `Prod` so that the
 * lemmas below can state them as terms.
 */
module Squares {

  /** The product of two reals. */
  function Prod(a: real, b: real): real {
    a * b
  }

  /** The square of a real. */
  function Sq(a: real): real {
    Prod(a, a)
  }

  lemma ProdPositive(a: real, b: real)
    requires 0.0 < a && 0.0 < b
    ensures 0.0 < Prod(a, b)
  {
  }

  lemma ProdNegNeg(a: real, b: real)
    ensures Prod(-a, -b) == Prod(a, b)
  {
  }

  /** A square is never negative, and is positive unless its root is 0. */
  lemma SqPositive(a: real)
    ensures 0.0 <= Sq(a)
    ensures a != 0.0 ==> 0.0 < Sq(a)
  {
    if 0.0 < a {
      ProdPositive(a, a);
    } else if a < 0.0 {
      ProdPositive(-a, -a);
      ProdNegNeg(a, a);
    }
  }

  lemma QuotientTimes(a: real, d: real)
    requires d != 0.0
    ensures Prod(a / d, d) == a
  {
  }

  lemma ProdRegroup(a: real, b: real, c: real, e: real)
    ensures Prod(Prod(a, b), Prod(c, e)) == Prod(Prod(a, c), Prod(b, e))
  {
  }

  lemma ProdDistrib(a: real, b: real, c: real, d: real)
    ensures Prod(a, d) + Prod(b, d) + Prod(c, d) == Prod(a + b + c, d)
  {
  }

  lemma ProdCancel(a: real, d: real)
    requires d != 0.0 && Prod(a, d) == d
    ensures a == 1.0
  {
    assert Prod(a - 1.0, d) == 0.0;
  }

  /** (a / d)^2 * d^2 = a^2. */
  lemma SqQuotient(a: real, d: real)
    requires d != 0.0
    ensures Prod(Sq(a / d), Sq(d)) == Sq(a)
  {
    QuotientTimes(a, d);
    ProdRegroup(a / d, a / d, d, d);
  }
}
