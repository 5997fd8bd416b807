/** Division facts about jumps of a fixed size, which the solver does not find unaided. */
module Arithmetic {

  lemma ProductBound(i: int, z: int)
    requires 1 <= i
    ensures z >= 1 ==> i * z >= i
    ensures z <= -1 ==> i * z <= -i
  {
    if z >= 1 {
      assert i * z == i + i * (z - 1);
    } else if z <= -1 {
      assert i * z == -i + i * (z + 1);
    }
  }

  /** Quotient and remainder are determined by the usual equation. */
  lemma Euclid(x: int, i: int, q: int, rem: int)
    requires 0 <= rem < i && x == i * q + rem
    ensures x / i == q && x % i == rem
  {
    assert x % i - rem == i * (q - x / i);
    ProductBound(i, q - x / i);
  }

  lemma SumOfMultiples(a: int, b: int, i: int)
    requires 1 <= i && a % i == 0
    ensures (a + b) % i == b % i
  {
    assert i * (a / i + b / i) == i * (a / i) + i * (b / i);
    Euclid(a + b, i, a / i + b / i, b % i);
  }

  lemma MultiplesApart(a: int, i: int)
    requires 1 <= i && a % i == 0
    ensures (a + i) % i == 0
    ensures forall b :: a < b < a + i ==> b % i != 0
  {
    Euclid(i, i, 1, 0);
    SumOfMultiples(a, i, i);
    forall b | a < b < a + i ensures b % i != 0 {
      SumOfMultiples(a, b - a, i);
      Euclid(b - a, i, 0, b - a);
    }
  }
}
