/**
  Facts about multiplying reals that the share and percentage proofs use.
*/
module RealArith {

  /** Multiplying by a non-negative number keeps a non-strict order. */
  lemma MulMonotone(a: real, b: real, c: real)
    requires 0.0 <= a && b <= c
    ensures a * b <= a * c
  {
  }

  /** Multiplying by a positive number keeps a strict order. */
  lemma MulLess(a: real, c: real, w: real)
    requires w > 0.0 && a < c
    ensures a * w < c * w
  {
  }

  /** Multiplying both sides by a positive number keeps order and equality. */
  lemma RealScale(x: real, y: real, t: real)
    requires t > 0.0
    ensures x > y <==> x * t > y * t
    ensures x == y <==> x * t == y * t
  {
    if x > y {
      assert (x - y) * t > 0.0;
    } else if x < y {
      assert (y - x) * t > 0.0;
    }
  }

  /** Comparing the share k / n with p is comparing k with p * n. */
  lemma ShareCompare(k: nat, n: nat, p: real)
    requires n > 0
    ensures k as real / n as real > p <==> k as real > p * n as real
    ensures k as real / n as real == p <==> k as real == p * n as real
  {
    var c, t := k as real / n as real, n as real;
    assert c * t == k as real;
    RealScale(c, p, t);
  }
}
