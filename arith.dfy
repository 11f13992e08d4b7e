/** Facts about multiplication and division by a variable that the solver
    does not find on its own. */
module Arith {

  lemma {:induction false} MulMonotone(a: nat, b: nat, n: nat)
    requires a <= b
    ensures a * n <= b * n
    decreases n
  {
    if n > 0 {
      MulMonotone(a, b, n - 1);
      assert a * n == a * (n - 1) + a;
      assert b * n == b * (n - 1) + b;
    }
  }

  /** Division is exact on a multiple. */
  lemma DivExact(n: nat, c: nat)
    requires n >= 1
    ensures n * c / n == c
  {
    var d, m := n * c / n, n * c % n;
    assert n * d + m == n * c;
    if d < c {
      MulMonotone(d + 1, c, n);
      assert false;
    } else if d > c {
      MulMonotone(c + 1, d, n);
      assert false;
    }
  }

  /** A sum of at most `bound` per item, divided by the number of items, is
      at most `bound`. */
  lemma DivBound(a: nat, n: nat, bound: nat)
    requires n >= 1 && a <= bound * n
    ensures a / n <= bound
  {
    var d, m := a / n, a % n;
    assert n * d + m == a;
    if d > bound {
      MulMonotone(bound + 1, d, n);
      assert false;
    }
  }

  /** `a * b` as repeated addition. A product of two unknowns stated through
      `Times` is unfolded only as far as a proof asks, instead of drawing the
      solver into nonlinear arithmetic wherever the term appears;
      `TimesIsProduct` gives the product back. */
  function Times(a: nat, b: nat): nat
    decreases b
  {
    if b == 0 then 0 else Times(a, b - 1) + a
  }

  lemma {:induction false} TimesIsProduct(a: nat, b: nat)
    ensures Times(a, b) == a * b
    decreases b
  {
    if b > 0 {
      TimesIsProduct(a, b - 1);
      assert a * b == a * (b - 1) + a;
    }
  }

  /** Scaling an intensity of at most 765 by `levels`. */
  lemma ScaleBound(s: nat, levels: nat)
    requires s <= 765
    ensures s * levels <= 765 * levels
  {
    MulMonotone(s, 765, levels);
  }
}
