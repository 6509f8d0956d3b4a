/** Facts about integer multiplication and Euclidean division by a positive
    divisor that the tiling proofs rely on.  All operands here are
    non-negative, where C#'s truncating `/` and `%` coincide with Dafny's. */
module Arith {

  /** Multiplying by a non-negative factor preserves `<=`. */
  lemma MulLe(a: int, b: int, m: int)
    requires a <= b && 0 <= m
    ensures a * m <= b * m
  {
  }

  /** Multiplying by a positive factor preserves `<`. */
  lemma MulLt(a: int, b: int, m: int)
    requires a < b && 0 < m
    ensures a * m < b * m
  {
  }

  /** Quotient and remainder are the only pair that rebuilds `n`. */
  lemma DivModUnique(n: int, d: int, q: int, r: int)
    requires 0 < d && 0 <= r < d && n == q * d + r
    ensures n / d == q && n % d == r
  {
    var q', r' := n / d, n % d;
    assert n == q' * d + r';
    if q' < q {
      assert (q' + 1) * d == q' * d + d;
      MulLe(q' + 1, q, d);
    } else if q < q' {
      assert (q + 1) * d == q * d + d;
      MulLe(q + 1, q', d);
    }
  }

  /** `i` lies below `m` whole groups of `d` exactly when its group number does. */
  lemma DivLtIff(i: nat, m: nat, d: int)
    requires 0 < d
    ensures i < m * d <==> i / d < m
  {
    var q := i / d;
    assert i == q * d + i % d;
    if q < m {
      MulLe(q + 1, m, d);
      assert (q + 1) * d == q * d + d;
    } else {
      MulLe(m, q, d);
    }
  }

  /** `a` groups of `d` fit in `b` exactly when `a` is at most `b / d`. */
  lemma MulLeIff(a: nat, b: nat, d: int)
    requires 0 < d
    ensures a * d <= b <==> a <= b / d
  {
    var q := b / d;
    assert b == q * d + b % d;
    if a <= q {
      MulLe(a, q, d);
    } else {
      MulLe(q + 1, a, d);
      assert (q + 1) * d == q * d + d;
    }
  }

  /** Dividing by a positive divisor is monotone. */
  lemma DivMonotone(i: nat, j: nat, d: int)
    requires 0 < d && i <= j
    ensures i / d <= j / d
  {
    if j / d < i / d {
      assert i == (i / d) * d + i % d;
      DivLtIff(j, i / d, d);
    }
  }
}
