/**
 Facts about products of natural numbers, proved by induction so that the
 index arithmetic elsewhere stays linear for the solver.
 */
module Arith {

  /** One more copy of `stride`. */
  lemma MulSucc(a: nat, stride: nat)
    ensures (a + 1) * stride == a * stride + stride
  {
  }

  /** Scaling both sides of `a <= b` by the same stride keeps the order. */
  lemma {:induction false} MulMonotone(a: nat, b: nat, stride: nat)
    requires a <= b
    ensures a * stride <= b * stride
    decreases b - a
  {
    if a < b {
      MulMonotone(a + 1, b, stride);
      MulSucc(a, stride);
    }
  }

  /** Block `k` of `count` blocks of `stride` elements ends inside them. */
  lemma BlockFits(k: nat, count: nat, stride: nat)
    requires k < count
    ensures k * stride + stride <= count * stride
  {
    MulMonotone(k + 1, count, stride);
    MulSucc(k, stride);
  }

  /** Euclidean division by a positive divisor is determined by any
      decomposition `x == q * d + r` with `0 <= r < d`. */
  lemma DivModUnique(x: nat, q: nat, r: nat, d: nat)
    requires 0 < d && r < d && x == q * d + r
    ensures x / d == q && x % d == r
  {
    var q', r' := x / d, x % d;
    assert x == q' * d + r';
    if q' < q {
      BlockFits(q', q, d);
      assert false;
    } else if q < q' {
      BlockFits(q, q', d);
      assert false;
    }
  }

  /** The half of an even length, taken twice, is the length. */
  lemma HalfOfEven(n: nat)
    requires n % 2 == 0
    ensures 1 * (n / 2) == n / 2 && 2 * (n / 2) == n
  {
  }

  /** Dividing by `a` and then by `b` is dividing by `a * b`. */
  lemma NestedDiv(x: nat, a: nat, b: nat)
    requires 0 < a && 0 < b
    ensures 0 < a * b
    ensures x / a / b == x / (a * b)
  {
    var q, r2, r1 := x / a / b, x / a % b, x % a;
    assert x / a == q * b + r2;
    assert x == (q * b + r2) * a + r1;
    assert (q * b + r2) * a == q * (a * b) + r2 * a;
    MulMonotone(r2, b - 1, a);
    assert (b - 1) * a == a * b - a;
    MulMonotone(1, b, a);
    DivModUnique(x, q, r2 * a + r1, a * b);
  }

  /** A multiple of `d` divided by `d`. */
  lemma DivMultiple(q: nat, d: nat)
    requires 0 < d
    ensures q * d / d == q
  {
    DivModUnique(q * d, q, 0, d);
  }
}
