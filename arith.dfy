/** Facts about integer division by positive divisors used by the decompositions. */
module Arith {

  lemma MulBound(d: int, m: int)
    requires m > 0
    ensures d >= 0 ==> d * m >= 0
    ensures d >= 1 ==> d * m >= m
    ensures d <= -1 ==> d * m <= -m
  {
  }

  /** Quotient and remainder by a positive modulus are determined by the dividend. */
  lemma RemainderUnique(q1: int, r1: int, q2: int, r2: int, m: int)
    requires m > 0 && 0 <= r1 < m && 0 <= r2 < m
    requires q1 * m + r1 == q2 * m + r2
    ensures q1 == q2 && r1 == r2
  {
    assert (q1 - q2) * m == r2 - r1;
    MulBound(q1 - q2, m);
  }

  /** Any quotient-remainder pair of `x` by `m` is the one `/` and `%` give. */
  lemma DivUnique(x: int, m: int, q: int, r: int)
    requires m > 0 && 0 <= r < m && x == q * m + r
    ensures x / m == q && x % m == r
  {
    RemainderUnique(q, r, x / m, x % m, m);
  }

  /** Dividing by `a` and then by `b` is dividing by `a * b`. */
  lemma DivDiv(x: nat, a: int, b: int)
    requires a > 0 && b > 0
    ensures x / a / b == x / (a * b)
  {
    var q := x / a;
    var r := x % a;
    var q1 := q / b;
    var r1 := q % b;
    calc {
      x;
      q * a + r;
      (q1 * b + r1) * a + r;
      q1 * b * a + r1 * a + r;
      { assert q1 * b * a == q1 * (a * b); }
      q1 * (a * b) + (r1 * a + r);
    }
    MulBound(b - 1 - r1, a);
    assert (b - 1 - r1) * a == a * b - a - r1 * a;
    MulBound(r1, a);
    DivUnique(x, a * b, q1, r1 * a + r);
  }
}
