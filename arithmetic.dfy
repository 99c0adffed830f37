/** Facts about multiplication, Euclidean division and remainder by a positive divisor, proved
    from small steps so that the solver never has to search for them. */
module Arithmetic {
  lemma Distribute(k: int, m: int)
    ensures k * m == (k - 1) * m + m
  {
  }

  lemma SubMul(x: int, y: int, m: int)
    ensures x * m - y * m == (x - y) * m
  {
  }

  lemma Neg(k: int, m: int)
    ensures k * m == -((-k) * m)
  {
  }

  lemma MulNonNeg(k: nat, m: nat)
    ensures k * m >= 0
  {
  }

  lemma {:induction false} MulAtLeast(k: nat, m: nat)
    requires k >= 1
    ensures k * m >= m
    decreases k
  {
    if k > 1 {
      MulAtLeast(k - 1, m);
      Distribute(k, m);
    }
  }

  /** A multiple of `m` does not lie strictly between 0 and `m`. */
  lemma MultipleOutside(k: int, m: nat)
    requires m > 0
    ensures k * m <= 0 || k * m >= m
  {
    if k <= 0 {
      Neg(k, m);
      MulNonNeg(-k, m);
    } else {
      MulAtLeast(k, m);
    }
  }

  /** Multiplying by a positive number keeps the sign. */
  lemma MulSign(k: int, m: nat)
    requires m > 0
    ensures k * m < 0 <==> k < 0
  {
    if k >= 0 {
      MulNonNeg(k, m);
    } else {
      Neg(k, m);
      MulAtLeast(-k, m);
    }
  }

  /** The remainder is the only `r` in `[0, m)` with `y == q * m + r`. */
  lemma ModUnique(y: int, q: int, r: int, m: nat)
    requires m > 0 && y == q * m + r && 0 <= r < m
    ensures y % m == r && y / m == q
  {
    var q', r' := y / m, y % m;
    assert y == q' * m + r';
    SubMul(q, q', m);
    MultipleOutside(q - q', m);
    MultipleOutside(q' - q, m);
    Neg(q - q', m);
    MulSign(q - q', m);
    MulSign(q' - q, m);
  }

  /** Two numbers less than `m` apart have different remainders. */
  lemma ModApart(a: nat, b: nat, m: nat)
    requires m > 0 && a < b < a + m
    ensures a % m != b % m
  {
    var qa, qb := a / m, b / m;
    assert a == qa * m + a % m;
    assert b == qb * m + b % m;
    SubMul(qb, qa, m);
    MultipleOutside(qb - qa, m);
  }

  /** Equal remainders make the difference a multiple. */
  lemma ModEqualDifference(a: nat, b: nat, m: nat)
    requires m > 0 && a <= b && a % m == b % m
    ensures (b - a) % m == 0
  {
    var qa, qb := a / m, b / m;
    assert a == qa * m + a % m;
    assert b == qb * m + b % m;
    SubMul(qb, qa, m);
    ModUnique(b - a, qb - qa, 0, m);
  }

  /** Below `c * m`, the quotient by `c` is below `m`. */
  lemma DivBelow(i: nat, c: nat, m: nat)
    requires c > 0 && i < c * m
    ensures i / c < m
  {
    assert i == (i / c) * c + i % c;
    assert c * m == m * c;
    SubMul(i / c, m, c);
    MulSign(i / c - m, c);
  }

  /** Of two numbers with the same remainder, the smaller has the smaller quotient, and equal
      quotients mean equal numbers. */
  lemma SameRemainder(i: nat, j: nat, c: nat)
    requires c > 0 && i % c == j % c
    ensures i / c == j / c ==> i == j
    ensures i < j ==> i / c < j / c
  {
    assert i == (i / c) * c + i % c;
    assert j == (j / c) * c + j % c;
    SubMul(i / c, j / c, c);
    MulSign(i / c - j / c, c);
  }
}
