/** Products, quotients and remainders of integers, one fact at a time. */
module Arithmetic {

  function Abs(x: int): nat {
    if x < 0 then -x else x
  }

  // ---- Products ----

  lemma MulNonNegative(a: int, b: int)
    requires 0 <= a && 0 <= b
    ensures 0 <= a * b
  {
  }

  lemma Distribute(z: int, a: int, b: int)
    ensures z * (a + b) == z * a + z * b
  {
  }

  lemma DistributeRight(a: int, b: int, z: int)
    ensures (a + b) * z == a * z + b * z
  {
  }

  lemma Associate(a: int, b: int, c: int)
    ensures (a * b) * c == a * (b * c)
  {
  }

  lemma Exchange(a: int, b: int, c: int)
    ensures a * (b * c) == b * (a * c)
  {
  }

  lemma MulMonotone(a: int, b: int, n: int)
    requires a <= b && 0 <= n
    ensures a * n <= b * n
  {
    MulNonNegative(b - a, n);
    DistributeRight(a, b - a, n);
  }

  /** Multiples of d other than zero are at least d away from it. */
  lemma MulOrder(d: int, p: int)
    requires d > 0
    ensures p >= 1 ==> d * p >= d
    ensures p <= -1 ==> d * p <= -d
  {
    if p >= 1 {
      MulNonNegative(d, p - 1);
      Distribute(d, p - 1, 1);
    } else if p <= -1 {
      MulNonNegative(d, -1 - p);
      Distribute(d, -1 - p, p + 1);
      Distribute(d, p, 1);
    }
  }

  /** Row y and column x of a table with n columns and m rows. */
  lemma CellInTable(m: int, n: int, x: int, y: int)
    requires 0 <= x < n && 0 <= y < m
    ensures 0 <= y * n + x < m * n
  {
    MulNonNegative(y, n);
    MulMonotone(y + 1, m, n);
    DistributeRight(y, 1, n);
  }

  // ---- Quotients and remainders ----

  lemma Euclid(x: int, d: int)
    requires d > 0
    ensures x == d * (x / d) + x % d && 0 <= x % d < d
  {
  }

  lemma DivUnique(x: int, d: int, q: int, r: int)
    requires 0 <= r < d && x == d * q + r
    ensures x / d == q && x % d == r
  {
    var p := x / d - q;
    Euclid(x, d);
    Distribute(d, q, p);
    MulOrder(d, p);
  }

  lemma DivNonNegative(x: int, d: int)
    requires x >= 0 && d > 0
    ensures x / d >= 0
  {
    Euclid(x, d);
    MulOrder(d, x / d);
  }

  /** Halving and then dividing is dividing by twice the divisor. */
  lemma DivDiv(x: nat, d: nat)
    requires d > 0
    ensures (x / 2) / d == x / (2 * d)
  {
    var h := x / 2;
    var q, r := h / d, h % d;
    Euclid(h, d);
    assert x == 2 * h + x % 2;
    assert 2 * (d * q) == (2 * d) * q;
    DivUnique(x, 2 * d, q, 2 * r + x % 2);
  }

  /** One more bit of a remainder. */
  lemma RemainderDoubled(b: int, d: int)
    requires d > 0
    ensures b % (2 * d) == b % d + b / d % 2 * d
  {
    var q := b / d;
    var h, t := q / 2, q % 2;
    Euclid(b, d);
    Euclid(q, 2);
    MulNonNegative(t, d);
    MulMonotone(t, 1, d);
    Distribute(d, 2 * h, t);
    Exchange(d, 2, h);
    Associate(2, d, h);
    DivUnique(b, 2 * d, h, b % d + t * d);
  }

  /** Adding a multiple of twice the divisor keeps the parity of the quotient. */
  lemma EvenMultiple(low: int, d: int, h: int)
    requires d > 0
    ensures (low + d * (2 * h)) / d % 2 == low / d % 2
  {
    var q := low / d;
    Euclid(low, d);
    Distribute(d, q, 2 * h);
    DivUnique(low + d * (2 * h), d, q + 2 * h, low % d);
    ParityShift(q, h);
  }

  lemma ParityShift(q: int, h: int)
    ensures (q + 2 * h) % 2 == q % 2
  {
    DivUnique(q + 2 * h, 2, q / 2 + h, q % 2);
  }
}
