/** Arithmetic that several modules use. */
module Arithmetic {

  /** Multiplying keeps the order. */
  lemma Scale(m: nat, a: nat, b: nat)
    requires a <= b
    ensures m * a <= m * b && a * m <= b * m
  {
  }

  /** `((s - 1) / m + 1) * m` is the least multiple of `m` not below `s`. */
  lemma CeilMultiple(s: nat, m: nat)
    requires s > 0 && m > 0
    ensures s <= ((s - 1) / m + 1) * m < s + m
    ensures ((s - 1) / m + 1) * m % m == 0
  {
    var q, r := (s - 1) / m, (s - 1) % m;
    assert s - 1 == m * q + r;
    assert (q + 1) * m == m * q + m;
    MultipleOf(q + 1, m);
  }

  /** Only one quotient leaves a remainder below the divisor. */
  lemma MultipleOf(q: nat, m: nat)
    requires m > 0
    ensures q * m % m == 0
  {
    var x := q * m;
    var d := q - x / m;
    assert m * d == x % m by {
      assert x == m * (x / m) + x % m;
      assert m * d == m * q - m * (x / m);
    }
    ProductAtLeast(m, d);
  }

  lemma ProductAtLeast(m: nat, d: int)
    ensures d >= 1 ==> m * d >= m
    ensures d <= -1 ==> m * d + m <= 0
  {
  }

  lemma QuotientIs(x: nat, m: nat, q: nat, r: nat)
    requires x == q * m + r && r < m
    ensures x / m == q
  {
    var d := q - x / m;
    assert m * d == x % m - r by {
      assert x == m * (x / m) + x % m;
      assert m * d == m * q - m * (x / m);
    }
    ProductAtLeast(m, d);
  }

  /** A multiple of a multiple of 16 is a multiple of 16. */
  lemma MultipleOf16(q: nat, m: nat)
    requires m % 16 == 0
    ensures q * m % 16 == 0
  {
    var t := m / 16;
    assert m == 16 * t;
    Regroup(q, t);
    Sixteens(q * t);
  }

  lemma Regroup(q: nat, t: nat)
    ensures q * (16 * t) == 16 * (q * t)
  {
  }

  lemma Sixteens(x: nat)
    ensures 16 * x % 16 == 0
  {
  }

  /** Quotient and remainder of a number made from both. */
  lemma Divides(m: nat, q: nat, r: nat)
    requires r < m
    ensures (m * q + r) / m == q && (m * q + r) % m == r
  {
    var x := m * q + r;
    if x / m > q {
      Scale(m, q + 1, x / m);
    } else if x / m < q {
      Scale(m, x / m + 1, q);
    }
  }
}
