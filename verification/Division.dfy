/** Quotients and remainders by a variable divisor. */
module Division {

  lemma StrictMultiple(q: int, d: int)
    requires d > 0 && -d < q * d < d
    ensures q == 0
  {
    assert q >= 1 ==> q * d >= d;
    assert q <= -1 ==> q * d <= -d;
  }

  /** A quotient and a remainder in range are the quotient and the remainder. */
  lemma Unique(a: int, d: int, q: int, r: int)
    requires d > 0 && 0 <= r < d && a == q * d + r
    ensures a / d == q && a % d == r
  {
    var q', r' := a / d, a % d;
    assert a == q' * d + r';
    assert (q - q') * d == q * d - q' * d;
    StrictMultiple(q - q', d);
  }

  lemma Split(a: int, d: int)
    requires d > 0
    ensures a == a / d * d + a % d && 0 <= a % d < d
  {
  }

  /** Adding whole multiples shifts the quotient and keeps the remainder. */
  lemma Shift(a: int, m: int, d: int)
    requires d > 0
    ensures (a + m * d) / d == a / d + m && (a + m * d) % d == a % d
  {
    Split(a, d);
    assert (a / d + m) * d == a / d * d + m * d;
    Unique(a + m * d, d, a / d + m, a % d);
  }

  lemma Below(a: int, m: int, d: int)
    requires d > 0
    ensures a / d < m <==> a < m * d
  {
    Split(a, d);
    var q := a / d;
    if q < m {
      Monotone(q + 1, m, d);
      assert (q + 1) * d == q * d + d;
    } else {
      Monotone(m, q, d);
    }
  }

  lemma Monotone(a: int, b: int, d: int)
    requires a <= b && d >= 0
    ensures a * d <= b * d
  {
    assert (b - a) * d >= 0;
  }

  /** Counting up by one moves the quotient on exactly at the multiples. */
  lemma Step(a: int, d: int)
    requires d > 0
    ensures (a + 1) / d == a / d + if (a + 1) % d == 0 then 1 else 0
  {
    Split(a, d);
    if a % d == d - 1 {
      assert (a / d + 1) * d == a / d * d + d;
      Unique(a + 1, d, a / d + 1, 0);
    } else {
      Unique(a + 1, d, a / d, a % d + 1);
    }
  }
}
