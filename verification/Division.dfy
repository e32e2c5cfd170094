/** Quotients and remainders from a known decomposition. */
module Division {
  lemma {:induction false} ProductMonotone(a: nat, x: nat, y: nat)
    requires 0 < x <= y
    ensures a * (x - 1) + a == a * x <= a * y
    decreases y
  {
    if x < y { ProductMonotone(a, x, y - 1); }
  }

  /** x == m * q + r with r < m names the quotient and the remainder. */
  lemma DivIs(x: nat, m: nat, q: nat, r: nat)
    requires r < m && x == m * q + r
    ensures x / m == q && x % m == r
  {
    var d, s := x / m, x % m;
    assert x == m * d + s;
    if d < q {
      ProductMonotone(m, d + 1, q);
    } else if q < d {
      ProductMonotone(m, q + 1, d);
    }
  }
}
