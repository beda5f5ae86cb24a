/** Products, quotients and remainders of natural numbers. */
module Arithmetic {
  lemma MulGrows(m: nat, p: nat, q: nat)
    requires p <= q
    ensures m * p <= m * q
  {
  }

  lemma MulGap(m: nat, p: nat, q: nat)
    requires p < q
    ensures m * p + m <= m * q
  {
    MulGrows(m, p + 1, q);
    assert m * (p + 1) == m * p + m;
  }

  lemma Parts(x: nat, d: nat)
    requires d > 0
    ensures x == d * (x / d) + x % d && x % d < d
  {
  }

  /** There is only one quotient and one remainder. */
  lemma DivModUnique(x: nat, d: nat, q: nat, r: nat)
    requires d > 0 && x == d * q + r && r < d
    ensures x / d == q && x % d == r
  {
    Parts(x, d);
    QuotientUnique(d, x / d, x % d, q, r);
  }

  lemma QuotientUnique(d: nat, p: nat, s: nat, q: nat, r: nat)
    requires d * p + s == d * q + r && s < d && r < d
    ensures p == q && s == r
  {
    if p < q {
      MulGap(d, p, q);
      assert false;
    } else if q < p {
      MulGap(d, q, p);
      assert false;
    }
  }

  lemma Regroup(d: nat, q: nat, p: nat, r: nat)
    ensures d * (q + p) + r == d * q + (d * p + r)
  {
  }

  /** Moving on by `add` from where quotient and remainder are known. */
  lemma AddParts(d: nat, x: nat, q: nat, r: nat, add: nat)
    requires d > 0 && x == d * q + r
    ensures (x + add) / d == q + (r + add) / d && (x + add) % d == (r + add) % d
  {
    var q2, r2 := (r + add) / d, (r + add) % d;
    Parts(r + add, d);
    Regroup(d, q, q2, r2);
    DivModUnique(x + add, d, q + q2, r2);
  }
}
