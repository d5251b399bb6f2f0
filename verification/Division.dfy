/** Quotients and remainders of natural numbers. */
module Division {

  lemma {:induction false} MulStep(a: nat, b: nat, d: nat)
    ensures a < b ==> a * d + d <= b * d
  {
    if a < b {
      assert b * d == (b - 1) * d + d;
      MulStep(a, b - 1, d);
    }
  }

  lemma Unique(n: nat, d: nat, q: nat, r: nat)
    requires n == q * d + r && r < d
    ensures n / d == q && n % d == r
  {
    var q' := n / d;
    MulStep(q, q', d);
    MulStep(q', q, d);
  }
}
