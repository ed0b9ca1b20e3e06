/** Facts of integer arithmetic shared by the buffer addressing and the frame schedule. */
module Arith {

  lemma MulMono(a: nat, b: nat, c: nat)
    requires a <= b
    ensures a * c <= b * c
  {
  }

  /** Quotient and remainder are unique: once `n` is written as `q * d + r` with
      `0 <= r < d`, `/` and `%` give back exactly `q` and `r`. */
  lemma DivModUnique(n: nat, d: nat, q: nat, r: nat)
    requires r < d && n == q * d + r
    ensures n / d == q && n % d == r
  {
    var q', r' := n / d, n % d;
    assert n == q' * d + r';
    if q' < q {
      MulMono(q' + 1, q, d);
      assert false;
    } else if q' > q {
      MulMono(q + 1, q', d);
      assert false;
    }
  }
}
