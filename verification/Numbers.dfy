/** Division and powers of 256. */
module Numbers {
  function Pow256(k: nat): (p: nat)
    ensures p > 0
  {
    if k == 0 then 1 else 256 * Pow256(k - 1)
  }

  lemma Larger(k: int, d: nat)
    requires k > 0
    ensures k * d >= d
  {
  }

  /** Quotient and remainder are the only numbers of their kind. */
  lemma DivModUnique(n: nat, d: nat, q: nat, r: nat)
    requires d > 0 && n == q * d + r && r < d
    ensures n / d == q && n % d == r
  {
    var x := n / d - q;
    assert n == (n / d) * d + n % d;
    assert x * d == r - n % d;
    if x >= 1 {
      Larger(x, d);
    } else if x <= -1 {
      Larger(-x, d);
    }
  }
}
