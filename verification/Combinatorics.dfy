/** Binomial coefficients, by Pascal's rule. */
module Combinatorics {
  function Choose(n: nat, k: int): (c: nat)
    ensures 0 <= k <= n <==> c > 0
    decreases n
  {
    if k < 0 then 0
    else if n == 0 then (if k == 0 then 1 else 0)
    else Choose(n - 1, k - 1) + Choose(n - 1, k)
  }

  /** Neighbouring coefficients of a row. */
  lemma {:induction false} ChooseNext(n: nat, k: nat)
    ensures (k + 1) * Choose(n, k + 1) == (n - k) * Choose(n, k)
    decreases n
  {
    if n > 0 {
      ChooseNext(n - 1, k);
      var a, b, c := Choose(n - 1, k - 1), Choose(n - 1, k), Choose(n - 1, k + 1);
      if k > 0 {
        ChooseNext(n - 1, k - 1);
      }
      RowStep(n, k, a, b, c);
    }
  }

  lemma RowStep(n: nat, k: nat, a: int, b: int, c: int)
    requires (k + 1) * c == (n - 1 - k) * b
    requires k * b == (n - k) * a
    ensures (k + 1) * (b + c) == (n - k) * (a + b)
  {
  }
}
