/** Real-number facts kept linear for the solver: products by a count as repeated addition. */
module Numeric {
  /** `n * x` as repeated addition, which keeps the bounds below linear. */
  function Times(n: nat, x: real): real {
    if n == 0 then 0.0 else Times(n - 1, x) + x
  }

  lemma {:induction false} TimesIsProduct(n: nat, x: real)
    ensures Times(n, x) == (n as real) * x
  {
    if n > 0 {
      TimesIsProduct(n - 1, x);
      Distrib((n - 1) as real, x);
    }
  }

  lemma Distrib(n: real, x: real)
    ensures (n + 1.0) * x == n * x + x
  {
  }

  lemma DivBoundsR(s: real, n: real, lo: real, hi: real)
    requires n > 0.0 && n * lo <= s <= n * hi
    ensures lo <= s / n <= hi
  {
  }

  /** A total between `n` times two bounds, divided by `n`, lies between the bounds. */
  lemma MeanBetween(s: real, n: nat, lo: real, hi: real)
    requires n > 0 && Times(n, lo) <= s <= Times(n, hi)
    ensures lo <= s / n as real <= hi
  {
    TimesIsProduct(n, lo);
    TimesIsProduct(n, hi);
    DivBoundsR(s, n as real, lo, hi);
  }
}
