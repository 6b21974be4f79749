/** Integer facts the address arithmetic needs and the solver does not find
    on its own (multiplication by a variable is non-linear). */
module Arith {

  lemma {:induction false} MulAtLeast(d: int, n: int)
    requires d >= 1 && n > 0
    ensures d * n >= n
    decreases d
  {
    if d > 1 {
      MulAtLeast(d - 1, n);
      assert d * n == (d - 1) * n + n;
    }
  }

  /** The only multiple of `n` strictly between `-n` and `n` is zero. */
  lemma SmallMultiple(d: int, n: int)
    requires n > 0 && -n < d * n < n
    ensures d == 0
  {
    if d >= 1 {
      MulAtLeast(d, n);
    } else if d <= -1 {
      MulAtLeast(-d, n);
    }
  }

  /** Quotient and remainder are determined by `x == q * n + r` with `0 <= r < n`. */
  lemma DivModUnique(x: int, n: int, q: int, r: int)
    requires n > 0 && 0 <= r < n && x == q * n + r
    ensures x / n == q && x % n == r
  {
    var q', r' := x / n, x % n;
    assert (q' - q) * n == r - r';
    SmallMultiple(q' - q, n);
  }

  /** One step of a hand that wraps at `n`. */
  lemma WrapStep(x: int, n: int)
    requires n > 0 && 0 <= x < n
    ensures (x + 1) % n == if x + 1 == n then 0 else x + 1
  {
    if x + 1 == n {
      DivModUnique(x + 1, n, 1, 0);
    } else {
      DivModUnique(x + 1, n, 0, x + 1);
    }
  }
}
