/** Facts about multiplication and Euclidean division that the solver needs spelled out. */
module Arith {
  lemma {:induction false} MulAtLeast(a: int, d: int)
    requires a >= 1 && d > 0
    ensures a * d >= d
    decreases a
  {
    if a > 1 {
      MulAtLeast(a - 1, d);
      assert a * d == (a - 1) * d + d;
    }
  }

  /** Euclidean division is unique: `q * d + r` with `0 <= r < d` has quotient `q` and remainder `r`. */
  lemma DivModUnique(x: int, q: int, r: int, d: int)
    requires d > 0 && 0 <= r < d && x == q * d + r
    ensures x / d == q && x % d == r
  {
    var q', r' := x / d, x % d;
    assert x == q' * d + r';
    assert (q - q') * d == r' - r;
    if q > q' {
      MulAtLeast(q - q', d);
    } else if q < q' {
      MulAtLeast(q' - q, d);
    }
  }
}
