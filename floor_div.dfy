/** Facts about floor division of non-negative integers, stated once so that the
    schedule proofs do not make the solver rediscover non-linear arithmetic. */
module FloorDiv {

  /** Multiplication by a non-negative factor keeps order (stated as an implication
      so that callers can use it without a case split). */
  lemma MulMono(a: int, b: int, c: int)
    ensures a <= b && 0 <= c ==> a * c <= b * c
  {
    assert b * c - a * c == (b - a) * c;
  }

  /** `x / d` counts the whole `d`-sized periods in `x`. */
  lemma Bounds(x: int, d: int)
    requires 0 <= x && 0 < d
    ensures 0 <= x / d <= x
    ensures (x / d) * d <= x < (x / d) * d + d
  {
    var q, r := x / d, x % d;
    assert x == q * d + r && 0 <= r < d;
    MulMono(q, -1, d);
    assert -1 * d == -d;
    MulMono(1, d, q);
  }

  /** The quotient is the unique `q` with `q * d <= x < q * d + d`. */
  lemma Unique(x: int, d: int, q: int)
    requires 0 <= x && 0 < d
    requires q * d <= x < q * d + d
    ensures x / d == q
  {
    Bounds(x, d);
    var p := x / d;
    MulMono(p + 1, q, d);
    MulMono(q + 1, p, d);
    assert (p + 1) * d == p * d + d;
    assert (q + 1) * d == q * d + d;
  }

  /** Removing `k` whole periods removes exactly `k` from the count. */
  lemma SubPeriods(x: int, d: int, k: int)
    requires 0 < d && 0 <= k && k * d <= x
    ensures (x - k * d) / d == x / d - k
  {
    Bounds(x, d);
    var q := x / d;
    assert (q - k) * d == q * d - k * d;
    Unique(x - k * d, d, q - k);
  }

  /** More time never means fewer whole periods. */
  lemma Mono(x: int, y: int, d: int)
    requires 0 <= x <= y && 0 < d
    ensures x / d <= y / d
  {
    Bounds(x, d);
    Bounds(y, d);
    var p, q := x / d, y / d;
    MulMono(q + 1, p, d);
    assert (q + 1) * d == q * d + d;
  }
}
