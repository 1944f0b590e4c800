/** Division and positions in a ring, for divisors that are not constants. */
module RingIndex {

  lemma Scale(g: int, a: int, b: int)
    requires g > 0 && a <= b
    ensures g * a <= g * b
  {}

  /** Quotient and remainder are the only ones. */
  lemma DivModIs(x: int, n: int, q: int, r: int)
    requires n > 0 && x == n * q + r && 0 <= r < n
    ensures x / n == q && x % n == r
  {
    var q', r' := x / n, x % n;
    assert x == n * q' + r' && 0 <= r' < n;
    assert n * (q' + 1) == n * q' + n && n * (q + 1) == n * q + n;
    if q' < q {
      Scale(n, q' + 1, q);
    } else if q < q' {
      Scale(n, q + 1, q');
    }
  }

  /** The position k places after another in a ring of n. */
  function Ring(from: int, n: int, k: int): (i: int)
    requires n >= 1
    ensures 0 <= i < n
  {
    (from + k) % n
  }

  /** Positions less than two rounds away wrap at most once. */
  lemma Wrap(from: int, n: int, k: int)
    requires n >= 1 && 0 <= from + k < 2 * n
    ensures Ring(from, n, k) == if from + k < n then from + k else from + k - n
  {
    if from + k < n {
      DivModIs(from + k, n, 0, from + k);
    } else {
      DivModIs(from + k, n, 1, from + k - n);
    }
  }
}
