/** Facts about products and Euclidean division that the image geometry
    rests on, each proved from one nonlinear step. */
module Arith {

  lemma MulNonneg(a: int, b: int)
    requires a >= 0 && b >= 0
    ensures a * b >= 0
  {
  }

  /** The quotient and remainder of a by n are the only q, r with
      a == q * n + r and 0 <= r < n. */
  lemma DivModUnique(a: int, n: int, q: int, r: int)
    requires n > 0 && 0 <= r < n && a == q * n + r
    ensures a / n == q && a % n == r
  {
    var q', r' := a / n, a % n;
    assert (q - q') * n == r' - r;
    if q - q' >= 1 {
      MulNonneg(q - q' - 1, n);
      assert false;
    } else if q - q' <= -1 {
      MulNonneg(q' - q - 1, n);
      assert false;
    }
  }

  /** Adding whole periods does not change the remainder. */
  lemma ModShift(a: int, k: int, n: int)
    requires n > 0
    ensures (a + k * n) % n == a % n
  {
    assert a == (a / n) * n + a % n;
    assert a + k * n == (a / n + k) * n + a % n;
    DivModUnique(a + k * n, n, a / n + k, a % n);
  }
}
