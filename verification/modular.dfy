/** Facts about Dafny's (Euclidean) `%` that the cyclic index arithmetic of
    the carousel relies on. */
module Modular {

  /** A positive multiple of `n` is at least `n`. */
  lemma {:induction false} MulAtLeast(d: int, n: int)
    requires 1 <= d && 0 <= n
    ensures d * n >= n
    decreases d
  {
    if d > 1 {
      MulAtLeast(d - 1, n);
      assert d * n == (d - 1) * n + n;
    }
  }

  /** `x % n` and `x / n` are the unique remainder and quotient. */
  lemma ModUnique(x: int, n: int, q: int, r: int)
    requires 0 < n && 0 <= r < n
    requires x == q * n + r
    ensures x % n == r && x / n == q
  {
    var q', r' := x / n, x % n;
    assert x == q' * n + r';
    var d := q - q';
    assert d * n == q * n - q' * n;
    if d >= 1 {
      MulAtLeast(d, n);
      assert false;
    } else if d <= -1 {
      MulAtLeast(-d, n);
      assert false;
    }
  }

  /** Reducing the left summand first does not change the remainder. */
  lemma ModAddLeft(a: int, b: int, n: int)
    requires 0 < n
    ensures (a % n + b) % n == (a + b) % n
  {
    var q := a / n;
    var s := a % n + b;
    ModUnique(s, n, s / n, s % n);
    ModUnique(a + b, n, q + s / n, s % n);
  }

  /** Adding a whole turn does not change the remainder. */
  lemma ModAddPeriod(a: int, n: int)
    requires 0 < n
    ensures (a + n) % n == a % n
  {
    ModUnique(a + n, n, a / n + 1, a % n);
  }

  /** Adding any number of whole turns does not change the remainder. */
  lemma ModAddMultiple(a: int, m: int, n: int)
    requires 0 < n
    ensures (a + m * n) % n == a % n
  {
    assert a + m * n == (a / n + m) * n + a % n;
    ModUnique(a + m * n, n, a / n + m, a % n);
  }
}
