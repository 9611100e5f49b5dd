/** Facts about Euclidean division that both engines' cursor arithmetic
    rests on. */
module Arith {

  /** `((a % n) + 1) % n == (a + 1) % n`. */
  lemma {:induction false} ModSucc(a: int, n: int)
    requires n > 0
    ensures ((a % n) + 1) % n == (a + 1) % n
  {
    var q, r := a / n, a % n;
    if r + 1 < n {
      DivMod(a + 1, n, q, r + 1);
      DivMod(r + 1, n, 0, r + 1);
    } else {
      DivMod(a + 1, n, q + 1, 0);
      DivMod(r + 1, n, 1, 0);
    }
  }

  /** Euclidean division is unique: `q * n + r` with `0 <= r < n` has
      quotient `q` and remainder `r`. */
  lemma {:induction false} DivMod(a: int, n: int, q: int, r: int)
    requires n > 0 && 0 <= r < n && a == q * n + r
    ensures a % n == r && a / n == q
  {
    var d := q - a / n;
    assert d * n == a % n - r;
    MulAwayFromZero(d, n);
  }

  /** A non-zero multiple of a positive `n` is at least `n` away from zero. */
  lemma {:induction false} MulAwayFromZero(d: int, n: int)
    requires n > 0
    ensures d > 0 ==> d * n >= n
    ensures d < 0 ==> d * n <= -n
    decreases if d < 0 then -d else d
  {
    if d > 1 {
      MulAwayFromZero(d - 1, n);
      assert d * n == (d - 1) * n + n;
    } else if d < -1 {
      MulAwayFromZero(d + 1, n);
      assert d * n == (d + 1) * n - n;
    }
  }
}
