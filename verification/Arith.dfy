/** Multiples, remainders and truncation. */
module Arith {

  /** Conversion of a real number to an integer: towards zero. */
  function Trunc(x: real): int {
    if x < 0.0 then -(-x).Floor else x.Floor
  }

  /** A multiple of `n` other than 0 is at least `n` away from 0. */
  lemma MulApart(k: int, n: nat)
    ensures k != 0 ==> k * n >= n || k * n + n <= 0
  {
    if k >= 1 {
      assert (k - 1) * n >= 0;
    } else if k <= -1 {
      assert (-k - 1) * n >= 0;
    }
  }

  lemma DivModUnique(x: nat, n: nat, q: nat, m: nat)
    requires x == q * n + m && m < n
    ensures x / n == q && x % n == m
  {
    assert x == (x / n) * n + x % n;
    assert (q - x / n) * n == x % n - m;
    MulApart(q - x / n, n);
  }
}
