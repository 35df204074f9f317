/** Index arithmetic on the toroidal board: the `xadd` / `yadd` helpers
    of gameoflife.c and the board constants they use. */
module Torus {

  /** Dimensions of the screen, and the number of worker tasks started
      per round (one per row). */
  const BoardWidth: int := 79
  const BoardHeight: int := 24
  const Threads: int := 24

  /** What wrapping means: the representative of `v` modulo `n` in `[0, n)`.
      Dafny's `%` is Euclidean, so this is the non-negative remainder
      even for negative `v`. */
  function Wrap(v: int, n: int): (r: int)
    requires n > 0
    ensures 0 <= r < n
  {
    v % n
  }

  /** Any value that differs from `v` by a multiple of `n` and lies in
      `[0, n)` is `Wrap(v, n)`. */
  lemma WrapUnique(v: int, k: int, n: int)
    requires n > 0
    requires 0 <= v + k * n < n
    ensures Wrap(v, n) == v + k * n
  {
    var q := v / n;
    var d := k + q;
    assert v == q * n + v % n;
    assert v + k * n == d * n + v % n by {
      assert k * n + q * n == (k + q) * n;
    }
    MultipleInWindow(d, n);
  }

  /** The only multiple of `n` strictly between `-n` and `n` is zero. */
  lemma MultipleInWindow(d: int, n: int)
    requires n > 0
    ensures -n < d * n < n ==> d == 0
  {
    if d > 0 {
      assert (d - 1) * n >= 0;
    } else if d < 0 {
      assert (-d - 1) * n >= 0;
    }
  }

  /** The wrapped value is congruent to the unwrapped one. */
  lemma WrapCongruent(v: int, n: int)
    requires n > 0
    ensures (Wrap(v, n) - v) % n == 0
  {
    var q := v / n;
    assert Wrap(v, n) - v == (-q) * n;
    WrapUnique((-q) * n, q, n);
  }

  /** An index already on the board is left alone. */
  lemma WrapInRange(v: int, n: int)
    requires 0 <= v < n
    ensures Wrap(v, n) == v
  {
    WrapUnique(v, 0, n);
  }

  /** Stepping off either edge lands on the opposite edge. */
  lemma WrapEdges(n: int)
    requires n > 0
    ensures Wrap(0 + -1, n) == n - 1
    ensures Wrap((n - 1) + 1, n) == 0
  {
    WrapUnique(-1, 1, n);
    WrapUnique(n, -1, n);
  }

  /** The index before `i` on a ring of `n` cells: from 0 it is the last. */
  function Prev(i: int, n: int): (r: int)
    requires 0 <= i < n
    ensures r == Wrap(i - 1, n)
  {
    if i == 0 then WrapEdges(n); n - 1
    else WrapInRange(i - 1, n); i - 1
  }

  /** The index after `i` on a ring of `n` cells: from the last it is 0. */
  function Next(i: int, n: int): (r: int)
    requires 0 <= i < n
    ensures r == Wrap(i + 1, n)
  {
    if i == n - 1 then WrapEdges(n); 0
    else WrapInRange(i + 1, n); i + 1
  }

  /** The two correction loops of `xadd`/`yadd` for a dimension of size
      `n`: add `n` while negative, then subtract `n` while too large. */
  method AddWrapped(i: int, a: int, n: int) returns (r: int)
    requires n > 0
    ensures 0 <= r < n
    ensures r == Wrap(i + a, n)
    ensures 0 <= i + a < n ==> r == i + a
  {
    r := i + a;
    ghost var k := 0;
    while r < 0
      invariant r == i + a + k * n
      decreases -r
    {
      r := r + n;
      k := k + 1;
    }
    while r >= n
      invariant 0 <= r
      invariant r == i + a + k * n
      decreases r
    {
      r := r - n;
      k := k - 1;
    }
    WrapUnique(i + a, k, n);
    if 0 <= i + a < n {
      WrapInRange(i + a, n);
    }
  }

  /** `xadd`: add to a column index, wrapping around the board width. */
  method XAdd(i: int, a: int) returns (r: int)
    ensures 0 <= r < BoardWidth
    ensures r == Wrap(i + a, BoardWidth)
    ensures 0 <= i + a < BoardWidth ==> r == i + a
  {
    r := AddWrapped(i, a, BoardWidth);
  }

  /** `yadd`: add to a row index, wrapping around the board height. */
  method YAdd(i: int, a: int) returns (r: int)
    ensures 0 <= r < BoardHeight
    ensures r == Wrap(i + a, BoardHeight)
    ensures 0 <= i + a < BoardHeight ==> r == i + a
  {
    r := AddWrapped(i, a, BoardHeight);
  }
}
