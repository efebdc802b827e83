/** Python integer semantics used by the surface generator: floor division,
    negative sequence indices and the index arithmetic of square grids. */
module PyInt {

  /** Python's `a // b`: the quotient rounded towards negative infinity.
      Dafny's `/` is Euclidean, which agrees with flooring only for a
      positive divisor, so a negative divisor is handled by negating both
      operands. */
  function FloorDiv(a: int, b: int): (q: int)
    requires b != 0
    ensures b > 0 ==> q * b <= a < q * b + b
    ensures b < 0 ==> q * b + b < a <= q * b
  {
    if b > 0 then a / b else (-a) / (-b)
  }

  /** Python's subscript `s[k]` on a sequence of length `len`: a negative
      index counts from the end. Indices outside `[-len, len)` raise
      `IndexError`; callers prove they never supply one. */
  function WrapIndex(k: int, len: nat): (i: nat)
    requires 0 <= k + len && k < len
    ensures i < len
    ensures k >= 0 ==> i == k
    ensures k < 0 ==> i == len + k
  {
    if k < 0 then len + k else k
  }

  /** A positive multiple of a positive number is at least that number. */
  lemma MulAtLeast(a: int, n: int)
    requires a >= 1 && n > 0
    ensures a * n >= n
    decreases a
  {
    if a > 1 {
      MulAtLeast(a - 1, n);
      assert a * n == (a - 1) * n + n;
    }
  }

  /** `q * n + r` with `0 <= r < n` has quotient `q` and remainder `r`. */
  lemma DivModUnique(k: int, n: int, q: int, r: int)
    requires n > 0 && 0 <= r < n && k == q * n + r
    ensures k / n == q && k % n == r
  {
    var q', r' := k / n, k % n;
    assert k == q' * n + r';
    assert (q - q') * n == r' - r;
    if q > q' {
      MulAtLeast(q - q', n);
    } else if q < q' {
      MulAtLeast(q' - q, n);
    }
  }

  /** Cell `(i, j)` of an `n x n` grid read row by row sits at `i * n + j`;
      division and remainder by `n` recover the pair. */
  lemma CellIndex(i: int, j: int, n: int)
    requires 0 <= i < n && 0 <= j < n
    ensures 0 <= i * n + j < n * n
    ensures (i * n + j) / n == i && (i * n + j) % n == j
  {
    MulAtLeast(n - i, n);
    assert (n - i) * n == n * n - i * n;
    if i > 0 {
      MulAtLeast(i, n);
    }
    DivModUnique(i * n + j, n, i, j);
  }

  /** Every index below `n * n` splits into a row `k / n` and a column
      `k % n` of an `n x n` grid. */
  lemma SplitIndex(k: int, n: int)
    requires n > 0 && 0 <= k < n * n
    ensures 0 <= k / n < n && 0 <= k % n < n
    ensures k == (k / n) * n + k % n
  {
    var q := k / n;
    assert k == q * n + k % n;
    if q > n {
      MulAtLeast(q - n, n);
    }
    if q < 0 {
      MulAtLeast(-q, n);
    }
  }
}
