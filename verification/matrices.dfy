/** Square matrices as sequences of rows, and the numpy linearisations the
    surface generator relies on: `flatten(order="F")`,
    `reshape(n, n, order="F")`, row-major `flatten()` and the transpose
    `.H` (on real data the conjugate transpose is the plain transpose). */
module Matrices {
  import opened PyInt
  import opened Permutations

  type Matrix<T> = seq<seq<T>>

  /** `m` has `n` rows of `n` entries each. */
  predicate IsSquare<T>(m: Matrix<T>, n: nat) {
    |m| == n && forall i :: 0 <= i < n ==> |m[i]| == n
  }

  /** The position of cell `(outer, inner)` when an `n x n` grid is laid out
      with the `outer` coordinate varying slowest. Row-major order lays out
      `(row, col)` at `Linear(row, col, n)`, column-major order at
      `Linear(col, row, n)`. */
  function Linear(outer: nat, inner: nat, n: nat): (k: nat)
    requires outer < n && inner < n
    ensures k < n * n
    ensures k / n == outer && k % n == inner
  {
    CellIndex(outer, inner, n);
    outer * n + inner
  }

  /** The slow coordinate of a linear position. */
  function Outer(k: nat, n: nat): (outer: nat)
    requires k < n * n
    ensures outer < n
  {
    SplitIndex(k, n);
    k / n
  }

  /** The fast coordinate of a linear position. */
  function Inner(k: nat, n: nat): (inner: nat)
    requires k < n * n
    ensures inner < n
    ensures Linear(Outer(k, n), inner, n) == k
  {
    SplitIndex(k, n);
    k % n
  }

  /** numpy's `m.flatten(order="F")`: columns one after the other. */
  function FlattenF<T>(m: Matrix<T>, n: nat): (v: seq<T>)
    requires IsSquare(m, n)
    ensures |v| == n * n
    ensures forall r, c :: 0 <= r < n && 0 <= c < n ==> v[Linear(c, r, n)] == m[r][c]
  {
    seq(n * n, k requires 0 <= k < n * n => m[Inner(k, n)][Outer(k, n)])
  }

  /** numpy's `m.flatten()` (order "C"): rows one after the other. */
  function FlattenC<T>(m: Matrix<T>, n: nat): (v: seq<T>)
    requires IsSquare(m, n)
    ensures |v| == n * n
    ensures forall r, c :: 0 <= r < n && 0 <= c < n ==> v[Linear(r, c, n)] == m[r][c]
  {
    seq(n * n, k requires 0 <= k < n * n => m[Outer(k, n)][Inner(k, n)])
  }

  /** numpy's `v.reshape(n, n, order="F")`: `v` read as consecutive
      columns. */
  function ReshapeF<T>(v: seq<T>, n: nat): (m: Matrix<T>)
    requires |v| == n * n
    ensures IsSquare(m, n)
    ensures forall r, c :: 0 <= r < n && 0 <= c < n ==> m[r][c] == v[Linear(c, r, n)]
  {
    seq(n, r requires 0 <= r < n => seq(n, c requires 0 <= c < n => v[Linear(c, r, n)]))
  }

  /** `m.T`, which for a real matrix is also numpy's `.H`. */
  function Transpose<T>(m: Matrix<T>, n: nat): (t: Matrix<T>)
    requires IsSquare(m, n)
    ensures IsSquare(t, n)
    ensures forall i, j :: 0 <= i < n && 0 <= j < n ==> t[i][j] == m[j][i]
  {
    seq(n, i requires 0 <= i < n => seq(n, j requires 0 <= j < n => m[j][i]))
  }

  /** Two square matrices that agree cell by cell are equal. */
  lemma SquareExtensionality<T>(a: Matrix<T>, b: Matrix<T>, n: nat)
    requires IsSquare(a, n) && IsSquare(b, n)
    requires forall i, j :: 0 <= i < n && 0 <= j < n ==> a[i][j] == b[i][j]
    ensures a == b
  {
    forall i | 0 <= i < n
      ensures a[i] == b[i]
    {
      assert forall j :: 0 <= j < n ==> a[i][j] == b[i][j];
    }
  }

  /** Reshaping column-major undoes flattening column-major. */
  lemma ReshapeFlattenF<T>(m: Matrix<T>, n: nat)
    requires IsSquare(m, n)
    ensures ReshapeF(FlattenF(m, n), n) == m
  {
    SquareExtensionality(ReshapeF(FlattenF(m, n), n), m, n);
  }

  /** Flattening column-major undoes reshaping column-major. */
  lemma FlattenReshapeF<T>(v: seq<T>, n: nat)
    requires |v| == n * n
    ensures FlattenF(ReshapeF(v, n), n) == v
  {
    var w := FlattenF(ReshapeF(v, n), n);
    forall k | 0 <= k < n * n
      ensures w[k] == v[k]
    {
      assert k == Linear(Outer(k, n), Inner(k, n), n);
    }
  }

  /** Transposing twice gives back the matrix. */
  lemma TransposeInvolution<T>(m: Matrix<T>, n: nat)
    requires IsSquare(m, n)
    ensures Transpose(Transpose(m, n), n) == m
  {
    SquareExtensionality(Transpose(Transpose(m, n), n), m, n);
  }

  /** Reshaping column-major and then transposing is the same as reshaping
      row-major: cell `(i, j)` of the result is `v[i * n + j]`. */
  lemma TransposedReshapeF<T>(v: seq<T>, n: nat)
    requires |v| == n * n
    ensures FlattenC(Transpose(ReshapeF(v, n), n), n) == v
  {
    var w := FlattenC(Transpose(ReshapeF(v, n), n), n);
    forall k | 0 <= k < n * n
      ensures w[k] == v[k]
    {
      assert k == Linear(Outer(k, n), Inner(k, n), n);
    }
  }

  /** The permutation that carries the column-major layout of an `n x n`
      grid to its row-major layout. */
  function TransposeIndices(n: nat): (p: seq<nat>)
    ensures IsPermutation(p, n * n)
  {
    var p: seq<nat> := seq(n * n, k requires 0 <= k < n * n => Linear(Inner(k, n), Outer(k, n), n));
    forall a, b | 0 <= a < b < n * n
      ensures p[a] != p[b]
    {
      assert a == Linear(Outer(a, n), Inner(a, n), n);
      assert b == Linear(Outer(b, n), Inner(b, n), n);
    }
    p
  }

  /** Both linearisations hold the same entries, so the multiset of a
      matrix's entries does not depend on the order it is read in. */
  lemma FlattenOrdersSameEntries<T>(m: Matrix<T>, n: nat)
    requires IsSquare(m, n)
    ensures multiset(FlattenF(m, n)) == multiset(FlattenC(m, n))
  {
    var f, c, p := FlattenF(m, n), FlattenC(m, n), TransposeIndices(n);
    forall k | 0 <= k < n * n
      ensures Gather(f, p)[k] == c[k]
    {
      assert k == Linear(Outer(k, n), Inner(k, n), n);
    }
    assert Gather(f, p) == c;
    GatherPermutationMultiset(f, p);
  }
}
