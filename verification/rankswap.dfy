/** The rank-order swap of the non-Gaussian reshaping step: positions of the
    correlated Gaussian field are ordered by value, and the k-th smallest
    value of an independent reference sample is written to the position of
    the field's k-th smallest value. */
module RankSwap {
  import opened Permutations
  import opened Sorting
  import opened Matrices

  /** numpy's `zeros_like(v)`. */
  function ZerosLike(v: seq<Height>): (z: seq<Height>)
    ensures |z| == |v|
    ensures forall i :: 0 <= i < |z| ==> z[i] == 0.0
  {
    seq(|v|, _ => 0.0)
  }

  /** numpy's index assignment `base[idx] = vals`, one write per index in
      the order of `idx`; a repeated index keeps the last value written.
      Positions not listed keep their base value, and with distinct indices
      every listed position ends up holding its own value. */
  function Scatter(base: seq<Height>, idx: seq<nat>, vals: seq<Height>): (r: seq<Height>)
    requires |idx| == |vals| && InBounds(idx, |base|)
    ensures |r| == |base|
    ensures forall p :: 0 <= p < |base| && p !in idx ==> r[p] == base[p]
    ensures Distinct(idx) ==> forall k :: 0 <= k < |idx| ==> r[idx[k]] == vals[k]
    decreases |idx|
  {
    if |idx| == 0 then base
    else
      var r := Scatter(base[idx[0] := vals[0]], idx[1..], vals[1..]);
      assert forall j :: 0 <= j < |idx[1..]| ==> idx[1..][j] == idx[j + 1];
      assert Distinct(idx) ==> idx[0] !in idx[1..];
      r
  }

  /** The rank-order swap of `generate_surface` (`argsort`, `sort` and the
      scatter `v_ngs[Igs] = vs_ngn`), on the column-major flattenings `vGs` of
      the Gaussian field and `vNgn` of the reference sample, for one
      admissible `argsort` result `igs` of `vGs`: the result is `v_ngs`. */
  function RankOrderSwap(vGs: seq<Height>, vNgn: seq<Height>, igs: seq<nat>): (vNgs: seq<Height>)
    requires |vGs| == |vNgn| && IsArgsort(vGs, igs)
    ensures |vNgs| == |vNgn|
    ensures Gather(vNgs, igs) == Sort(vNgn)
  {
    Scatter(ZerosLike(vNgn), igs, Sort(vNgn))
  }

  /** Position `i` receives the reference value whose rank equals the rank
      of position `i` in the Gaussian field. */
  lemma RankOrderSwapByRank(vGs: seq<Height>, vNgn: seq<Height>, igs: seq<nat>)
    requires |vGs| == |vNgn| && IsArgsort(vGs, igs)
    ensures forall i :: 0 <= i < |vGs| ==>
      RankOrderSwap(vGs, vNgn, igs)[i] == Sort(vNgn)[Inverse(igs, |vGs|)[i]]
  {
    var inv := Inverse(igs, |vGs|);
    var vNgs := RankOrderSwap(vGs, vNgn, igs);
    forall i | 0 <= i < |vGs|
      ensures vNgs[i] == Sort(vNgn)[inv[i]]
    {
      assert igs[inv[i]] == i;
      assert Gather(vNgs, igs)[inv[i]] == vNgs[i];
    }
  }

  /** The output values are exactly the reference values, rearranged. */
  lemma RankOrderSwapMultiset(vGs: seq<Height>, vNgn: seq<Height>, igs: seq<nat>)
    requires |vGs| == |vNgn| && IsArgsort(vGs, igs)
    ensures multiset(RankOrderSwap(vGs, vNgn, igs)) == multiset(vNgn)
  {
    GatherPermutationMultiset(RankOrderSwap(vGs, vNgn, igs), igs);
  }

  /** The swap keeps the Gaussian field's order: a strictly smaller Gaussian
      value never receives a larger reference value, and a strictly smaller
      output value sits where the Gaussian value was not larger. */
  lemma RankOrderSwapPreservesOrder(vGs: seq<Height>, vNgn: seq<Height>, igs: seq<nat>)
    requires |vGs| == |vNgn| && IsArgsort(vGs, igs)
    ensures forall i, j :: 0 <= i < |vGs| && 0 <= j < |vGs| && vGs[i] < vGs[j] ==>
      RankOrderSwap(vGs, vNgn, igs)[i] <= RankOrderSwap(vGs, vNgn, igs)[j]
    ensures forall i, j ::
      (0 <= i < |vGs| && 0 <= j < |vGs| &&
       RankOrderSwap(vGs, vNgn, igs)[i] < RankOrderSwap(vGs, vNgn, igs)[j]) ==> vGs[i] <= vGs[j]
  {
    var n := |vGs|;
    var vNgs, sorted, inv := RankOrderSwap(vGs, vNgn, igs), Sort(vNgn), Inverse(igs, n);
    forall i, j | 0 <= i < n && 0 <= j < n && vGs[i] < vGs[j]
      ensures vNgs[i] <= vNgs[j]
    {
      var a, b := inv[i], inv[j];
      assert igs[a] == i && igs[b] == j;
      assert Gather(vNgs, igs)[a] == vNgs[i] && Gather(vNgs, igs)[b] == vNgs[j];
    }
  }

  /** `RankOrderSwap` is the only rearrangement of the reference values
      that is ascending along the Gaussian field's rank order. */
  lemma RankOrderSwapUnique(vGs: seq<Height>, vNgn: seq<Height>, igs: seq<nat>, w: seq<Height>)
    requires |vGs| == |vNgn| && IsArgsort(vGs, igs)
    requires multiset(w) == multiset(vNgn) && |w| == |vGs| && SortedBy(w, igs)
    ensures w == RankOrderSwap(vGs, vNgn, igs)
  {
    var n := |vGs|;
    var vNgs := RankOrderSwap(vGs, vNgn, igs);
    GatherPermutationMultiset(w, igs);
    SortedUnique(Gather(w, igs), Sort(vNgn));
    PermutationCovers(igs, n);
    forall i | 0 <= i < n
      ensures w[i] == vNgs[i]
    {
      var k := IndexOf(igs, i);
      assert Gather(w, igs)[k] == w[i];
    }
  }

  /** The rank-order swap of `generate_surface` on whole `n x n` fields:
      flatten the Gaussian field `zGs` and the reference sample `zNgn`
      column-major, swap, reshape column-major and transpose (`.H`). */
  function SwapSurface(zGs: Matrix<Height>, zNgn: Matrix<Height>, n: nat, igs: seq<nat>): (zNgs: Matrix<Height>)
    requires IsSquare(zGs, n) && IsSquare(zNgn, n)
    requires IsArgsort(FlattenF(zGs, n), igs)
    ensures IsSquare(zNgs, n)
    ensures FlattenC(zNgs, n) == RankOrderSwap(FlattenF(zGs, n), FlattenF(zNgn, n), igs)
    ensures forall i, j :: 0 <= i < n && 0 <= j < n ==>
      zNgs[i][j] == RankOrderSwap(FlattenF(zGs, n), FlattenF(zNgn, n), igs)[Linear(i, j, n)]
  {
    var vNgs := RankOrderSwap(FlattenF(zGs, n), FlattenF(zNgn, n), igs);
    TransposedReshapeF(vNgs, n);
    Transpose(ReshapeF(vNgs, n), n)
  }

  /** The surface holds exactly the values of the reference sample. */
  lemma SwapSurfaceMultiset(zGs: Matrix<Height>, zNgn: Matrix<Height>, n: nat, igs: seq<nat>)
    requires IsSquare(zGs, n) && IsSquare(zNgn, n)
    requires IsArgsort(FlattenF(zGs, n), igs)
    ensures multiset(FlattenF(SwapSurface(zGs, zNgn, n, igs), n)) == multiset(FlattenF(zNgn, n))
  {
    FlattenOrdersSameEntries(SwapSurface(zGs, zNgn, n, igs), n);
    RankOrderSwapMultiset(FlattenF(zGs, n), FlattenF(zNgn, n), igs);
  }

  /** Because of the final transpose, entry `(i, j)` of the surface carries
      the rank of entry `(j, i)` of the Gaussian field: a strictly smaller
      Gaussian value at `(j1, i1)` than at `(j2, i2)` never gives a larger
      surface value at `(i1, j1)` than at `(i2, j2)`. */
  lemma SwapSurfaceTransposesRanks(zGs: Matrix<Height>, zNgn: Matrix<Height>, n: nat, igs: seq<nat>)
    requires IsSquare(zGs, n) && IsSquare(zNgn, n)
    requires IsArgsort(FlattenF(zGs, n), igs)
    ensures forall i1, j1, i2, j2 ::
      0 <= i1 < n && 0 <= j1 < n && 0 <= i2 < n && 0 <= j2 < n && zGs[j1][i1] < zGs[j2][i2] ==>
        SwapSurface(zGs, zNgn, n, igs)[i1][j1] <= SwapSurface(zGs, zNgn, n, igs)[i2][j2]
  {
    var vGs := FlattenF(zGs, n);
    var vNgs := RankOrderSwap(vGs, FlattenF(zNgn, n), igs);
    var zNgs := SwapSurface(zGs, zNgn, n, igs);
    RankOrderSwapPreservesOrder(vGs, FlattenF(zNgn, n), igs);
    forall i1, j1, i2, j2 |
      0 <= i1 < n && 0 <= j1 < n && 0 <= i2 < n && 0 <= j2 < n && zGs[j1][i1] < zGs[j2][i2]
      ensures zNgs[i1][j1] <= zNgs[i2][j2]
    {
      var a, b := Linear(i1, j1, n), Linear(i2, j2, n);
      assert vGs[a] == zGs[j1][i1] && vGs[b] == zGs[j2][i2];
      assert vNgs[a] <= vNgs[b];
    }
  }

  /** Without the transpose the ranks would line up position by position:
      the column-major reshape of the swapped values orders like the
      Gaussian field itself. */
  lemma ReshapedSwapKeepsRanks(zGs: Matrix<Height>, zNgn: Matrix<Height>, n: nat, igs: seq<nat>)
    requires IsSquare(zGs, n) && IsSquare(zNgn, n)
    requires IsArgsort(FlattenF(zGs, n), igs)
    ensures forall r1, c1, r2, c2 ::
      0 <= r1 < n && 0 <= c1 < n && 0 <= r2 < n && 0 <= c2 < n && zGs[r1][c1] < zGs[r2][c2] ==>
        ReshapeF(RankOrderSwap(FlattenF(zGs, n), FlattenF(zNgn, n), igs), n)[r1][c1] <=
        ReshapeF(RankOrderSwap(FlattenF(zGs, n), FlattenF(zNgn, n), igs), n)[r2][c2]
  {
    var vGs := FlattenF(zGs, n);
    var vNgs := RankOrderSwap(vGs, FlattenF(zNgn, n), igs);
    var m := ReshapeF(vNgs, n);
    RankOrderSwapPreservesOrder(vGs, FlattenF(zNgn, n), igs);
    forall r1, c1, r2, c2 |
      0 <= r1 < n && 0 <= c1 < n && 0 <= r2 < n && 0 <= c2 < n && zGs[r1][c1] < zGs[r2][c2]
      ensures m[r1][c1] <= m[r2][c2]
    {
      var a, b := Linear(c1, r1, n), Linear(c2, r2, n);
      assert vGs[a] == zGs[r1][c1] && vGs[b] == zGs[r2][c2];
    }
  }
}
