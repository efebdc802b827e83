# RoughGAN surface generator: the discrete core in Dafny

RoughGAN synthesises rough-surface height maps for training generative
models. `SurfaceGenerator.generate_surface` builds a lag-indexed
autocorrelation grid and filters white noise through its spectrum to get a
correlated Gaussian field. It then imports a skewed height distribution by
a *rank-order swap*: the k-th smallest value of an independent Pearson
type III sample goes to the position of the Gaussian field's k-th smallest
value. The generator object is called with a count (`g(k)`) and then
iterated to produce that many surfaces.

This project models the parts of that algorithm that are about order and
indices, not floating-point numerics:

- `pyint.dfy` (`PyInt`): Python's floor division `//` and negative
  subscripts, plus the index arithmetic of an `n x n` grid.
- `laggrid.dfy` (`LagGrid`): the lag bounds and step, the
  `range` the lag loops visit, the wrapped write index `tx + txmax`, and
  the nested loops that fill `R`. The loops count their writes, which
  proves that every cell is written exactly once.
- `permutations.dfy` (`Permutations`) and `sorting.dfy` (`Sorting`):
  index permutations, numpy fancy indexing `s[p]`, `sort`, `argsort` and
  the generator's `sort` helper. numpy's default `argsort` is not stable,
  so the swap theorems hold for *every* index order that sorts the field
  (`IsArgsort`). `Argsort` is one such order, and by `SortedUnique` the
  sorted values do not depend on which one is used.
- `matrices.dfy` (`Matrices`): `flatten(order="F")`,
  `reshape(n, n, order="F")` and the transpose `.H` (a plain transpose on
  real data).
- `rankswap.dfy` (`RankSwap`): the scatter `v_ngs[Igs] = vs_ngn` and the
  rank-order swap, first on flat sequences and then on whole surfaces.
- `generators.dfy` (`Generators`): the configuration, the call-then-iterate
  protocol and `generate_surface` for one draw of its random inputs.

Heights are Dafny `real`s; only their order is used. The correlated
Gaussian field and the reference sample are inputs (`Generators.Draw`).

Some behaviours of the code worth noting:

- The lag step is not degenerate. Python parses `-n // 2` as `(-n) // 2`,
  so `txmin = -ceil(n/2)` and `txmax = floor(n/2)`. Their difference is
  exactly `n`, so `dtx == dty == 1` for every `n > 0` (`LagGrid.Axis`).
  For `n == 0` the step computation raises `ZeroDivisionError`. For
  `n < 0`, `np.zeros` raises before that.
- A run is restartable. `__iter__` is a generator function that reads
  `_length` again each time it is iterated, and `__call__` returns the
  generator itself. So iterating a second time yields another `_length`
  surfaces rather than failing (`Generators.Iterate` is a pure function of
  the generator).
- The configuration is not validated. A non-positive grid side is rejected
  only when the lag grid is set up, during generation. A correlation length
  (or, for the Bessel model, a period) of zero is rejected only by the first
  `autocorrelation` call, whose `tx / corlength_x` raises
  `ZeroDivisionError` for every lag (`Generators.GenerateSurface`). A
  negative `rms` is rejected only after the lag loops and the Fourier
  filtering, by `stats.pearson3.rvs`, which raises `ValueError` for a
  negative `scale` (`Generators.Setup`).
- Whether a generation raises depends only on the configuration, so
  iterating `g(k)` with `k > 0` either yields `k` surfaces or raises on the
  first `next()` before yielding any (`Generators.Iterate`).
- Because of `.H`, output cell `(i, j)` carries the rank of Gaussian cell
  `(j, i)`, not `(i, j)` (`RankSwap.SwapSurfaceTransposesRanks`). Without
  the transpose the ranks would line up cell by cell
  (`RankSwap.ReshapedSwapKeepsRanks`). Any difference between the x and y
  correlation lengths is therefore swapped in the output.
- For odd `n`, the first lag writes to index `-1`, which wraps to the last
  row or column. This is the only wrapped write
  (`LagGrid.WrapOnlyForOddFirstLag`), and every cell is still written once.

## Model

| member | source | states |
|---|---|---|
| PyInt.FloorDiv | src/roughgan/data/generators.py:56-63 | The quotient is rounded towards negative infinity for either sign of divisor, as Python's `//` is |
| PyInt.WrapIndex | src/roughgan/data/generators.py:67 | An index in `[-len, len)` selects a cell below `len`: non-negative indices are kept, negative ones count from the end |
| LagGrid.Axis | src/roughgan/data/generators.py:54-63 | Negative side gives the `np.zeros` error; side 0 gives `ZeroDivisionError`; otherwise `txmax - txmin == n`, `txmin + txmax == -(n % 2)` and the step is exactly 1 |
| LagGrid.PyRange | src/roughgan/data/generators.py:65-66 | The `k`-th lag is `lo + k*step`, all lags are below `hi`, and the next one would not be |
| LagGrid.PyRangeUnitStep | src/roughgan/data/generators.py:62-66 | With the step of 1 the range visits exactly `hi - lo` lags, so each lag loop runs `n` times |
| LagGrid.WriteIndex | src/roughgan/data/generators.py:67 | The subscript `tx + txmax` selects cell `tx + txmax` when non-negative and `tx + txmax + n` when negative, always below `n` |
| LagGrid.WriteIndexBijective | src/roughgan/data/generators.py:65-67 | The wrapped write index `tx + txmax` maps the lags `range(txmin, txmax)` one-to-one onto the cells `0..n-1`, with `LagOf` as inverse |
| LagGrid.WrapOnlyForOddFirstLag | src/roughgan/data/generators.py:56-67 | `tx + txmax` is negative exactly for odd `n` and the first lag, and that write lands in the last cell |
| LagGrid.WriteRow | src/roughgan/data/generators.py:66-67 | One pass of the inner loop writes `acf(tx, LagOf(j))` into every cell `j` of the row and adds one write to each |
| LagGrid.WriteLag | src/roughgan/data/generators.py:65-67 | One pass of the outer loop fills the row of lag `tx` with its final values and marks it written once, leaving the other rows as they were |
| LagGrid.FillGrid | src/roughgan/data/generators.py:65-67 | After the outer loop over `range(txmin, txmax, dtx)` every row holds its lag-indexed values and every cell has been written once |
| LagGrid.AutocorrelationGrid | src/roughgan/data/generators.py:54-67 | Errors for non-positive sides; otherwise `R` is the lag-indexed grid (cell `(i,j)` holds the autocorrelation at lags `(LagOf(i), LagOf(j))`) and every cell is written exactly once |
| Permutations.Gather | src/roughgan/data/generators.py:44 | `elements[indices]` has one entry per index, the `k`-th being the element at `indices[k]` |
| Permutations.GatherPermutationMultiset | src/roughgan/data/generators.py:41-44 | Gathering through a permutation yields the same multiset of elements |
| Permutations.PermutationCovers | src/roughgan/data/generators.py:114-119 | An `argsort` result contains every position, so the scatter writes every cell of `v_ngs` |
| Permutations.Inverse | src/roughgan/data/generators.py:114-119 | The rank of each position: an inverse permutation of the `argsort` result on both sides |
| Matrices.ReshapeF | src/roughgan/data/generators.py:121 | `reshape(n, n, order="F")` is `n x n` and puts `v[c*n + r]` at cell `(r, c)` |
| Matrices.FlattenF | src/roughgan/data/generators.py:111-112 | Column-major flattening puts cell `(r, c)` at `c*n + r` |
| Matrices.Transpose | src/roughgan/data/generators.py:121 | `.H` on a real matrix puts `m[j][i]` at `(i, j)` |
| Matrices.ReshapeFlattenF | src/roughgan/data/generators.py:111-121 | Column-major reshape after column-major flatten gives the matrix back |
| Matrices.FlattenReshapeF | src/roughgan/data/generators.py:111-121 | Column-major flatten after column-major reshape gives the sequence back |
| Matrices.TransposeInvolution | src/roughgan/data/generators.py:121 | Transposing twice is the identity |
| Matrices.TransposedReshapeF | src/roughgan/data/generators.py:121 | `reshape(order="F")` then `.H` puts `v[i*n + j]` at `(i, j)`: read row by row, the surface is `v_ngs` |
| Matrices.FlattenOrdersSameEntries | src/roughgan/data/generators.py:111-121 | Column-major and row-major flattening hold the same multiset of entries |
| Sorting.Sort | src/roughgan/data/generators.py:116 | `np.sort` returns an ascending sequence of the same length with the same multiset of elements |
| Sorting.SortedUnique | src/roughgan/data/generators.py:116 | Two ascending sequences with the same multiset are equal, so the sorted reference sample is determined by the sample alone |
| Sorting.Argsort | src/roughgan/data/generators.py:114 | Returns a permutation of the positions that lists them by ascending value |
| Sorting.ArgsortGathersSorted | src/roughgan/data/generators.py:41-44 | For every admissible `argsort` result, reading the values through it gives `Sort` of the values, whatever order ties take |
| Sorting.SortWithIndices | src/roughgan/data/generators.py:41-44 | The `sort` helper returns the indices (an admissible `argsort`) and the elements read through them, which are the elements sorted ascending |
| RankSwap.ZerosLike | src/roughgan/data/generators.py:118 | `np.zeros_like` has the length of its argument and holds `0.0` everywhere |
| RankSwap.Scatter | src/roughgan/data/generators.py:118-119 | `base[idx] = vals` keeps the length of `base`; unlisted positions keep their base value; with distinct indices position `idx[k]` ends up holding `vals[k]` |
| RankSwap.RankOrderSwap | src/roughgan/data/generators.py:114-119 | `v_ngs` has the reference sample's length, and reading it in the Gaussian field's rank order gives the sorted reference sample: `v_ngs[Igs[k]]` is the k-th smallest reference value |
| RankSwap.RankOrderSwapByRank | src/roughgan/data/generators.py:114-119 | Position `i` holds the reference value whose rank is the rank of position `i` in the Gaussian field |
| RankSwap.RankOrderSwapMultiset | src/roughgan/data/generators.py:114-119 | The output holds exactly the reference values: `multiset(v_ngs) == multiset(v_ngn)` |
| RankSwap.RankOrderSwapPreservesOrder | src/roughgan/data/generators.py:114-119 | `v_gs[i] < v_gs[j]` implies `v_ngs[i] <= v_ngs[j]`, and `v_ngs[i] < v_ngs[j]` implies `v_gs[i] <= v_gs[j]` |
| RankSwap.RankOrderSwapUnique | src/roughgan/data/generators.py:114-119 | Any rearrangement of the reference values that ascends along the `argsort` order is the swap's output |
| RankSwap.SwapSurface | src/roughgan/data/generators.py:110-121 | The surface is `n x n` and, read row by row, equals the swapped sequence `v_ngs` |
| RankSwap.SwapSurfaceMultiset | src/roughgan/data/generators.py:110-121 | The surface's entries are exactly the reference sample's entries |
| RankSwap.SwapSurfaceTransposesRanks | src/roughgan/data/generators.py:110-121 | Surface entry `(i, j)` is ranked like Gaussian entry `(j, i)`: a smaller Gaussian value at `(j1,i1)` than at `(j2,i2)` never gives a larger surface value at `(i1,j1)` than at `(i2,j2)` |
| RankSwap.ReshapedSwapKeepsRanks | src/roughgan/data/generators.py:111-121 | Before the transpose, the column-major reshape of `v_ngs` orders cell by cell like the Gaussian field |
| Generators.Len | src/roughgan/data/generators.py:34-35 | `len(g)` is the bound count; a negative count is a `ValueError` and one above `sys.maxsize` (2^63 - 1) an `OverflowError` |
| Generators.NonGaussianSurfaceGenerator | src/roughgan/data/generators.py:126-137 | A new exponential-model generator stores every constructor argument, has `_mean == 0` and reports length 0 |
| Generators.BesselNonGaussianSurfaceGenerator | src/roughgan/data/generators.py:148-163 | A new Bessel-model generator stores every constructor argument including both periods, has `_mean == 0` and reports length 0 |
| Generators.Call | src/roughgan/data/generators.py:29-32 | `g(k)` leaves the configuration and mean alone and makes `len` report `k`, or a `ValueError` for negative `k`, or an `OverflowError` above `sys.maxsize` |
| Generators.GenerateSurface | src/roughgan/data/generators.py:50-123 | `NegativeDimensions` for a negative side, `ZeroDivisionError` for side 0 or a zero correlation length or period, the sampler's `ValueError` for a negative `rms` (the exception of `Setup`), success exactly otherwise; a success is an `n x n` surface holding exactly the reference values, ranked like the transposed Gaussian field |
| Generators.Setup | src/roughgan/data/generators.py:54-108 | The exceptions of `generate_surface` in source order: `NegativeDimensions` for a negative side, `ZeroDivisionError` for side 0 or a zero correlation length or period, the sampler's `ValueError` for a negative `rms`, and the side itself otherwise |
| Wrappers.Collect | src/roughgan/data/generators.py:37-39 | Consuming the steps in order either collects every value, step `k` giving element `k`, or stops with the exception of a step all of whose predecessors succeeded |
| Generators.Iterate | src/roughgan/data/generators.py:37-39 | Iterating yields `len(g)` surfaces (none for a non-positive count), the `k`-th generated from the `k`-th draw; it raises exactly when the count is positive and `Setup` fails, with its exception, so no surface is yielded |
| Generators.CallThenIterate | src/roughgan/data/generators.py:29-39 | After `g(k)`, `len` is `k`; iteration succeeds exactly when `k == 0` or the side is positive, no correlation length or period is zero and `rms` is not negative, and then yields `k` surfaces of `n x n`; a second call rebinds only the count |

## Left out

- The Fourier filtering of lines 69-93 (`fft2`, `abs`, `sqrt`, `ifft2`, mean and standard-deviation normalisation) is floating-point numerics. The correlated Gaussian field it produces is an input (`Draw.gaussian`). The lag grid `R` is modelled, but what the spectrum does with it is not.
- The autocorrelation formulas (lines 139-145 and 165-169) use `exp`, a power with a real exponent, and `sympy.besselj`. They enter `LagGrid.AutocorrelationGrid` as an arbitrary total function `acf`, and `Generators.Variant` only records which model a generator uses. Their zero-divisor exception, the division by a zero correlation length or period, is modelled in `Generators.Setup` and `Generators.GenerateSurface` (`Generators.DividesByZero`).
- `np.random.rand` and `stats.pearson3.rvs` (lines 74 and 103-108) are random sampling. The reference sample is an input (`Draw.reference`), and the generator's `_mean` (the `loc` argument) is stored but not used.
- Which sorting permutation numpy's `argsort` picks among equal values is not modelled. The swap theorems hold for every admissible one, and `GenerateSurface` uses `Sorting.Argsort`.
- `Sorting.SortWithIndices`: models `sort` on a one-dimensional array only. With `axis=0` on a two-dimensional array, numpy sorts each column and `elements[indices]` then builds a three-dimensional array.
- `Generators.Iterate`: does not model that a Python generator reads `_length` lazily. A `g(k')` call made after `iter(g)` but before the first `next` changes the count of that run. It also models the iteration consumed to the end, as a list of surfaces or the exception; a caller that stops early is not modelled.
- `Generators.Len`: `sys.maxsize` is taken to be 2^63 - 1, as on a 64-bit platform; 32-bit platforms are not modelled.
- Of the argument checks of `stats.pearson3.rvs`, only the rejection of a negative `scale` (`rms`) is modelled; the skewness is a real number and always finite, so scipy's other check cannot fail.
- `Generators.Setup`: does not model the `OverflowError` Python's float `**` raises when `self.rms**2` or `(tx / self.corlength_x) ** 2` leaves the float range (for example `corlength_x = 1e-160`); heights and configuration values are exact reals, which have no such range.
- `Generators.GenerateSurface`: raises on exactly the `Setup` failures, so the float `OverflowError` of `**` is not modelled here either.
- `Generators.Iterate`: for the same reason, a float `OverflowError` in the first generation is not among its failures.
- `Generators.CallThenIterate`: its "succeeds exactly when" leaves out the same float `OverflowError`.
- `Generators.Call`: the count is an integer. A non-integer count is not modelled: `load_dataset_from_generator` in `src/roughgan/data/loaders.py` passes its default `limit=None`, after which `len(g)` and `range(self._length)` raise `TypeError`.
- `Generators.Len`: for the same reason, the `TypeError` of `len(g)` with a `None` count is not modelled.
- `Generators.Iterate`: for the same reason, the `TypeError` that `range(None)` raises on the first `next()` is not modelled.
- `generate_surface` returns an `np.matrix` (`np.asmatrix(...).H`), in which `surface[i]` is a `1 x n` matrix rather than a row; `Matrix<Height>` is a plain sequence of rows, with the same entries at the same `(i, j)`.
- numpy's float64 heights are modelled as exact reals. The swap only compares and copies them, so rounding plays no part.
- `__str__`, `__repr__` and the `__main__` plotting blocks are display code.
- The command-line entry points, dataset loaders and quantisation wrapper are plumbing around the generator. `src/roughml/cli/dataset.py`, `src/roughgan/data/loaders.py` and `src/roughgan/content/quantization.py` are not part of this model.
