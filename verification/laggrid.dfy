/** The discretised autocorrelation grid `R` of `generate_surface`: the lag
    bounds and step along each axis, the `range` of lags the loops visit,
    and the cell each lag is written to (with Python's negative-index
    wrap-around). */
module LagGrid {
  import opened Wrappers
  import opened PyInt
  import opened Matrices

  /** The lags `lo, lo + step, ...` below `hi` visited along one axis. */
  datatype LagAxis = LagAxis(lo: int, hi: int, step: int)

  /** The lag bounds and steps of `generate_surface` for a grid side `n`: `np.zeros((n, n))` rejects a
      negative side, and the step `(hi - lo) // n` divides by zero for
      `n == 0`. For every positive `n` the bounds are `n` apart and
      symmetric up to one, so the step is exactly 1. */
  function Axis(n: int): (r: Result<LagAxis>)
    ensures n < 0 <==> r == Failure(NegativeDimensions)
    ensures n == 0 <==> r == Failure(ZeroDivisionError)
    ensures n > 0 ==> r.Success?
    ensures r.Success? ==> r.value.hi - r.value.lo == n
    ensures r.Success? ==> r.value.lo + r.value.hi == -(n % 2)
    ensures r.Success? ==> r.value.step == 1
  {
    if n < 0 then Failure(NegativeDimensions)
    else
      var lo := FloorDiv(-n, 2);
      var hi := FloorDiv(n, 2);
      if n == 0 then Failure(ZeroDivisionError)
      else Success(LagAxis(lo, hi, FloorDiv(hi - lo, n)))
  }

  /** Python's `range(lo, hi, step)` for a positive step: `lo`, `lo + step`,
      ... as long as the values stay below `hi`. */
  function PyRange(lo: int, hi: int, step: int): (r: seq<int>)
    requires step > 0
    ensures forall k :: 0 <= k < |r| ==> r[k] == lo + k * step && r[k] < hi
    ensures lo + |r| * step >= hi
    decreases hi - lo
  {
    if lo >= hi then []
    else
      var rest := PyRange(lo + step, hi, step);
      assert forall k :: 0 < k <= |rest| ==> lo + k * step == (lo + step) + (k - 1) * step;
      assert lo + (|rest| + 1) * step == (lo + step) + |rest| * step;
      [lo] + rest
  }

  /** With step 1 a range visits every integer in `[lo, hi)` once. */
  lemma {:induction false} PyRangeUnitStep(lo: int, hi: int)
    requires lo <= hi
    ensures |PyRange(lo, hi, 1)| == hi - lo
    decreases hi - lo
  {
    if lo < hi {
      PyRangeUnitStep(lo + 1, hi);
    }
  }

  /** The cell index `tx + txmax` that lag `tx` is written to, where a
      negative index counts from the end as in Python. */
  function WriteIndex(axis: LagAxis, n: nat, tx: int): (i: nat)
    requires n > 0 && Axis(n) == Success(axis) && axis.lo <= tx < axis.hi
    ensures i < n
    ensures tx + axis.hi >= 0 ==> i == tx + axis.hi
    ensures tx + axis.hi < 0 ==> i == tx + axis.hi + n
  {
    WrapIndex(tx + axis.hi, n)
  }

  /** The lag whose value lands in row (or column) `i` of `R`. */
  function LagOf(n: nat, i: nat): int
    requires i < n
  {
    var hi := n / 2;
    if i < 2 * hi then i - hi else i - hi - n
  }

  /** `WriteIndex` maps the lags of `range(lo, hi)` one-to-one onto the
      cells `0, ..., n - 1`, with `LagOf` as its inverse: every cell of `R`
      is written by exactly one lag. */
  lemma WriteIndexBijective(axis: LagAxis, n: nat)
    requires n > 0 && Axis(n) == Success(axis)
    ensures forall tx :: axis.lo <= tx < axis.hi ==> LagOf(n, WriteIndex(axis, n, tx)) == tx
    ensures forall i :: 0 <= i < n ==>
      axis.lo <= LagOf(n, i) < axis.hi && WriteIndex(axis, n, LagOf(n, i)) == i
  {
    assert axis.hi == n / 2;
  }

  /** Only an odd side needs the wrap-around, and then only for the first
      lag, which lands in the last cell. */
  lemma WrapOnlyForOddFirstLag(axis: LagAxis, n: nat, tx: int)
    requires n > 0 && Axis(n) == Success(axis) && axis.lo <= tx < axis.hi
    ensures tx + axis.hi < 0 <==> n % 2 == 1 && tx == axis.lo
    ensures tx + axis.hi < 0 ==> WriteIndex(axis, n, tx) == n - 1
  {
  }

  /** The grid `R` and, for each cell, how many times the loops wrote it. */
  datatype Grid = Grid(values: Matrix<real>, writes: Matrix<nat>)

  /** Row `tx` of the grid the lag loops are meant to produce: cell `j`
      holds the autocorrelation at lags `(tx, LagOf(n, j))`. */
  function LagRow(n: nat, tx: int, acf: (int, int) -> real): (row: seq<real>)
    ensures |row| == n
  {
    seq(n, j requires 0 <= j < n => acf(tx, LagOf(n, j)))
  }

  /** The grid the lag loops are meant to produce: cell `(i, j)` holds the
      autocorrelation at lags `(LagOf(n, i), LagOf(n, j))`. */
  function LagIndexedGrid(n: nat, acf: (int, int) -> real): (m: Matrix<real>)
    ensures IsSquare(m, n)
  {
    seq(n, i requires 0 <= i < n => LagRow(n, LagOf(n, i), acf))
  }

  /** One pass of the inner lag loop of `generate_surface`: every lag `ty` of the
      range writes `acf(tx, ty)` into its cell of the row and counts the
      write. */
  method WriteRow(axis: LagAxis, n: nat, tx: int, acf: (int, int) -> real,
                  values: seq<real>, writes: seq<nat>)
    returns (values': seq<real>, writes': seq<nat>)
    requires n > 0 && Axis(n) == Success(axis)
    requires |values| == n && |writes| == n
    ensures values' == LagRow(n, tx, acf)
    ensures |writes'| == n
    ensures forall j :: 0 <= j < n ==> writes'[j] == writes[j] + 1
  {
    WriteIndexBijective(axis, n);
    var tys := PyRange(axis.lo, axis.hi, axis.step);
    PyRangeUnitStep(axis.lo, axis.hi);
    values', writes' := values, writes;
    for b := 0 to |tys|
      invariant |values'| == n && |writes'| == n
      invariant forall j :: 0 <= j < n && LagOf(n, j) < axis.lo + b ==> values'[j] == acf(tx, LagOf(n, j))
      invariant forall j :: 0 <= j < n ==>
        writes'[j] == (if LagOf(n, j) < axis.lo + b then writes[j] + 1 else writes[j])
    {
      var ty := tys[b];
      assert ty == axis.lo + b;
      var col := WriteIndex(axis, n, ty);
      assert LagOf(n, col) == ty;
      values' := values'[col := acf(tx, ty)];
      writes' := writes'[col := writes'[col] + 1];
    }
  }

  /** A row of `n` equal write counts. */
  function Counts(n: nat, c: nat): (row: seq<nat>)
    ensures |row| == n
  {
    seq(n, _ => c)
  }

  /** The rows of lags below `bound` hold their final values and have been
      written once; all other rows are still unwritten. */
  predicate RowsDone(n: nat, acf: (int, int) -> real, R: Matrix<real>, W: Matrix<nat>, bound: int) {
    && |R| == n && |W| == n
    && (forall i :: 0 <= i < n ==> |R[i]| == n)
    && (forall i :: 0 <= i < n ==> W[i] == Counts(n, if LagOf(n, i) < bound then 1 else 0))
    && (forall i :: 0 <= i < n && LagOf(n, i) < bound ==> R[i] == LagRow(n, LagOf(n, i), acf))
  }

  /** One pass of the outer lag loop of `generate_surface`: lag `tx` fills
      its row, and no other row changes. */
  method WriteLag(axis: LagAxis, n: nat, acf: (int, int) -> real, tx: int, R: Matrix<real>, W: Matrix<nat>)
    returns (R': Matrix<real>, W': Matrix<nat>)
    requires n > 0 && Axis(n) == Success(axis) && axis.lo <= tx < axis.hi
    requires RowsDone(n, acf, R, W, tx)
    ensures RowsDone(n, acf, R', W', tx + 1)
    ensures |R'| == n && |W'| == n
    ensures forall i :: 0 <= i < n && i != WriteIndex(axis, n, tx) ==> R'[i] == R[i] && W'[i] == W[i]
  {
    WriteIndexBijective(axis, n);
    var row := WriteIndex(axis, n, tx);
    assert LagOf(n, row) == tx;
    // The bounds and step of `ty` are computed exactly as those of `tx`.
    var newValues, newWrites := WriteRow(axis, n, tx, acf, R[row], W[row]);
    assert newWrites == Counts(n, 1);
    R' := R[row := newValues];
    W' := W[row := newWrites];
  }

  /** The outer lag loop of `generate_surface`, over the lags `tx` of `axis`. */
  method FillGrid(axis: LagAxis, n: nat, acf: (int, int) -> real) returns (g: Grid)
    requires n > 0 && Axis(n) == Success(axis)
    ensures g.values == LagIndexedGrid(n, acf)
    ensures |g.writes| == n
    ensures forall i :: 0 <= i < n ==> g.writes[i] == Counts(n, 1)
  {
    WriteIndexBijective(axis, n);
    var R := seq(n, _ => seq(n, _ => 0.0));
    var W := seq(n, _ => Counts(n, 0));
    var txs := PyRange(axis.lo, axis.hi, axis.step);
    PyRangeUnitStep(axis.lo, axis.hi);
    for a := 0 to |txs|
      invariant RowsDone(n, acf, R, W, axis.lo + a)
    {
      var tx := txs[a];
      assert tx == axis.lo + a;
      R, W := WriteLag(axis, n, acf, tx, R, W);
    }
    assert R == LagIndexedGrid(n, acf);
    g := Grid(R, W);
  }

  /** The lag grid set-up and lag loops of `generate_surface`, with `acf` standing for
      the generator's `autocorrelation(tx, ty)`. */
  method AutocorrelationGrid(n: int, acf: (int, int) -> real) returns (r: Result<Grid>)
    ensures n < 0 ==> r == Failure(NegativeDimensions)
    ensures n == 0 ==> r == Failure(ZeroDivisionError)
    ensures n > 0 ==> r.Success?
    ensures r.Success? ==> r.value.values == LagIndexedGrid(n, acf)
    ensures r.Success? ==> IsSquare(r.value.writes, n)
    ensures r.Success? ==> forall i, j :: 0 <= i < n && 0 <= j < n ==> r.value.writes[i][j] == 1
  {
    var axis :- Axis(n);
    var g := FillGrid(axis, n, acf);
    return Success(g);
  }
}
