/** The surface generator driver: its configuration, the
    call-then-iterate protocol (`g(k)` binds a count, iterating `g` then
    yields that many surfaces) and the discrete part of one surface
    generation. The Fourier filtering that turns white noise into the
    correlated Gaussian field, and the Pearson type III sampling of the
    reference field, are numerical or random and enter as a `Draw`. */
module Generators {
  import opened Wrappers
  import opened Matrices
  import opened Sorting
  import opened RankSwap
  import opened LagGrid

  /** The autocorrelation model: the exponential decay of
      `NonGaussianSurfaceGenerator`, or that decay times a Bessel ripple with
      periods `betaX`, `betaY` (`BesselNonGaussianSurfaceGenerator`). */
  datatype Variant = Exponential | Bessel(betaX: real, betaY: real)

  /** The configuration a generator is built with. `kurtosis` is stored but
      never used by the generation. */
  datatype Config = Config(
    nPoints: int,
    rms: real,
    skewness: real,
    kurtosis: real,
    corlengthX: real,
    corlengthY: real,
    alpha: real,
    variant: Variant)

  /** A generator: its configuration, the location `_mean` of the reference
      distribution, and the count `_length` bound by the last call. */
  datatype SurfaceGenerator = SurfaceGenerator(config: Config, mean: real, length: int)

  /** `sys.maxsize` on a 64-bit platform: the largest value `len()` can
      return. */
  const MaxSize: int := 0x7FFF_FFFF_FFFF_FFFF

  /** `len(g)`: Python rejects a negative `__len__` with a `ValueError` and
      one above `sys.maxsize` with an `OverflowError`. */
  function Len(g: SurfaceGenerator): (r: Result<nat>)
    ensures r.Success? <==> 0 <= g.length <= MaxSize
    ensures g.length < 0 <==> r == Failure(NegativeLength)
    ensures g.length > MaxSize <==> r == Failure(LengthOverflow)
    ensures r.Success? ==> r.value == g.length
  {
    if g.length < 0 then Failure(NegativeLength)
    else if g.length > MaxSize then Failure(LengthOverflow)
    else Success(g.length)
  }

  /** A freshly built generator: nothing bound yet, so it yields nothing. */
  function NonGaussianSurfaceGenerator(
    nPoints: int, rms: real, skewness: real, kurtosis: real,
    corlengthX: real, corlengthY: real, alpha: real): (g: SurfaceGenerator)
    ensures g.config == Config(nPoints, rms, skewness, kurtosis, corlengthX, corlengthY, alpha, Exponential)
    ensures g.mean == 0.0
    ensures Len(g) == Success(0)
  {
    SurfaceGenerator(Config(nPoints, rms, skewness, kurtosis, corlengthX, corlengthY, alpha, Exponential), 0.0, 0)
  }

  /** The Bessel-modulated generator; it differs only in its autocorrelation
      model. */
  function BesselNonGaussianSurfaceGenerator(
    nPoints: int, rms: real, skewness: real, kurtosis: real,
    corlengthX: real, corlengthY: real, alpha: real, betaX: real, betaY: real): (g: SurfaceGenerator)
    ensures g.config == Config(nPoints, rms, skewness, kurtosis, corlengthX, corlengthY, alpha, Bessel(betaX, betaY))
    ensures g.mean == 0.0
    ensures Len(g) == Success(0)
  {
    SurfaceGenerator(Config(nPoints, rms, skewness, kurtosis, corlengthX, corlengthY, alpha, Bessel(betaX, betaY)), 0.0, 0)
  }

  /** The constructor defaults. */
  const DefaultNonGaussian := NonGaussianSurfaceGenerator(128, 1.0, 0.0, 3.0, 4.0, 4.0, 1.0)
  const DefaultBessel := BesselNonGaussianSurfaceGenerator(128, 1.0, 0.0, 3.0, 4.0, 4.0, 1.0, 1.0, 1.0)

  /** `g(length)`: rebinds the count and returns the same generator. */
  function Call(g: SurfaceGenerator, length: int): (g': SurfaceGenerator)
    ensures g'.config == g.config && g'.mean == g.mean
    ensures 0 <= length <= MaxSize ==> Len(g') == Success(length)
    ensures length < 0 ==> Len(g') == Failure(NegativeLength)
    ensures length > MaxSize ==> Len(g') == Failure(LengthOverflow)
  {
    g.(length := length)
  }

  /** How many surfaces iterating `g` yields: `range(_length)` is empty for
      a negative count. */
  function SurfaceCount(g: SurfaceGenerator): nat {
    if g.length > 0 then g.length else 0
  }

  /** The inputs of one generation that the model does not compute: the
      correlated Gaussian field `z_gs` (white noise filtered through the
      autocorrelation spectrum and normalised to `rms`) and the Pearson
      type III reference sample `z_ngn`. */
  datatype Draw = Draw(gaussian: Matrix<Height>, reference: Matrix<Height>)

  /** Both fields of the draw have the generator's shape. */
  predicate Fits(d: Draw, n: int) {
    n > 0 ==> IsSquare(d.gaussian, n) && IsSquare(d.reference, n)
  }

  /** The first `autocorrelation(tx, ty)` call divides the lags by both
      correlation lengths, and the Bessel factor divides them by both
      periods as well; Python's `/` raises `ZeroDivisionError` when any of
      these is zero, whatever the lag. */
  predicate DividesByZero(c: Config) {
    || c.corlengthX == 0.0 || c.corlengthY == 0.0
    || (c.variant.Bessel? && (c.variant.betaX == 0.0 || c.variant.betaY == 0.0))
  }

  /** The checks by which `generate_surface` raises, in the order it meets
      them: `np.zeros` rejects a negative side, the lag step divides by the
      side, the first autocorrelation call divides by the correlation
      lengths and periods, and the Pearson type III sampler, reached after
      the lag loops, rejects a negative `scale`, which is `rms`. On success
      the result is the side. */
  function Setup(c: Config): (r: Result<nat>)
    ensures c.nPoints < 0 <==> r == Failure(NegativeDimensions)
    ensures (c.nPoints == 0 || (c.nPoints > 0 && DividesByZero(c))) <==> r == Failure(ZeroDivisionError)
    ensures (c.nPoints > 0 && !DividesByZero(c) && c.rms < 0.0) <==> r == Failure(SamplerDomainError)
    ensures r.Success? <==> c.nPoints > 0 && !DividesByZero(c) && c.rms >= 0.0
    ensures r.Success? ==> r.value == c.nPoints
  {
    var axis :- Axis(c.nPoints);
    if DividesByZero(c) then Failure(ZeroDivisionError)
    else if c.rms < 0.0 then Failure(SamplerDomainError)
    else Success(c.nPoints as nat)
  }

  /** `generate_surface` for one draw. The lag-grid set-up raises for a
      non-positive side, its first autocorrelation call raises for a zero
      correlation length or period, and the sampler raises for a negative
      `rms`; otherwise the reference values are swapped into the Gaussian
      field's rank order and the result is transposed. */
  function GenerateSurface(c: Config, d: Draw): (r: Result<Matrix<Height>>)
    requires Fits(d, c.nPoints)
    ensures c.nPoints < 0 <==> r == Failure(NegativeDimensions)
    ensures (c.nPoints == 0 || (c.nPoints > 0 && DividesByZero(c))) <==> r == Failure(ZeroDivisionError)
    ensures (c.nPoints > 0 && !DividesByZero(c) && c.rms < 0.0) <==> r == Failure(SamplerDomainError)
    ensures r.Success? <==> c.nPoints > 0 && !DividesByZero(c) && c.rms >= 0.0
    ensures r.Failure? ==> r.error == Setup(c).error
    ensures r.Success? ==> IsSquare(r.value, c.nPoints)
    ensures r.Success? ==>
      multiset(FlattenF(r.value, c.nPoints)) == multiset(FlattenF(d.reference, c.nPoints))
    ensures r.Success? ==> forall i1, j1, i2, j2 ::
      (0 <= i1 < c.nPoints && 0 <= j1 < c.nPoints && 0 <= i2 < c.nPoints && 0 <= j2 < c.nPoints &&
       d.gaussian[j1][i1] < d.gaussian[j2][i2]) ==> r.value[i1][j1] <= r.value[i2][j2]
  {
    var n :- Setup(c);
    var igs := Argsort(FlattenF(d.gaussian, n));
    SwapSurfaceMultiset(d.gaussian, d.reference, n, igs);
    SwapSurfaceTransposesRanks(d.gaussian, d.reference, n, igs);
    Success(SwapSurface(d.gaussian, d.reference, n, igs))
  }

  /** `iter(g)` consumed to the end: one generation per bound count, the
      `k`-th using draw `draws(k)`. If a generation raises, no surface is
      yielded and the exception ends the iteration. Every pass re-reads the
      count, so iterating again starts a new run of the same length. */
  function Iterate(g: SurfaceGenerator, draws: nat -> Draw): (r: Result<seq<Matrix<Height>>>)
    requires forall k :: 0 <= k < SurfaceCount(g) ==> Fits(draws(k), g.config.nPoints)
    ensures r.Success? ==> |r.value| == SurfaceCount(g)
    ensures r.Success? && Len(g).Success? ==> |r.value| == Len(g).value
    ensures g.length <= 0 ==> r == Success([])
    ensures r.Success? ==> forall k :: 0 <= k < |r.value| ==> GenerateSurface(g.config, draws(k)) == Success(r.value[k])
    ensures r.Failure? <==> SurfaceCount(g) > 0 && Setup(g.config).Failure?
    ensures r.Failure? ==> r.error == Setup(g.config).error
  {
    var steps := seq(SurfaceCount(g), k requires 0 <= k < SurfaceCount(g) => GenerateSurface(g.config, draws(k)));
    assert forall k :: 0 <= k < |steps| ==> steps[k] == GenerateSurface(g.config, draws(k));
    assert forall k :: 0 <= k < |steps| ==> steps[k].Success? == Setup(g.config).Success?;
    assert forall k :: 0 <= k < |steps| && steps[k].Failure? ==> steps[k].error == Setup(g.config).error;
    Collect(steps)
  }

  /** The protocol `for surface in g(k)`: after the call `len` reports `k`,
      the iteration yields exactly `k` surfaces, each a square `n x n`
      field, unless the configuration makes the first generation raise; a
      later call rebinds only the count. */
  lemma CallThenIterate(g: SurfaceGenerator, k: nat, k': int, draws: nat -> Draw)
    requires forall i :: 0 <= i < k ==> Fits(draws(i), g.config.nPoints)
    ensures k <= MaxSize ==> Len(Call(g, k)) == Success(k)
    ensures Iterate(Call(g, k), draws).Success? <==>
      k == 0 || (g.config.nPoints > 0 && !DividesByZero(g.config) && g.config.rms >= 0.0)
    ensures Iterate(Call(g, k), draws).Success? ==>
      |Iterate(Call(g, k), draws).value| == k &&
      forall i :: 0 <= i < k ==> IsSquare(Iterate(Call(g, k), draws).value[i], g.config.nPoints)
    ensures Call(Call(g, k), k') == Call(g, k')
  {
  }
}
