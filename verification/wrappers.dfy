/** Failure-carrying results for the operations of the surface generator that
    raise a Python exception on some inputs. */
module Wrappers {

  /** The exceptions the modelled code can raise. */
  datatype PyError =
    | ZeroDivisionError  // `x // 0` or `x / 0`
    | NegativeDimensions // `np.zeros` with a negative shape
    | NegativeLength     // `len()` of an object whose `__len__` is negative
    | LengthOverflow     // `len()` of an object whose `__len__` exceeds `sys.maxsize`
    | SamplerDomainError // the `ValueError` of `pearson3.rvs` for a negative `scale`

  datatype Result<+T> = Success(value: T) | Failure(error: PyError) {
    predicate IsFailure() {
      Failure?
    }

    function PropagateFailure<U>(): Result<U>
      requires Failure?
    {
      Failure(error)
    }

    function Extract(): T
      requires Success?
    {
      value
    }
  }

  /** Runs a sequence of steps that may raise, in order, the way a `for`
      loop consumes a Python generator: either every step succeeds and
      their values are collected, or the first step that raises ends the
      run with its exception. */
  function Collect<T>(steps: seq<Result<T>>): (r: Result<seq<T>>)
    ensures r.Success? <==> forall k :: 0 <= k < |steps| ==> steps[k].Success?
    ensures r.Success? ==> |r.value| == |steps|
    ensures r.Success? ==> forall k :: 0 <= k < |steps| ==> steps[k] == Success(r.value[k])
    ensures r.Failure? ==> exists k :: 0 <= k < |steps| && steps[k] == Failure(r.error) &&
                                       (forall j :: 0 <= j < k ==> steps[j].Success?)
  {
    if |steps| == 0 then Success([])
    else
      var first :- steps[0];
      var rest :- Collect(steps[1..]);
      assert forall k :: 0 < k < |steps| ==> steps[k] == steps[1..][k - 1];
      Success([first] + rest)
  }
}
