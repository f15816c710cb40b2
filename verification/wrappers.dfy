/** Option and Result types shared by every module, and the faults the modelled
    scripts raise. Each Python exception the scripts can raise on bad input becomes
    a `Failure` carrying one of the `Fault` values below. */
module Wrappers {

  datatype Option<+T> = None | Some(value: T)

  /** Why an operation did not produce a value. */
  datatype Fault =
    | NotAnInteger     // int() applied to text that is not a decimal literal (ValueError)
    | EmptySequence    // min() of an empty list (ValueError)
    | IndexOutOfRange  // a list or string indexed past its end (IndexError)
    | MissingKey       // a dictionary looked up with an absent key (KeyError)
    | WrongType        // None used as a string or list, a str called as a rule (TypeError)
    | NoAttribute      // a str used where a Rule object is expected (AttributeError)
    | OutOfFuel        // the step budget ran out: the script would keep looping

  /** A value or the fault that stopped its computation; usable with `:-`. */
  datatype Result<+T> = Success(value: T) | Failure(error: Fault) {

    predicate IsFailure() {
      Failure?
    }

    function PropagateFailure<U>(): Result<U>
      requires Failure?
    {
      Failure(error)
    }

    function Extract(): T
      requires Success?
    {
      value
    }
  }

  /** Applies `f` to each element in order, as a list comprehension does: the first
      failure stops the traversal and is the result. */
  function MapResult<A, B>(f: A -> Result<B>, xs: seq<A>): (r: Result<seq<B>>)
    ensures r.Success? <==> forall i :: 0 <= i < |xs| ==> f(xs[i]).Success?
    ensures r.Success? ==> |r.value| == |xs|
    ensures r.Success? ==> forall i :: 0 <= i < |xs| ==> f(xs[i]) == Success(r.value[i])
    ensures r.Failure? ==> exists i :: 0 <= i < |xs| && f(xs[i]) == Failure(r.error)
                                       && forall j :: 0 <= j < i ==> f(xs[j]).Success?
  {
    if |xs| == 0 then Success([])
    else
      var y :- f(xs[0]);
      var ys :- MapResult(f, xs[1..]);
      Success([y] + ys)
  }
}
