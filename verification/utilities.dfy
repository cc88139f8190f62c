/** nn/Utilities.go: the training example record and the squared error. */
module Utilities {
  import opened Outcome
  import Vectors

  /** A training or test example: an input vector and the desired output. */
  datatype Example = Example(input: seq<real>, output: seq<real>)

  function GenerateExample(input: seq<real>, output: seq<real>): (e: Example)
    ensures e.input == input && e.output == output
  {
    Example(input, output)
  }

  /** 0.5 * Σ (desired[i] - actual[i])²; panics when the lengths differ. */
  function SquaredError(desired: seq<real>, actual: seq<real>): (r: Result<real>)
    ensures r.Ok? <==> |desired| == |actual|
    ensures r.Fail? ==> r.failure == LengthMismatch
    ensures r.Ok? ==> r.value == 0.5 * Vectors.SquareSum(desired, actual) && r.value >= 0.0
  {
    if |desired| != |actual| then Fail(LengthMismatch)
    else
      Vectors.SquareSumNonNegative(desired, actual);
      Ok(0.5 * Vectors.SquareSum(desired, actual))
  }

  /** The error is symmetric, zero for equal vectors and zero for empty ones. */
  lemma SquaredErrorProperties(desired: seq<real>, actual: seq<real>)
    requires |desired| == |actual|
    ensures SquaredError(desired, actual) == SquaredError(actual, desired)
    ensures SquaredError(desired, desired) == Ok(0.0)
    ensures SquaredError([], []) == Ok(0.0)
  {
    Vectors.SquareSumSymmetric(desired, actual);
    Vectors.SquareSumOfEqual(desired);
  }

  /** The term-by-term error of BackPropagate agrees with SquaredError. */
  lemma HalfSquareTermsIsSquaredError(t: seq<real>, o: seq<real>)
    requires |t| == |o|
    ensures SquaredError(t, o) == Ok(Vectors.HalfSquareTerms(t, o))
  {
    Vectors.HalfSquareTermsIsHalfSquareSum(t, o);
  }
}
