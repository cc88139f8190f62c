/** Failure outcomes of the modelled Go code.

    The Go functions signal misuse by panicking, either explicitly (`panic(...)`)
    or through the runtime (an index out of range, an integer division by zero).
    One loop of the statistics package can also run forever. Every such outcome
    is a `Fail` value here; a normal return is `Ok`.
 */
module Outcome {

  datatype Failure =
    | InputSizeMismatch     // explicit panic: input vector vs. input layer width
    | OutputSizeMismatch    // explicit panic: target vector vs. output layer width
    | LengthMismatch        // explicit panic: the two vectors of SquaredError differ in length
    | EmptyStructure        // explicit panic: a network without any layer
    | IndexOutOfRange       // runtime panic: a slice index past the end
    | IntegerDivideByZero   // runtime panic: integer division by zero
    | NonTermination        // the loop never exits

  /** The result of a Go call that may panic. */
  datatype Result<+T> = Ok(value: T) | Fail(failure: Failure) {

    predicate IsFailure() {
      Fail?
    }

    function PropagateFailure<U>(): Result<U>
      requires Fail?
    {
      Fail(failure)
    }

    function Extract(): T
      requires Ok?
    {
      value
    }
  }

  /** A float64 that is either an ordinary number or NaN. A float64 division in
      the modelled code has a zero divisor only when its dividend is zero as
      well (an empty example set, empty data), so the only non-number it can
      produce is NaN (0/0). Infinities do not arise. */
  datatype Float = Finite(value: real) | NaN

  /** `num / float64(den)`, including Go's 0/0 = NaN. */
  function Quotient(num: real, den: nat): (q: Float)
    requires den == 0 ==> num == 0.0
    ensures q.Finite? <==> den > 0
    ensures q.Finite? ==> q.value * (den as real) == num
    ensures q.Finite? && num >= 0.0 ==> q.value >= 0.0
  {
    if den == 0 then NaN else Finite(num / den as real)
  }

  /** Affine rescaling `a + b * x`, which keeps NaN a NaN. */
  function Affine(a: real, b: real, x: Float): (y: Float)
    ensures y.Finite? <==> x.Finite?
    ensures y.Finite? ==> y.value == a + b * x.value
  {
    match x
    case Finite(v) => Finite(a + b * v)
    case NaN => NaN
  }
}
