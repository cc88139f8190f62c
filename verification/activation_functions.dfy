/** The scalar activation functions of nn/ActivationFunctions.go and their
    derivatives. `math.Exp` and `math.Tanh` are not modelled: they are passed in
    as functions, and only the positivity of `exp` is assumed where a result
    depends on it. */
module ActivationFunctions {

  /** The one property of the exponential function the model relies on. */
  ghost predicate PositiveExp(exp: real -> real) {
    forall y :: exp(y) > 0.0
  }

  /** Sigmoid(x) = 1 / (1 + exp(-x)). */
  function Sigmoid(exp: real -> real, x: real): (r: real)
    requires exp(-x) > 0.0
    ensures 0.0 < r < 1.0
    ensures r * (1.0 + exp(-x)) == 1.0
  {
    1.0 / (1.0 + exp(-x))
  }

  /** The sigmoid derivative, written in terms of the sigmoid's OUTPUT x. */
  function DSigmoid(x: real): (r: real)
    ensures r <= 0.25
    ensures r == 0.0 <==> x == 0.0 || x == 1.0
  {
    x * (1.0 - x)
  }

  /** math.Max(0, x). */
  function Relu(x: real): (r: real)
    ensures r >= 0.0 && r >= x
    ensures r == 0.0 || r == x
  {
    if x > 0.0 then x else 0.0
  }

  /** The ReLU derivative: a step that is 0 at x = 0. */
  function DRelu(x: real): (r: real)
    ensures r == 1.0 <==> x > 0.0
    ensures r == 0.0 <==> x <= 0.0
  {
    if x > 0.0 then 1.0 else 0.0
  }

  function TanH(tanh: real -> real, x: real): real {
    tanh(x)
  }

  /** The tanh derivative, written in terms of the PRE-activation value x,
      unlike DSigmoid. */
  function DTanH(tanh: real -> real, x: real): (r: real)
    ensures r <= 1.0
    ensures r == 1.0 - TanH(tanh, x) * TanH(tanh, x)
  {
    1.0 - tanh(x) * tanh(x)
  }

  /** The sigmoid derivative at a point is DSigmoid of the sigmoid's value
      there: DSigmoid expects the neuron's output, as the networks pass it. */
  lemma SigmoidDerivativeFromOutput(exp: real -> real, x: real)
    requires exp(-x) > 0.0
    ensures DSigmoid(Sigmoid(exp, x)) == exp(-x) / ((1.0 + exp(-x)) * (1.0 + exp(-x)))
  {
    var e := exp(-x);
    var s := Sigmoid(exp, x);
    assert s == 1.0 / (1.0 + e);
    assert 1.0 - s == e / (1.0 + e);
  }

  /** ReLU is idempotent and is its own positive part. */
  lemma ReluIdempotent(x: real)
    ensures Relu(Relu(x)) == Relu(x)
    ensures Relu(x) == (if x >= 0.0 then x else 0.0)
  {
  }

  /** DRelu is the slope of Relu away from 0: Relu(x) == DRelu(x) * x. */
  lemma ReluIsSlopeTimesInput(x: real)
    ensures Relu(x) == DRelu(x) * x
  {
  }
}
