/** operand/neuralnetwork.go: the early prototype network with explicit bias
    vectors, a pure forward pass, softmax, a one-hot target builder and the
    output-error part of backpropagation.

    `Weights[l][j][k]` is the weight from neuron k of layer l to neuron j of
    layer l+1 and `Biases[l][j]` is the bias of that neuron. Nothing here
    mutates the network: ForwardPropagateInput and BackPropegateExample only
    read it. */
module OperandNetwork {
  import opened Outcome
  import opened Vectors
  import Utilities
  import ActivationFunctions

  datatype NeuralNet = NeuralNet(
    structure: seq<nat>,
    weights: seq<seq<seq<real>>>,
    biases: seq<seq<real>>,
    learningRate: real,
    epochCount: int)

  /** The shapes InitializeRandomNetwork creates. */
  ghost predicate WellShaped(n: NeuralNet) {
    var s := n.structure;
    && |s| >= 1
    && |n.weights| == |s| - 1
    && |n.biases| == |s| - 1
    && (forall l :: 0 <= l < |n.weights| ==> IsMatrix(n.weights[l], s[l + 1], s[l]))
    && (forall l :: 0 <= l < |n.biases| ==> |n.biases[l]| == s[l + 1])
  }

  // ---------------------------------------------------------------- scalar helpers

  /** `Relu(n, d)`: the step derivative when `d`, max(0, n) otherwise. */
  function Relu(x: real, d: bool): (r: real)
    ensures d ==> (r == 1.0 <==> x > 0.0) && (r == 0.0 <==> x <= 0.0)
    ensures !d ==> r >= 0.0 && r >= x && (r == 0.0 || r == x)
  {
    if d then (if x > 0.0 then 1.0 else 0.0) else (if 0.0 >= x then 0.0 else x)
  }

  /** The prototype's Relu is the nn package's Relu and DRelu in one. */
  lemma ReluAgreesWithActivationFunctions(x: real)
    ensures Relu(x, false) == ActivationFunctions.Relu(x)
    ensures Relu(x, true) == ActivationFunctions.DRelu(x)
  {
  }

  /** `Sigmoid(n, d)`: the derivative in terms of the output when `d`, the
      sigmoid itself otherwise. */
  function Sigmoid(exp: real -> real, x: real, d: bool): (r: real)
    requires !d ==> exp(-x) > 0.0
    ensures d ==> r <= 0.25 && (r == 0.0 <==> x == 0.0 || x == 1.0)
    ensures !d ==> 0.0 < r < 1.0 && r * (1.0 + exp(-x)) == 1.0
  {
    if d then ActivationFunctions.DSigmoid(x) else ActivationFunctions.Sigmoid(exp, x)
  }

  // ---------------------------------------------------------------- softmax

  /** exp of every entry. */
  function Exps(exp: real -> real, arr: seq<real>): (e: seq<real>)
    ensures |e| == |arr|
    ensures forall i :: 0 <= i < |arr| ==> e[i] == exp(arr[i])
  {
    seq(|arr|, i requires 0 <= i < |arr| => exp(arr[i]))
  }

  lemma ExpsPositive(exp: real -> real, arr: seq<real>)
    requires ActivationFunctions.PositiveExp(exp)
    ensures forall i :: 0 <= i < |arr| ==> Exps(exp, arr)[i] > 0.0
  {
    forall i | 0 <= i < |arr| ensures Exps(exp, arr)[i] > 0.0 {
      var x := arr[i];
      assert exp(x) > 0.0;
    }
  }

  /** out[i] = exp(arr[i]) / Σ_v exp(v). An empty input gives an empty output
      and no division happens. */
  function Softmax(exp: real -> real, arr: seq<real>): (out: seq<real>)
    requires ActivationFunctions.PositiveExp(exp)
    ensures |out| == |arr|
    ensures forall i :: 0 <= i < |arr| ==> 0.0 < out[i] && out[i] * Sum(Exps(exp, arr)) == exp(arr[i])
  {
    var e := Exps(exp, arr);
    ExpsPositive(exp, arr);
    SumPositive(e);
    seq(|arr|, i requires 0 <= i < |arr| => exp(arr[i]) / Sum(e))
  }

  /** The outputs of a non-empty softmax sum to 1, so each lies in (0, 1]. */
  lemma SoftmaxSumsToOne(exp: real -> real, arr: seq<real>)
    requires ActivationFunctions.PositiveExp(exp)
    requires |arr| > 0
    ensures Sum(Softmax(exp, arr)) == 1.0
    ensures forall i :: 0 <= i < |arr| ==> Softmax(exp, arr)[i] <= 1.0
  {
    var e := Exps(exp, arr);
    var out := Softmax(exp, arr);
    ExpsPositive(exp, arr);
    SumPositive(e);
    forall i | 0 <= i < |arr| ensures out[i] == e[i] / Sum(e) {
    }
    SumDivided(e, out, Sum(e));
    var total := Sum(e);
    assert total / total == 1.0;
    assert Sum(out) == 1.0;
    forall i | 0 <= i < |arr| ensures out[i] <= 1.0 {
      EntryAtMostSum(out, i);
    }
  }

  /** An entry of a non-negative vector is at most its sum. */
  lemma {:induction false} EntryAtMostSum(v: seq<real>, i: nat)
    requires forall k :: 0 <= k < |v| ==> v[k] >= 0.0
    requires i < |v|
    ensures v[i] <= Sum(v)
    decreases |v|
  {
    var front := v[..|v| - 1];
    SumNonNegative(front);
    assert Sum(v) == Sum(front) + v[|v| - 1];
    if i < |v| - 1 {
      EntryAtMostSum(front, i);
    }
  }

  lemma {:induction false} SumNonNegative(v: seq<real>)
    requires forall k :: 0 <= k < |v| ==> v[k] >= 0.0
    ensures Sum(v) >= 0.0
    decreases |v|
  {
    if |v| > 0 {
      SumNonNegative(v[..|v| - 1]);
    }
  }

  // ---------------------------------------------------------------- targets and error

  /** The one-hot target: length l (nothing for l <= 0), 1 at index n, 0
      elsewhere. Built by appending, as the Go loop does. */
  function GenerateDesiredOutput(n: int, l: int): (out: seq<real>)
    ensures |out| == if l > 0 then l else 0
    ensures forall i :: 0 <= i < |out| ==> out[i] == (if i == n then 1.0 else 0.0)
    decreases l
  {
    if l <= 0 then []
    else GenerateDesiredOutput(n, l - 1) + [if l - 1 == n then 1.0 else 0.0]
  }

  /** The target has exactly one 1 when n is a valid index and none otherwise:
      its entries sum to 1 or to 0. */
  lemma {:induction false} DesiredOutputSum(n: int, l: int)
    ensures Sum(GenerateDesiredOutput(n, l)) == if 0 <= n < l then 1.0 else 0.0
    decreases l
  {
    if l > 0 {
      var out := GenerateDesiredOutput(n, l);
      assert out[..|out| - 1] == GenerateDesiredOutput(n, l - 1);
      DesiredOutputSum(n, l - 1);
    }
  }

  /** The file's own SquaredError: 0.5 Σ (d - a)², panicking on a length
      mismatch; the same code as nn/Utilities.go. */
  function SquaredError(desired: seq<real>, actual: seq<real>): (r: Result<real>)
    ensures r.Ok? <==> |desired| == |actual|
    ensures r.Fail? ==> r.failure == LengthMismatch
    ensures r.Ok? ==> r.value == 0.5 * SquareSum(desired, actual) && r.value >= 0.0
  {
    Utilities.SquaredError(desired, actual)
  }

  // ---------------------------------------------------------------- construction

  /** Builds the network with the given structure. `weightDraw(l, j, k)` and
      `biasDraw(l, j)` stand for the `rand.Float64()` draws behind
      `Weights[l][j][k]` and `Biases[l][j]`. Panics on an empty structure. */
  function InitializeRandomNetwork(structure: seq<nat>, learningRate: real, epochCount: int,
                                   weightDraw: (nat, nat, nat) -> real, biasDraw: (nat, nat) -> real): (r: Result<NeuralNet>)
    ensures r.Ok? <==> |structure| > 0
    ensures r.Fail? ==> r.failure == EmptyStructure
    ensures r.Ok? ==>
              var n := r.value;
              && WellShaped(n)
              && n.structure == structure && n.learningRate == learningRate && n.epochCount == epochCount
              && (forall l, j, k :: 0 <= l < |n.weights| && 0 <= j < |n.weights[l]| && 0 <= k < |n.weights[l][j]| ==>
                                      n.weights[l][j][k] == weightDraw(l, j, k))
              && (forall l, j :: 0 <= l < |n.biases| && 0 <= j < |n.biases[l]| ==> n.biases[l][j] == biasDraw(l, j))
  {
    if |structure| == 0 then Fail(EmptyStructure)
    else Ok(NeuralNet(structure, DrawnLayers(structure, weightDraw), DrawnBiases(structure, biasDraw), learningRate, epochCount))
  }

  /** `Biases[l]` holds the `s[l+1]` draws `biasDraw(l, j)`. */
  function DrawnBiases(s: seq<nat>, biasDraw: (nat, nat) -> real): (b: seq<seq<real>>)
    requires |s| > 0
    ensures |b| == |s| - 1
    ensures forall l :: 0 <= l < |b| ==> |b[l]| == s[l + 1]
    ensures forall l, j :: 0 <= l < |b| && 0 <= j < |b[l]| ==> b[l][j] == biasDraw(l, j)
  {
    seq(|s| - 1, l requires 0 <= l < |s| - 1 => seq(s[l + 1], j requires 0 <= j => biasDraw(l, j)))
  }

  /** With draws in [0, 1), as `rand.Float64()` returns, every initial weight
      and bias lies in [0, 1). */
  lemma InitialValuesInRange(structure: seq<nat>, learningRate: real, epochCount: int,
                             weightDraw: (nat, nat, nat) -> real, biasDraw: (nat, nat) -> real)
    requires |structure| > 0
    requires forall l, j, k :: 0.0 <= weightDraw(l, j, k) < 1.0
    requires forall l, j :: 0.0 <= biasDraw(l, j) < 1.0
    ensures var n := InitializeRandomNetwork(structure, learningRate, epochCount, weightDraw, biasDraw).value;
            && (forall l, j, k :: 0 <= l < |n.weights| && 0 <= j < |n.weights[l]| && 0 <= k < |n.weights[l][j]| ==>
                                    0.0 <= n.weights[l][j][k] < 1.0)
            && (forall l, j :: 0 <= l < |n.biases| && 0 <= j < |n.biases[l]| ==> 0.0 <= n.biases[l][j] < 1.0)
  {
  }

  // ---------------------------------------------------------------- forward pass

  /** Each weight matrix has one bias per row, and its rows are as long as the
      layer below: `width` for the first matrix. */
  ghost predicate Chain(weights: seq<seq<seq<real>>>, biases: seq<seq<real>>, width: nat) {
    && |weights| == |biases|
    && (forall l :: 0 <= l < |weights| ==> |biases[l]| == |weights[l]|)
    && (forall l, j :: 0 <= l < |weights| && 0 <= j < |weights[l]| ==>
                         |weights[l][j]| == (if l == 0 then width else |weights[l - 1]|))
  }

  lemma ChainTail(weights: seq<seq<seq<real>>>, biases: seq<seq<real>>, width: nat)
    requires Chain(weights, biases, width) && |weights| > 0
    ensures Chain(weights[1..], biases[1..], |weights[0]|)
  {
    forall l, j | 0 <= l < |weights| - 1 && 0 <= j < |weights[l + 1]|
      ensures |weights[1..][l][j]| == (if l == 0 then |weights[0]| else |weights[1..][l - 1]|)
    {
      assert |weights[l + 1][j]| == |weights[l]|;
    }
  }

  lemma ChainFront(weights: seq<seq<seq<real>>>, biases: seq<seq<real>>, width: nat)
    requires Chain(weights, biases, width) && |weights| > 0
    ensures Chain(weights[..|weights| - 1], biases[..|biases| - 1], width)
  {
  }

  lemma WellShapedIsChain(n: NeuralNet)
    requires WellShaped(n)
    ensures Chain(n.weights, n.biases, n.structure[0])
  {
    forall l, j | 0 <= l < |n.weights| && 0 <= j < |n.weights[l]|
      ensures |n.weights[l][j]| == (if l == 0 then n.structure[0] else |n.weights[l - 1]|)
    {
      assert IsMatrix(n.weights[l], n.structure[l + 1], n.structure[l]);
      if l > 0 {
        assert IsMatrix(n.weights[l - 1], n.structure[l], n.structure[l - 1]);
      }
    }
  }

  /** One layer: neuron j takes sigmoid(b[j] + Σ_k x[k] * w[j][k]). */
  function LayerOut(exp: real -> real, w: seq<seq<real>>, b: seq<real>, x: seq<real>): (y: seq<real>)
    requires ActivationFunctions.PositiveExp(exp)
    requires |b| == |w|
    requires forall j :: 0 <= j < |w| ==> |w[j]| == |x|
    ensures |y| == |w|
    ensures forall j :: 0 <= j < |w| ==> y[j] == ActivationFunctions.Sigmoid(exp, b[j] + Dot(x, w[j])) && 0.0 < y[j] < 1.0
  {
    seq(|w|, j requires 0 <= j < |w| => Sigmoid(exp, b[j] + Dot(x, w[j]), false))
  }

  /** The Go loop over the layers, first layer first. */
  function Propagate(exp: real -> real, weights: seq<seq<seq<real>>>, biases: seq<seq<real>>, x: seq<real>): (y: seq<real>)
    requires ActivationFunctions.PositiveExp(exp)
    requires Chain(weights, biases, |x|)
    ensures |y| == if |weights| == 0 then |x| else |weights[|weights| - 1]|
    ensures |weights| > 0 ==> forall i :: 0 <= i < |y| ==> 0.0 < y[i] < 1.0
    decreases |weights|
  {
    if |weights| == 0 then x
    else
      var y := LayerOut(exp, weights[0], biases[0], x);
      ChainTail(weights, biases, |x|);
      Propagate(exp, weights[1..], biases[1..], y)
  }

  /** The same pass seen from the output end: the last layer applied to the
      pass through all the layers before it. */
  lemma {:induction false} PropagateLastLayer(exp: real -> real, weights: seq<seq<seq<real>>>, biases: seq<seq<real>>, x: seq<real>)
    requires ActivationFunctions.PositiveExp(exp)
    requires Chain(weights, biases, |x|) && |weights| > 0
    ensures Chain(weights[..|weights| - 1], biases[..|biases| - 1], |x|)
    ensures var k := |weights| - 1;
            var below := Propagate(exp, weights[..k], biases[..k], x);
            && (forall j :: 0 <= j < |weights[k]| ==> |weights[k][j]| == |below|)
            && Propagate(exp, weights, biases, x) == LayerOut(exp, weights[k], biases[k], below)
    decreases |weights|
  {
    ChainFront(weights, biases, |x|);
    var k := |weights| - 1;
    if k > 0 {
      ChainTail(weights, biases, |x|);
      var y := LayerOut(exp, weights[0], biases[0], x);
      PropagateLastLayer(exp, weights[1..], biases[1..], y);
      assert weights[1..][..k - 1] == weights[..k][1..];
      assert biases[1..][..k - 1] == biases[..k][1..];
      ChainTail(weights[..k], biases[..k], |x|);
    }
  }

  /** Propagates `input` through every layer and returns the last one.
      Reading `Weights[0][0]` panics when there is no weight layer or the
      first one is empty; a wrong input width panics explicitly. */
  function ForwardPropagateInput(n: NeuralNet, exp: real -> real, input: seq<real>): (r: Result<seq<real>>)
    requires WellShaped(n) && ActivationFunctions.PositiveExp(exp)
    ensures r.Ok? <==> |n.structure| >= 2 && n.structure[1] > 0 && |input| == n.structure[0]
    ensures r.Fail? ==> r.failure == if |n.structure| < 2 || n.structure[1] == 0 then IndexOutOfRange else InputSizeMismatch
    ensures r.Ok? ==> |r.value| == n.structure[|n.structure| - 1]
    ensures r.Ok? ==> forall i :: 0 <= i < |r.value| ==> 0.0 < r.value[i] < 1.0
    ensures r.Ok? ==> Chain(n.weights, n.biases, |input|) && r.value == Propagate(exp, n.weights, n.biases, input)
  {
    if |n.weights| == 0 || |n.weights[0]| == 0 then Fail(IndexOutOfRange)
    else if |input| != |n.weights[0][0]| then Fail(InputSizeMismatch)
    else
      WellShapedIsChain(n);
      var s := n.structure;
      assert IsMatrix(n.weights[|s| - 2], s[|s| - 1], s[|s| - 2]);
      Ok(Propagate(exp, n.weights, n.biases, input))
  }

  /** The output of a two-layer network is one sigmoid layer over the input. */
  lemma TwoLayerForward(n: NeuralNet, exp: real -> real, input: seq<real>)
    requires WellShaped(n) && ActivationFunctions.PositiveExp(exp)
    requires |n.structure| == 2 && n.structure[1] > 0 && |input| == n.structure[0]
    ensures var out := ForwardPropagateInput(n, exp, input).value;
            forall j :: 0 <= j < |out| ==>
                          out[j] == ActivationFunctions.Sigmoid(exp, n.biases[0][j] + Dot(input, n.weights[0][j]))
  {
    WellShapedIsChain(n);
    PropagateLastLayer(exp, n.weights, n.biases, input);
  }

  /** A freshly initialised network with a non-empty first hidden layer
      accepts every input of the input layer's width. */
  lemma InitializedNetworkForwards(structure: seq<nat>, learningRate: real, epochCount: int,
                                   weightDraw: (nat, nat, nat) -> real, biasDraw: (nat, nat) -> real,
                                   exp: real -> real, input: seq<real>)
    requires ActivationFunctions.PositiveExp(exp)
    requires |structure| >= 2 && structure[1] > 0 && |input| == structure[0]
    ensures var n := InitializeRandomNetwork(structure, learningRate, epochCount, weightDraw, biasDraw).value;
            && ForwardPropagateInput(n, exp, input).Ok?
            && |ForwardPropagateInput(n, exp, input).value| == structure[|structure| - 1]
  {
  }

  // ---------------------------------------------------------------- error of an example

  /** SquaredError between the target and the softmax of the forward pass. */
  function CalculateSquaredErrorForExample(n: NeuralNet, exp: real -> real, e: Utilities.Example): (r: Result<real>)
    requires WellShaped(n) && ActivationFunctions.PositiveExp(exp)
    ensures var f := ForwardPropagateInput(n, exp, e.input);
            && (r.Ok? <==> f.Ok? && |e.output| == n.structure[|n.structure| - 1])
            && (r.Fail? ==> r.failure == if f.Fail? then f.failure else LengthMismatch)
            && (r.Ok? ==> r.value >= 0.0 && r.value == 0.5 * SquareSum(e.output, Softmax(exp, f.value)))
  {
    var out :- ForwardPropagateInput(n, exp, e.input);
    SquaredError(e.output, Softmax(exp, out))
  }

  /** For targets in [0, 1] (one-hot targets among them) the error of an
      example is at most half the output width, softmax outputs lying in (0, 1]. */
  lemma ExampleErrorBound(n: NeuralNet, exp: real -> real, e: Utilities.Example)
    requires WellShaped(n) && ActivationFunctions.PositiveExp(exp)
    requires forall i :: 0 <= i < |e.output| ==> 0.0 <= e.output[i] <= 1.0
    ensures var r := CalculateSquaredErrorForExample(n, exp, e);
            r.Ok? ==> r.value <= 0.5 * (|e.output| as real)
  {
    var f := ForwardPropagateInput(n, exp, e.input);
    if CalculateSquaredErrorForExample(n, exp, e).Ok? {
      var p := Softmax(exp, f.value);
      if |p| > 0 {
        SoftmaxSumsToOne(exp, f.value);
      }
      SquareSumUnitBound(e.output, p);
    }
  }

  /** Entries pairwise within distance 1 give a square sum of at most the length. */
  lemma {:induction false} SquareSumUnitBound(d: seq<real>, a: seq<real>)
    requires |d| == |a|
    requires forall i :: 0 <= i < |d| ==> 0.0 <= d[i] <= 1.0 && 0.0 <= a[i] <= 1.0
    ensures SquareSum(d, a) <= |d| as real
    decreases |d|
  {
    if |d| > 0 {
      var k := |d| - 1;
      SquareSumUnitBound(d[..k], a[..k]);
      var t := d[k] - a[k];
      assert SquareSum(d, a) == SquareSum(d[..k], a[..k]) + t * t;
      assert -1.0 <= t <= 1.0;
      assert t * t <= 1.0 by {
        if t >= 0.0 { assert t * t <= t * 1.0; } else { assert t * t == (-t) * (-t) <= (-t) * 1.0; }
      }
    }
  }

  // ---------------------------------------------------------------- output errors

  /** The unfinished hidden-layer loop reads `Weights[h][i][j]` for every
      hidden layer h, neuron i < s[h] of that layer and output neuron
      j < s[last]. Row i exists only when i < s[h+1] and entry j only when
      j < s[h]; one read past either panics. */
  predicate HiddenReadOverruns(s: seq<nat>)
    requires |s| >= 1
  {
    exists h :: 1 <= h < |s| - 1 && s[h] > 0 && s[|s| - 1] > 0 && (s[h] > s[h + 1] || s[|s| - 1] > s[h])
  }

  /** Checks both sizes, runs the forward pass and returns the output errors
      `Output[o] - forward(Input)[o]`. */
  function BackPropegateExample(n: NeuralNet, exp: real -> real, e: Utilities.Example): (r: Result<seq<real>>)
    requires WellShaped(n) && ActivationFunctions.PositiveExp(exp)
    ensures var s := n.structure;
            r.Ok? <==> && s[0] == |e.input| && s[|s| - 1] == |e.output|
                       && |s| >= 2 && s[1] > 0 && !HiddenReadOverruns(s)
    ensures var s := n.structure;
            r.Fail? ==> r.failure == if s[0] != |e.input| then InputSizeMismatch
                                    else if s[|s| - 1] != |e.output| then OutputSizeMismatch
                                    else IndexOutOfRange
    ensures r.Ok? ==>
              var out := ForwardPropagateInput(n, exp, e.input).value;
              && |r.value| == |e.output| == |out|
              && forall o :: 0 <= o < |r.value| ==> r.value[o] == e.output[o] - out[o]
  {
    var s := n.structure;
    if s[0] != |e.input| then Fail(InputSizeMismatch)
    else if s[|s| - 1] != |e.output| then Fail(OutputSizeMismatch)
    else
      var out :- ForwardPropagateInput(n, exp, e.input);
      if HiddenReadOverruns(s) then Fail(IndexOutOfRange)
      else Ok(seq(|out|, o requires 0 <= o < |out| => e.output[o] - out[o]))
  }

  /** A two-layer network never enters the hidden loop: matching sizes and a
      non-empty output layer are all BackPropegateExample needs. */
  lemma TwoLayerBackPropagates(n: NeuralNet, exp: real -> real, e: Utilities.Example)
    requires WellShaped(n) && ActivationFunctions.PositiveExp(exp)
    requires |n.structure| == 2 && n.structure[1] > 0
    requires n.structure[0] == |e.input| && n.structure[1] == |e.output|
    ensures BackPropegateExample(n, exp, e).Ok?
  {
  }

  /** A hidden layer wider than the layer above it is read past its end:
      structure [2, 3, 2] panics. */
  lemma WideHiddenLayerPanics(n: NeuralNet, exp: real -> real, e: Utilities.Example)
    requires WellShaped(n) && ActivationFunctions.PositiveExp(exp)
    requires n.structure == [2, 3, 2]
    ensures BackPropegateExample(n, exp, e) == Fail(if |e.input| != 2 then InputSizeMismatch
                                                   else if |e.output| != 2 then OutputSizeMismatch
                                                   else IndexOutOfRange)
  {
    assert HiddenReadOverruns(n.structure) by {
      assert n.structure[1] > n.structure[2];
    }
  }

  /** Half the squared length of the returned error vector is the squared
      error of the raw (softmax-free) output. */
  lemma OutputErrorsGiveSquaredError(n: NeuralNet, exp: real -> real, e: Utilities.Example)
    requires WellShaped(n) && ActivationFunctions.PositiveExp(exp)
    requires BackPropegateExample(n, exp, e).Ok?
    ensures var errs := BackPropegateExample(n, exp, e).value;
            var out := ForwardPropagateInput(n, exp, e.input).value;
            SquaredError(e.output, out) == Ok(0.5 * SquareSum(errs, Zeros(|errs|)))
  {
    var errs := BackPropegateExample(n, exp, e).value;
    var out := ForwardPropagateInput(n, exp, e.input).value;
    DifferencesSquareSum(e.output, out, errs);
  }

  /** Σ (d - a)² is the squared length of the difference vector. */
  lemma {:induction false} DifferencesSquareSum(d: seq<real>, a: seq<real>, diff: seq<real>)
    requires |d| == |a| == |diff|
    requires forall i :: 0 <= i < |d| ==> diff[i] == d[i] - a[i]
    ensures SquareSum(d, a) == SquareSum(diff, Zeros(|diff|))
    decreases |d|
  {
    if |d| > 0 {
      var k := |d| - 1;
      assert Zeros(|diff|)[..k] == Zeros(k);
      DifferencesSquareSum(d[..k], a[..k], diff[..k]);
    }
  }
}
