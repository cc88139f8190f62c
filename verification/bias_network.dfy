/** nn/network.go: a fixed three-layer network (input, hidden, output) with a
    bias neuron at the end of the input and hidden layers, trained with
    sigmoid activations and per-weight momentum.

    `InputWeights[i][j]` connects input neuron i to hidden neuron j and
    `OutputWeights[i][j]` connects hidden neuron i to output neuron j. The
    last input and the last hidden neuron are the bias neurons: their
    activations start at 1.0 and no method writes them. */
module BiasNetwork {
  import opened Outcome
  import opened Vectors
  import opened Utilities
  import ActivationFunctions
  import Passes

  datatype Network = Network(
    nInputs: nat,
    nHidden: nat,
    nOutputs: nat,
    epochs: nat,
    inputActivations: seq<real>,
    hiddenActivations: seq<real>,
    outputActivations: seq<real>,
    inputWeights: seq<seq<real>>,
    outputWeights: seq<seq<real>>,
    inputChanges: seq<seq<real>>,
    outputChanges: seq<seq<real>>,
    learningRate: real,
    mFactor: real)

  /** The layout InitializeNewNetwork creates and every method keeps: the
      shapes, both bias activations at 1.0, and a zero stored change on every
      weight into the hidden bias neuron. */
  ghost predicate Valid(n: Network) {
    && n.nInputs >= 1 && n.nHidden >= 1
    && |n.inputActivations| == n.nInputs
    && |n.hiddenActivations| == n.nHidden
    && |n.outputActivations| == n.nOutputs
    && IsMatrix(n.inputWeights, n.nInputs, n.nHidden)
    && IsMatrix(n.outputWeights, n.nHidden, n.nOutputs)
    && IsMatrix(n.inputChanges, n.nInputs, n.nHidden)
    && IsMatrix(n.outputChanges, n.nHidden, n.nOutputs)
    && n.inputActivations[n.nInputs - 1] == 1.0
    && n.hiddenActivations[n.nHidden - 1] == 1.0
    && (forall i :: 0 <= i < n.nInputs ==> n.inputChanges[i][n.nHidden - 1] == 0.0)
  }

  /** Same sizes and hyper-parameters. */
  ghost predicate SameLayout(n: Network, m: Network) {
    && m.nInputs == n.nInputs && m.nHidden == n.nHidden && m.nOutputs == n.nOutputs
    && m.epochs == n.epochs && m.learningRate == n.learningRate && m.mFactor == n.mFactor
  }

  /** The weights into the hidden bias neuron, one per input neuron (see
      Column for their values). */
  ghost function BiasColumn(n: Network): seq<real> {
    if n.nHidden == 0 then [] else Column(n.inputWeights, n.nHidden - 1)
  }

  /** `(b - a) * u + a` for a draw `u` of `rand.Float64()`. */
  function GetRandomValue(a: real, b: real, u: real): (r: real)
    ensures 0.0 <= u < 1.0 && a < b ==> a <= r < b
  {
    if 0.0 <= u < 1.0 && a < b then
      DrawInRange(a, b, u);
      (b - a) * u + a
    else (b - a) * u + a
  }

  lemma DrawInRange(a: real, b: real, u: real)
    requires a < b && 0.0 <= u < 1.0
    ensures a <= (b - a) * u + a < b
  {
    var c := b - a;
    var v := 1.0 - u;
    ProductPositive(c, v);
    ProductNonNegative(c, u);
    var cu := c * u;
    var cv := c * v;
    assert cu + cv == c by {
      assert c * u + c * v == c * (u + v);
    }
    assert 0.0 <= cu < c;
    assert (b - a) * u == cu;
  }

  lemma ProductPositive(x: real, y: real)
    requires x > 0.0 && y > 0.0
    ensures x * y > 0.0
  {
  }

  lemma ProductNonNegative(x: real, y: real)
    requires x > 0.0 && y >= 0.0
    ensures x * y >= 0.0
  {
  }

  function CreateMatrix(i: nat, j: nat): (m: seq<seq<real>>)
    ensures IsMatrix(m, i, j)
    ensures forall a, b :: 0 <= a < i && 0 <= b < j ==> m[a][b] == 0.0
  {
    seq(i, _ => Zeros(j))
  }

  /** Unlike its namesake in nn/Network.go, this one does fill. */
  function CreateVector(i: nat, fill: real): (v: seq<real>)
    ensures |v| == i
    ensures forall a :: 0 <= a < i ==> v[a] == fill
  {
    seq(i, _ => fill)
  }

  /** `Sigmoid(n, d)`: the derivative (in terms of the output) when `d`, the
      sigmoid itself otherwise. */
  function Sigmoid(exp: real -> real, x: real, d: bool): (r: real)
    requires !d ==> exp(-x) > 0.0
    ensures d ==> r == ActivationFunctions.DSigmoid(x)
    ensures !d ==> r == ActivationFunctions.Sigmoid(exp, x) && 0.0 < r < 1.0
  {
    if d then x * (1.0 - x) else 1.0 / (1.0 + exp(-x))
  }

  /** The file's own SquaredError; it is the one of nn/Utilities.go. */
  function SquaredError(desired: seq<real>, actual: seq<real>): (r: Result<real>)
    ensures r.Ok? <==> |desired| == |actual|
    ensures r.Fail? ==> r.failure == LengthMismatch
    ensures r.Ok? ==> r.value == 0.5 * SquareSum(desired, actual) && r.value >= 0.0
  {
    Utilities.SquaredError(desired, actual)
  }

  /** A new network for `inputs` inputs, `hiddens` hidden neurons and
      `outputs` outputs, plus one bias neuron in each of the first two
      layers. `u(0, i, j)` and `u(1, i, j)` stand for the `rand.Float64()`
      draws behind input weight [i][j] and output weight [i][j]. */
  function InitializeNewNetwork(learningRate: real, inputs: nat, hiddens: nat, outputs: nat, epochCount: nat, mFactor: real,
                                u: (nat, nat, nat) -> real): (n: Network)
    ensures Valid(n)
    ensures n.nInputs == inputs + 1 && n.nHidden == hiddens + 1 && n.nOutputs == outputs
    ensures n.epochs == epochCount && n.learningRate == learningRate && n.mFactor == mFactor
    ensures forall i :: 0 <= i < n.nInputs ==> n.inputActivations[i] == 1.0
    ensures forall i :: 0 <= i < n.nHidden ==> n.hiddenActivations[i] == 1.0
    ensures forall i :: 0 <= i < n.nOutputs ==> n.outputActivations[i] == 1.0
    ensures forall i, j :: 0 <= i < n.nInputs && 0 <= j < n.nHidden ==>
                             n.inputWeights[i][j] == GetRandomValue(-1.0, 1.0, u(0, i, j)) && n.inputChanges[i][j] == 0.0
    ensures forall i, j :: 0 <= i < n.nHidden && 0 <= j < n.nOutputs ==>
                             n.outputWeights[i][j] == GetRandomValue(-1.0, 1.0, u(1, i, j)) && n.outputChanges[i][j] == 0.0
  {
    var ni := inputs + 1;
    var nh := hiddens + 1;
    Network(ni, nh, outputs, epochCount,
            CreateVector(ni, 1.0), CreateVector(nh, 1.0), CreateVector(outputs, 1.0),
            seq(ni, i requires 0 <= i => seq(nh, j requires 0 <= j => GetRandomValue(-1.0, 1.0, u(0, i, j)))),
            seq(nh, i requires 0 <= i => seq(outputs, j requires 0 <= j => GetRandomValue(-1.0, 1.0, u(1, i, j)))),
            CreateMatrix(ni, nh), CreateMatrix(nh, outputs),
            learningRate, mFactor)
  }

  /** With draws in [0, 1) every initial weight lies in [-1, 1). */
  lemma InitialWeightsInRange(learningRate: real, inputs: nat, hiddens: nat, outputs: nat, epochCount: nat, mFactor: real,
                              u: (nat, nat, nat) -> real)
    requires forall l, i, j :: 0.0 <= u(l, i, j) < 1.0
    ensures var n := InitializeNewNetwork(learningRate, inputs, hiddens, outputs, epochCount, mFactor, u);
            && (forall i, j :: 0 <= i < n.nInputs && 0 <= j < n.nHidden ==> -1.0 <= n.inputWeights[i][j] < 1.0)
            && (forall i, j :: 0 <= i < n.nHidden && 0 <= j < n.nOutputs ==> -1.0 <= n.outputWeights[i][j] < 1.0)
  {
    var n := InitializeNewNetwork(learningRate, inputs, hiddens, outputs, epochCount, mFactor, u);
    forall i, j | 0 <= i < n.nInputs && 0 <= j < n.nHidden ensures -1.0 <= n.inputWeights[i][j] < 1.0 {
      assert n.inputWeights[i][j] == GetRandomValue(-1.0, 1.0, u(0, i, j));
    }
    forall i, j | 0 <= i < n.nHidden && 0 <= j < n.nOutputs ensures -1.0 <= n.outputWeights[i][j] < 1.0 {
      assert n.outputWeights[i][j] == GetRandomValue(-1.0, 1.0, u(1, i, j));
    }
  }

  // ---------------------------------------------------------------- forward

  /** Hidden neuron i (not the bias) takes sigmoid(Σ_j ia[j] * iw[j][i]). */
  function HiddenLayer(exp: real -> real, ia: seq<real>, iw: seq<seq<real>>, nHidden: nat, bias: real): (ha: seq<real>)
    requires ActivationFunctions.PositiveExp(exp)
    requires |iw| == |ia| && nHidden >= 1
    ensures |ha| == nHidden && ha[nHidden - 1] == bias
    ensures forall i {:trigger ha[i]} :: 0 <= i < nHidden - 1 ==> ha[i] == ActivationFunctions.Sigmoid(exp, Dot(ia, Column(iw, i)))
  {
    seq(nHidden, i requires 0 <= i < nHidden => if i < nHidden - 1 then Sigmoid(exp, Dot(ia, Column(iw, i)), false) else bias)
  }

  /** Output neuron i takes sigmoid(Σ_j ha[j] * ow[j][i]). */
  function OutputLayer(exp: real -> real, ha: seq<real>, ow: seq<seq<real>>, nOutputs: nat): (oa: seq<real>)
    requires ActivationFunctions.PositiveExp(exp)
    requires |ow| == |ha|
    ensures |oa| == nOutputs
    ensures forall i {:trigger oa[i]} :: 0 <= i < nOutputs ==> oa[i] == ActivationFunctions.Sigmoid(exp, Dot(ha, Column(ow, i))) && 0.0 < oa[i] < 1.0
  {
    seq(nOutputs, i requires 0 <= i < nOutputs => Sigmoid(exp, Dot(ha, Column(ow, i)), false))
  }

  /** Copies the input into the non-bias input slots and recomputes the hidden
      (except the bias) and output activations; returns the outputs. Panics
      when the input does not have `NInputs - 1` entries. */
  function ForwardPropagate(n: Network, exp: real -> real, input: seq<real>): (r: Result<(Network, seq<real>)>)
    requires Valid(n) && ActivationFunctions.PositiveExp(exp)
    ensures r.Ok? <==> |input| == n.nInputs - 1
    ensures r.Fail? ==> r.failure == InputSizeMismatch
    ensures r.Ok? ==>
              var (m, output) := r.value;
              && Valid(m) && SameLayout(n, m)
              && m.inputWeights == n.inputWeights && m.outputWeights == n.outputWeights
              && m.inputChanges == n.inputChanges && m.outputChanges == n.outputChanges
              && m.inputActivations == input + [1.0]
              && m.hiddenActivations[n.nHidden - 1] == 1.0
              && (forall i {:trigger m.hiddenActivations[i]} :: 0 <= i < n.nHidden - 1 ==>
                                m.hiddenActivations[i] == ActivationFunctions.Sigmoid(exp, Dot(m.inputActivations, Column(n.inputWeights, i))))
              && (forall i {:trigger m.outputActivations[i]} :: 0 <= i < n.nOutputs ==>
                                m.outputActivations[i] == ActivationFunctions.Sigmoid(exp, Dot(m.hiddenActivations, Column(n.outputWeights, i))))
              && output == m.outputActivations && |output| == n.nOutputs
              && (forall i :: 0 <= i < |output| ==> 0.0 < output[i] < 1.0)
  {
    if |input| != n.nInputs - 1 then Fail(InputSizeMismatch)
    else
      var ia := input + [n.inputActivations[n.nInputs - 1]];
      var ha := HiddenLayer(exp, ia, n.inputWeights, n.nHidden, n.hiddenActivations[n.nHidden - 1]);
      var oa := OutputLayer(exp, ha, n.outputWeights, n.nOutputs);
      Ok((n.(inputActivations := ia, hiddenActivations := ha, outputActivations := oa), oa))
  }

  /** The network's output for input `x` from the weights alone, with both
      bias activations at 1.0. */
  function Predict(n: Network, exp: real -> real, x: seq<real>): (y: seq<real>)
    requires Valid(n) && ActivationFunctions.PositiveExp(exp) && |x| == n.nInputs - 1
    ensures |y| == n.nOutputs
  {
    var ha := HiddenLayer(exp, x + [1.0], n.inputWeights, n.nHidden, 1.0);
    OutputLayer(exp, ha, n.outputWeights, n.nOutputs)
  }

  /** The forward pass computes the prediction: the bias slots it reads are
      1.0 in every valid network. */
  lemma ForwardIsPredict(n: Network, exp: real -> real, x: seq<real>)
    requires Valid(n) && ActivationFunctions.PositiveExp(exp) && |x| == n.nInputs - 1
    ensures ForwardPropagate(n, exp, x).value.1 == Predict(n, exp, x)
  {
  }

  // ---------------------------------------------------------------- backward

  /** Output deltas: o(1 - o)(t - o). */
  function OutputDeltas(oa: seq<real>, targets: seq<real>): (d: seq<real>)
    requires |oa| == |targets|
    ensures |d| == |oa|
    ensures forall i {:trigger d[i]} :: 0 <= i < |oa| ==> d[i] == ActivationFunctions.DSigmoid(oa[i]) * (targets[i] - oa[i])
  {
    seq(|oa|, i requires 0 <= i < |oa| => Sigmoid(x => x, oa[i], true) * (targets[i] - oa[i]))
  }

  /** Hidden deltas: h(1 - h) * Σ_j od[j] * ow[i][j], over the output weights
      given (BackPropagate passes the ones from before its update). */
  function HiddenDeltas(ha: seq<real>, ow: seq<seq<real>>, od: seq<real>): (d: seq<real>)
    requires IsMatrix(ow, |ha|, |od|)
    ensures |d| == |ha|
    ensures forall i {:trigger d[i]} :: 0 <= i < |ha| ==> d[i] == ActivationFunctions.DSigmoid(ha[i]) * Dot(od, ow[i])
  {
    seq(|ha|, i requires 0 <= i < |ha| => Sigmoid(x => x, ha[i], true) * Dot(od, ow[i]))
  }

  /** One weight's update, where the weight's change is `delta * act`:
      `w + LearningRate * change + MFactor * oldChange`. The stored change
      then becomes `change`. */
  function MomentumUpdate(w: real, delta: real, act: real, oldChange: real, lr: real, mf: real): real {
    w + lr * (delta * act) + mf * oldChange
  }

  /** Row i of a weight update: the weights out of a neuron with activation
      `a`, whose changes are `a * dst[j]`. */
  function UpdateRow(w: seq<real>, c: seq<real>, a: real, dst: seq<real>, lr: real, mf: real): (res: seq<real>)
    requires |w| == |dst| && |c| == |dst|
    ensures |res| == |dst|
    ensures forall j {:trigger res[j]} :: 0 <= j < |dst| ==> res[j] == MomentumUpdate(w[j], dst[j], a, c[j], lr, mf)
  {
    seq(|dst|, j requires 0 <= j < |dst| => MomentumUpdate(w[j], dst[j], a, c[j], lr, mf))
  }

  /** The update of a weight matrix from `src[i] * dst[j]` changes. */
  function UpdateWeights(w: seq<seq<real>>, c: seq<seq<real>>, src: seq<real>, dst: seq<real>, lr: real, mf: real): (res: seq<seq<real>>)
    requires IsMatrix(w, |src|, |dst|) && IsMatrix(c, |src|, |dst|)
    ensures IsMatrix(res, |src|, |dst|)
    ensures forall i, j {:trigger res[i][j]} :: 0 <= i < |src| && 0 <= j < |dst| ==>
                             res[i][j] == MomentumUpdate(w[i][j], dst[j], src[i], c[i][j], lr, mf)
  {
    seq(|src|, i requires 0 <= i < |src| => UpdateRow(w[i], c[i], src[i], dst, lr, mf))
  }

  /** The stored changes after an update: `src[i] * dst[j]`. */
  function NewChanges(src: seq<real>, dst: seq<real>): (c: seq<seq<real>>)
    ensures IsMatrix(c, |src|, |dst|)
    ensures forall i, j {:trigger c[i][j]} :: 0 <= i < |src| && 0 <= j < |dst| ==> c[i][j] == dst[j] * src[i]
  {
    seq(|src|, i requires 0 <= i < |src| => seq(|dst|, j requires 0 <= j < |dst| => dst[j] * src[i]))
  }

  /** The hidden bias neuron's delta is zero, because its activation is 1. */
  lemma BiasDeltaIsZero(n: Network, targets: seq<real>)
    requires Valid(n) && |targets| == n.nOutputs
    ensures HiddenDeltas(n.hiddenActivations, n.outputWeights, OutputDeltas(n.outputActivations, targets))[n.nHidden - 1] == 0.0
  {
  }

  /** BackPropagate's first weight loop: the hidden-to-output weights. */
  function UpdateOutputLayer(n: Network, od: seq<real>): (m: Network)
    requires Valid(n) && |od| == n.nOutputs
    ensures Valid(m) && SameLayout(n, m)
    ensures m.inputActivations == n.inputActivations && m.hiddenActivations == n.hiddenActivations
    ensures m.outputActivations == n.outputActivations
    ensures m.inputWeights == n.inputWeights && m.inputChanges == n.inputChanges
    ensures forall i, j {:trigger m.outputWeights[i][j]} :: 0 <= i < n.nHidden && 0 <= j < n.nOutputs ==>
                             && m.outputWeights[i][j] == MomentumUpdate(n.outputWeights[i][j], od[j], n.hiddenActivations[i],
                                                                        n.outputChanges[i][j], n.learningRate, n.mFactor)
                             && m.outputChanges[i][j] == od[j] * n.hiddenActivations[i]
    ensures BiasColumn(m) == BiasColumn(n)
  {
    n.(outputWeights := UpdateWeights(n.outputWeights, n.outputChanges, n.hiddenActivations, od, n.learningRate, n.mFactor),
       outputChanges := NewChanges(n.hiddenActivations, od))
  }

  /** BackPropagate's second weight loop: the input-to-hidden weights. With
      a zero delta for the hidden bias neuron, the weights into it stay put
      and their stored changes stay zero. */
  function UpdateInputLayer(n: Network, hd: seq<real>): (m: Network)
    requires Valid(n) && |hd| == n.nHidden && hd[n.nHidden - 1] == 0.0
    ensures Valid(m) && SameLayout(n, m)
    ensures m.inputActivations == n.inputActivations && m.hiddenActivations == n.hiddenActivations
    ensures m.outputActivations == n.outputActivations
    ensures m.outputWeights == n.outputWeights && m.outputChanges == n.outputChanges
    ensures forall i, j {:trigger m.inputWeights[i][j]} :: 0 <= i < n.nInputs && 0 <= j < n.nHidden ==>
                             && m.inputWeights[i][j] == MomentumUpdate(n.inputWeights[i][j], hd[j], n.inputActivations[i],
                                                                       n.inputChanges[i][j], n.learningRate, n.mFactor)
                             && m.inputChanges[i][j] == hd[j] * n.inputActivations[i]
    ensures BiasColumn(m) == BiasColumn(n)
  {
    var iw := UpdateWeights(n.inputWeights, n.inputChanges, n.inputActivations, hd, n.learningRate, n.mFactor);
    var ic := NewChanges(n.inputActivations, hd);
    BiasColumnFrozen(n, hd);
    var m := n.(inputWeights := iw, inputChanges := ic);
    assert BiasColumn(m) == BiasColumn(n);
    m
  }

  /** A weight whose change and stored change are both zero stays put. */
  lemma MomentumAtRest(w: real, act: real, lr: real, mf: real)
    ensures MomentumUpdate(w, 0.0, act, 0.0, lr, mf) == w
  {
  }

  /** With a zero delta for the hidden bias neuron, the update leaves the
      weights into it alone and records zero changes for them. */
  lemma BiasColumnFrozen(n: Network, hd: seq<real>)
    requires Valid(n) && |hd| == n.nHidden && hd[n.nHidden - 1] == 0.0
    ensures var bias := n.nHidden - 1;
            var iw := UpdateWeights(n.inputWeights, n.inputChanges, n.inputActivations, hd, n.learningRate, n.mFactor);
            var ic := NewChanges(n.inputActivations, hd);
            forall i :: 0 <= i < n.nInputs ==> ic[i][bias] == 0.0 && iw[i][bias] == n.inputWeights[i][bias]
  {
    var bias := n.nHidden - 1;
    var iw := UpdateWeights(n.inputWeights, n.inputChanges, n.inputActivations, hd, n.learningRate, n.mFactor);
    var ic := NewChanges(n.inputActivations, hd);
    forall i | 0 <= i < n.nInputs ensures ic[i][bias] == 0.0 && iw[i][bias] == n.inputWeights[i][bias] {
      assert n.inputChanges[i][bias] == 0.0;
      MomentumAtRest(n.inputWeights[i][bias], n.inputActivations[i], n.learningRate, n.mFactor);
      assert iw[i][bias] == MomentumUpdate(n.inputWeights[i][bias], hd[bias], n.inputActivations[i], n.inputChanges[i][bias], n.learningRate, n.mFactor);
    }
  }

  /** The network after BackPropagate's two weight loops. Output deltas come
      from the current outputs, hidden deltas from the output weights before
      the update; the hidden bias neuron's delta is zero. */
  function Updated(n: Network, targets: seq<real>): (m: Network)
    requires Valid(n) && |targets| == n.nOutputs
    ensures Valid(m) && SameLayout(n, m)
    ensures m.inputActivations == n.inputActivations && m.hiddenActivations == n.hiddenActivations
    ensures m.outputActivations == n.outputActivations
    ensures BiasColumn(m) == BiasColumn(n)
  {
    var od := OutputDeltas(n.outputActivations, targets);
    BiasDeltaIsZero(n, targets);
    var hd := HiddenDeltas(n.hiddenActivations, n.outputWeights, od);
    var mid := UpdateOutputLayer(n, od);
    UpdateInputLayer(mid, hd)
  }

  /** Updated is the two weight loops run one after the other. */
  lemma UpdatedUnfolds(n: Network, targets: seq<real>, od: seq<real>, hd: seq<real>)
    requires Valid(n) && |targets| == n.nOutputs
    requires od == OutputDeltas(n.outputActivations, targets)
    requires hd == HiddenDeltas(n.hiddenActivations, n.outputWeights, od)
    ensures |od| == n.nOutputs && |hd| == n.nHidden && hd[n.nHidden - 1] == 0.0
    ensures Updated(n, targets) == UpdateInputLayer(UpdateOutputLayer(n, od), hd)
  {
    BiasDeltaIsZero(n, targets);
  }

  /** The two weight loops, one after the other, for any deltas: the first
      sets the output weights and the second the input weights, and neither
      touches what the other sets. */
  lemma LayersCompose(n: Network, od: seq<real>, hd: seq<real>, m: Network)
    requires Valid(n) && |od| == n.nOutputs && |hd| == n.nHidden && hd[n.nHidden - 1] == 0.0
    requires m == UpdateInputLayer(UpdateOutputLayer(n, od), hd)
    ensures forall i, j {:trigger m.outputWeights[i][j]} :: 0 <= i < n.nHidden && 0 <= j < n.nOutputs ==>
              && m.outputWeights[i][j] == MomentumUpdate(n.outputWeights[i][j], od[j], n.hiddenActivations[i],
                                                         n.outputChanges[i][j], n.learningRate, n.mFactor)
              && m.outputChanges[i][j] == od[j] * n.hiddenActivations[i]
    ensures forall i, j {:trigger m.inputWeights[i][j]} :: 0 <= i < n.nInputs && 0 <= j < n.nHidden ==>
              && m.inputWeights[i][j] == MomentumUpdate(n.inputWeights[i][j], hd[j], n.inputActivations[i],
                                                        n.inputChanges[i][j], n.learningRate, n.mFactor)
              && m.inputChanges[i][j] == hd[j] * n.inputActivations[i]
  {
  }

  /** Every weight of the updated network m takes one momentum step: a
      hidden-to-output weight with the output delta of its target neuron, an
      input-to-hidden weight with the hidden delta of its target neuron,
      computed from the output weights before the update. Each stored change
      becomes `delta * activation`. */
  lemma UpdatedWeights(n: Network, targets: seq<real>, m: Network, od: seq<real>, hd: seq<real>)
    requires Valid(n) && |targets| == n.nOutputs
    requires m == Updated(n, targets) && od == OutputDeltas(n.outputActivations, targets)
    requires hd == HiddenDeltas(n.hiddenActivations, n.outputWeights, od)
    ensures forall i, j {:trigger m.outputWeights[i][j]} :: 0 <= i < n.nHidden && 0 <= j < n.nOutputs ==>
              && m.outputWeights[i][j] == MomentumUpdate(n.outputWeights[i][j], od[j], n.hiddenActivations[i],
                                                         n.outputChanges[i][j], n.learningRate, n.mFactor)
              && m.outputChanges[i][j] == od[j] * n.hiddenActivations[i]
    ensures forall i, j {:trigger m.inputWeights[i][j]} :: 0 <= i < n.nInputs && 0 <= j < n.nHidden ==>
              && m.inputWeights[i][j] == MomentumUpdate(n.inputWeights[i][j], hd[j], n.inputActivations[i],
                                                        n.inputChanges[i][j], n.learningRate, n.mFactor)
              && m.inputChanges[i][j] == hd[j] * n.inputActivations[i]
  {
    UpdatedUnfolds(n, targets, od, hd);
    LayersCompose(n, od, hd, m);
  }

  /** Computes the deltas, updates both weight matrices (see Updated), and
      returns Σ 0.5 * (t - o)² over the current outputs. Panics when the
      targets do not have `NOutputs` entries. */
  function BackPropagate(n: Network, targets: seq<real>): (r: Result<(Network, real)>)
    requires Valid(n)
    ensures r.Ok? <==> |targets| == n.nOutputs
    ensures r.Fail? ==> r.failure == OutputSizeMismatch
    ensures r.Ok? ==> r.value.0 == Updated(n, targets)
    ensures r.Ok? ==> Valid(r.value.0) && SameLayout(n, r.value.0) && BiasColumn(r.value.0) == BiasColumn(n)
    ensures r.Ok? ==> r.value.1 == 0.5 * SquareSum(targets, n.outputActivations) && r.value.1 >= 0.0
  {
    if |targets| != n.nOutputs then Fail(OutputSizeMismatch)
    else
      HalfSquareTermsIsHalfSquareSum(targets, n.outputActivations);
      SquareSumNonNegative(targets, n.outputActivations);
      Ok((Updated(n, targets), HalfSquareTerms(targets, n.outputActivations)))
  }

  // ---------------------------------------------------------------- training

  /** The example's widths match the network's non-bias input and output
      layers. */
  ghost predicate Fits(n: Network, e: Example) {
    |e.input| == n.nInputs - 1 && |e.output| == n.nOutputs
  }

  ghost predicate AllFit(n: Network, examples: seq<Example>) {
    forall i :: 0 <= i < |examples| ==> Fits(n, examples[i])
  }

  /** `examples[i]` is the first example that does not fit. */
  ghost predicate FirstUnfit(n: Network, examples: seq<Example>, i: int) {
    && 0 <= i < |examples|
    && (forall j :: 0 <= j < i ==> Fits(n, examples[j]))
    && !Fits(n, examples[i])
  }

  /** The panic TrainNetwork raises for an example that does not fit. */
  function TrainFailure(n: Network, e: Example): Failure {
    if |e.input| != n.nInputs - 1 then InputSizeMismatch else OutputSizeMismatch
  }

  /** One example of an epoch: ForwardPropagate on its input, then
      BackPropagate on its output. */
  function TrainStep(n: Network, exp: real -> real, e: Example): (r: Result<(Network, real)>)
    requires Valid(n) && ActivationFunctions.PositiveExp(exp)
    ensures r.Ok? <==> Fits(n, e)
    ensures r.Fail? ==> r.failure == TrainFailure(n, e)
    ensures r.Ok? ==> Valid(r.value.0) && SameLayout(n, r.value.0) && r.value.1 >= 0.0
  {
    var fwd :- ForwardPropagate(n, exp, e.input);
    BackPropagate(fwd.0, e.output)
  }

  lemma StepKeepsBias(n: Network, exp: real -> real, e: Example)
    requires Valid(n) && ActivationFunctions.PositiveExp(exp) && Fits(n, e)
    ensures BiasColumn(TrainStep(n, exp, e).value.0) == BiasColumn(n)
  {
    var fwd := ForwardPropagate(n, exp, e.input).value;
    assert BiasColumn(fwd.0) == BiasColumn(n);
  }

  /** The networks an epoch runs on when training starts from `n`. */
  ghost function Trained(n: Network): Network -> bool {
    m => Valid(m) && SameLayout(n, m) && BiasColumn(m) == BiasColumn(n)
  }

  ghost function FitsOf(n: Network): Example -> bool {
    e => Fits(n, e)
  }

  ghost function TrainFailureOf(n: Network): Example -> Failure {
    e => TrainFailure(n, e)
  }

  /** TrainStep as the step of a training pass. */
  function TrainStepOf(exp: real -> real): (Network, Example) --> Result<(Network, real)> {
    (m, e) requires Valid(m) && ActivationFunctions.PositiveExp(exp) => TrainStep(m, exp, e)
  }

  /** What the passes of TrainNetwork rely on: from `n` on, a step keeps the
      layout and the bias weights, and it panics exactly on the examples that
      do not fit `n`, with TrainFailure. */
  lemma TrainStepLaws(n: Network, exp: real -> real)
    requires Valid(n) && ActivationFunctions.PositiveExp(exp)
    ensures Passes.Keeps(TrainStepOf(exp), Trained(n))
    ensures Passes.Decides(TrainStepOf(exp), Trained(n), FitsOf(n), TrainFailureOf(n))
  {
    forall m, e | Trained(n)(m)
      ensures TrainStepOf(exp).requires(m, e)
      ensures TrainStepOf(exp)(m, e).Ok? ==> Trained(n)(TrainStepOf(exp)(m, e).value.0) && TrainStepOf(exp)(m, e).value.1 >= 0.0
    {
      if Fits(m, e) {
        StepKeepsBias(m, exp, e);
      }
    }
  }

  /** TrainNetwork: `Epochs` passes of TrainStep over the examples, one
      accuracy `1 - epochError / len(examples)` per pass. */
  method TrainNetwork(n: Network, exp: real -> real, examples: seq<Example>) returns (r: Result<(Network, seq<Float>)>)
    requires Valid(n) && ActivationFunctions.PositiveExp(exp)
    ensures Passes.Keeps(TrainStepOf(exp), Trained(n))
    ensures r == Passes.Train(TrainStepOf(exp), Trained(n), n, examples, 1.0, n.epochs)
    ensures r.Ok? <==> n.epochs == 0 || AllFit(n, examples)
    ensures r.Fail? ==> exists i :: FirstUnfit(n, examples, i) && r.failure == TrainFailure(n, examples[i])
    ensures r.Ok? ==> Valid(r.value.0) && SameLayout(n, r.value.0) && |r.value.1| == n.epochs
    ensures r.Ok? ==> forall i :: 0 <= i < n.nInputs ==> r.value.0.inputWeights[i][n.nHidden - 1] == n.inputWeights[i][n.nHidden - 1]
    ensures r.Ok? ==> forall t :: 0 <= t < |r.value.1| ==> (r.value.1[t].Finite? <==> |examples| > 0)
    ensures r.Ok? ==> forall t :: 0 <= t < |r.value.1| && r.value.1[t].Finite? ==> r.value.1[t].value <= 1.0
  {
    TrainStepLaws(n, exp);
    r := Passes.RunTraining(TrainStepOf(exp), Trained(n), n, examples, 1.0, n.epochs);
    Passes.TrainOutcome(TrainStepOf(exp), Trained(n), FitsOf(n), TrainFailureOf(n), n, examples, 1.0, n.epochs);
    if r.Ok? {
      BiasEntries(n, r.value.0);
    } else {
      ghost var i :| Passes.FirstFailing(FitsOf(n), examples, i) && r.failure == TrainFailureOf(n)(examples[i]);
      assert FirstUnfit(n, examples, i);
    }
  }

  /** The bias column read entry by entry. */
  lemma BiasEntries(n: Network, m: Network)
    requires Valid(n) && Valid(m) && SameLayout(n, m) && BiasColumn(m) == BiasColumn(n)
    ensures forall i :: 0 <= i < n.nInputs ==> m.inputWeights[i][n.nHidden - 1] == n.inputWeights[i][n.nHidden - 1]
  {
    forall i | 0 <= i < n.nInputs ensures m.inputWeights[i][n.nHidden - 1] == n.inputWeights[i][n.nHidden - 1] {
      assert BiasColumn(m)[i] == BiasColumn(n)[i];
    }
  }

  // ---------------------------------------------------------------- evaluation

  /** The panic EvaluateNetwork raises for an example that does not fit. */
  function EvalFailure(n: Network, e: Example): Failure {
    if |e.input| != n.nInputs - 1 then InputSizeMismatch else LengthMismatch
  }

  /** SquaredError of an example's output against the prediction for its
      input (0 for an example that does not fit). */
  ghost function ErrorOf(n: Network, exp: real -> real): Example -> real
    requires Valid(n) && ActivationFunctions.PositiveExp(exp)
  {
    e => if Fits(n, e) then 0.5 * SquareSum(e.output, Predict(n, exp, e.input)) else 0.0
  }

  /** One example of EvaluateNetwork: ForwardPropagate on its input, then
      SquaredError of its output against the network's output. */
  function EvalStep(n: Network, exp: real -> real, e: Example): (r: Result<(Network, real)>)
    requires Valid(n) && ActivationFunctions.PositiveExp(exp)
    ensures r.Ok? <==> Fits(n, e)
    ensures r.Fail? ==> r.failure == EvalFailure(n, e)
    ensures r.Ok? ==> var m := r.value.0;
                      && Valid(m) && SameLayout(n, m)
                      && m.inputWeights == n.inputWeights && m.outputWeights == n.outputWeights
                      && m.inputChanges == n.inputChanges && m.outputChanges == n.outputChanges
    ensures r.Ok? ==> r.value.1 == ErrorOf(n, exp)(e) && r.value.1 >= 0.0
  {
    var fwd :- ForwardPropagate(n, exp, e.input);
    ForwardIsPredict(n, exp, e.input);
    var err :- SquaredError(e.output, fwd.1);
    Ok((fwd.0, err))
  }

  /** The networks an evaluation pass runs on when it starts from `n`: only
      the activations differ. */
  ghost function Evaluated(n: Network): Network -> bool {
    m => && Valid(m) && SameLayout(n, m)
         && m.inputWeights == n.inputWeights && m.outputWeights == n.outputWeights
         && m.inputChanges == n.inputChanges && m.outputChanges == n.outputChanges
  }

  ghost function EvalFailureOf(n: Network): Example -> Failure {
    e => EvalFailure(n, e)
  }

  function EvalStepOf(exp: real -> real): (Network, Example) --> Result<(Network, real)> {
    (m, e) requires Valid(m) && ActivationFunctions.PositiveExp(exp) => EvalStep(m, exp, e)
  }

  /** The prediction, and so the error, depends only on the weights. */
  lemma ErrorOfWeights(n: Network, m: Network, exp: real -> real, e: Example)
    requires Valid(n) && ActivationFunctions.PositiveExp(exp) && Evaluated(n)(m)
    ensures ErrorOf(m, exp)(e) == ErrorOf(n, exp)(e)
  {
  }

  /** What the evaluation pass relies on: from `n` on, a step changes only
      the activations, panics exactly on the examples that do not fit `n`,
      and costs the example's error under `n`'s weights. */
  lemma EvalStepLaws(n: Network, exp: real -> real)
    requires Valid(n) && ActivationFunctions.PositiveExp(exp)
    ensures Passes.Keeps(EvalStepOf(exp), Evaluated(n))
    ensures Passes.Decides(EvalStepOf(exp), Evaluated(n), FitsOf(n), EvalFailureOf(n))
    ensures Passes.Costs(EvalStepOf(exp), Evaluated(n), ErrorOf(n, exp))
  {
    forall m, e | Evaluated(n)(m)
      ensures EvalStepOf(exp).requires(m, e)
      ensures EvalStepOf(exp)(m, e).Ok? ==> EvalStepOf(exp)(m, e).value.1 == ErrorOf(n, exp)(e)
    {
      ErrorOfWeights(n, m, exp, e);
    }
  }

  /** Σ SquaredError(output, prediction) over the examples, in order: the
      reference for EvaluateNetwork's sum. */
  ghost function TotalError(n: Network, exp: real -> real, examples: seq<Example>): real
    requires Valid(n) && ActivationFunctions.PositiveExp(exp)
  {
    Passes.Total(ErrorOf(n, exp), examples)
  }

  /** EvaluateNetwork: ForwardPropagate and SquaredError per example, then the
      mean error; NaN for no examples. Only the activations change. */
  method EvaluateNetwork(n: Network, exp: real -> real, examples: seq<Example>) returns (r: Result<(Network, Float)>)
    requires Valid(n) && ActivationFunctions.PositiveExp(exp)
    ensures r.Ok? <==> AllFit(n, examples)
    ensures r.Fail? ==> exists i :: FirstUnfit(n, examples, i) && r.failure == EvalFailure(n, examples[i])
    ensures r.Ok? ==> Evaluated(n)(r.value.0)
    ensures r.Ok? ==> TotalError(n, exp, examples) >= 0.0 && r.value.1 == Quotient(TotalError(n, exp, examples), |examples|)
    ensures r.Ok? ==> (r.value.1.Finite? <==> |examples| > 0)
    ensures r.Ok? && r.value.1.Finite? ==> r.value.1.value >= 0.0
  {
    EvalStepLaws(n, exp);
    var pass := Passes.RunPass(EvalStepOf(exp), Evaluated(n), n, examples);
    Passes.PassOutcome(EvalStepOf(exp), Evaluated(n), FitsOf(n), EvalFailureOf(n), n, examples);
    if pass.Fail? {
      ghost var i :| Passes.FirstFailing(FitsOf(n), examples, i) && pass.failure == EvalFailureOf(n)(examples[i]);
      assert FirstUnfit(n, examples, i);
      return Fail(pass.failure);
    }
    Passes.PassCost(EvalStepOf(exp), Evaluated(n), ErrorOf(n, exp), n, examples);
    if |examples| == 0 {
      assert TotalError(n, exp, examples) == 0.0;
    }
    return Ok((pass.value.0, Quotient(pass.value.1, |examples|)));
  }

  /** A second evaluation after the first scores the same: the error sum
      depends only on the weights, which evaluation leaves alone. */
  lemma EvaluationRepeatable(n: Network, m: Network, exp: real -> real, examples: seq<Example>)
    requires Valid(n) && ActivationFunctions.PositiveExp(exp) && Evaluated(n)(m)
    ensures AllFit(m, examples) <==> AllFit(n, examples)
    ensures TotalError(m, exp, examples) == TotalError(n, exp, examples)
  {
    forall i | 0 <= i < |examples| ensures ErrorOf(m, exp)(examples[i]) == ErrorOf(n, exp)(examples[i]) {
      ErrorOfWeights(n, m, exp, examples[i]);
    }
    Passes.TotalCongruent(ErrorOf(m, exp), ErrorOf(n, exp), examples);
  }

  /** A network that predicts every example exactly has error 0. */
  lemma ExactPredictionsHaveNoError(n: Network, exp: real -> real, examples: seq<Example>)
    requires Valid(n) && ActivationFunctions.PositiveExp(exp) && AllFit(n, examples)
    requires forall i :: 0 <= i < |examples| ==> Predict(n, exp, examples[i].input) == examples[i].output
    ensures TotalError(n, exp, examples) == 0.0
  {
    forall i | 0 <= i < |examples| ensures ErrorOf(n, exp)(examples[i]) == 0.0 {
      SquareSumOfEqual(examples[i].output);
    }
    Passes.TotalOfZeros(ErrorOf(n, exp), examples);
  }
}
