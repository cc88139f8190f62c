/** nn/Network.go: a fully connected network of arbitrary depth with a
    pluggable activation function, trained by online backpropagation with
    momentum.

    The Go struct is mutated in place by its methods; here every method is a
    function from the old record to the new one. `Weights[l][j][k]` is the
    weight from neuron k of layer l to neuron j of layer l+1, `Deltas[l]` holds
    the error signals of layer l+1, and `Changes[l]` holds one momentum value
    per neuron of layer l. `Changes[0]` and `Activations[0]` are one and the
    same Go slice; the model keeps them equal, writing both whenever the code
    writes one. */
module DeepNetwork {
  import opened Outcome
  import opened Vectors
  import opened Utilities
  import Passes

  datatype ConnectedNetwork = ConnectedNetwork(
    structure: seq<nat>,
    weights: seq<seq<seq<real>>>,
    activations: seq<seq<real>>,
    deltas: seq<seq<real>>,
    changes: seq<seq<real>>,
    learningRate: real,
    momentumFactor: real,
    epochCount: nat,
    activation: real -> real,
    derivative: real -> real)

  /** The shapes InitializeNewNetwork creates and every method keeps. */
  ghost predicate WellShaped(n: ConnectedNetwork) {
    var s := n.structure;
    && |s| >= 1
    && |n.weights| == |s| - 1
    && |n.activations| == |s|
    && |n.deltas| == |s| - 1
    && |n.changes| == |s|
    && (forall l :: 0 <= l < |n.weights| ==> IsMatrix(n.weights[l], s[l + 1], s[l]))
    && (forall l :: 0 <= l < |n.activations| ==> |n.activations[l]| == s[l])
    && (forall l :: 0 <= l < |n.deltas| ==> |n.deltas[l]| == s[l + 1])
    && (forall l :: 0 <= l < |n.changes| ==> |n.changes[l]| == s[l])
    && n.changes[0] == n.activations[0]
  }

  /** Same structure, hyper-parameters and activation pair. */
  ghost predicate SameSetup(n: ConnectedNetwork, m: ConnectedNetwork) {
    && m.structure == n.structure
    && m.learningRate == n.learningRate
    && m.momentumFactor == n.momentumFactor
    && m.epochCount == n.epochCount
    && m.activation == n.activation
    && m.derivative == n.derivative
  }

  /** The example's vectors have the widths of the input and output layers. */
  ghost predicate Fits(n: ConnectedNetwork, e: Example)
    requires |n.structure| >= 1
  {
    |e.input| == n.structure[0] && |e.output| == n.structure[|n.structure| - 1]
  }

  /** `CreateVector(i, fill)` as written: the fill loop `for i := 0; i < i; i++`
      compares the loop variable with itself, never runs, and leaves the zeros
      of `make([]float64, i)`. */
  function CreateVector(i: nat, fill: real): (v: seq<real>)
    ensures |v| == i
    ensures forall k :: 0 <= k < i ==> v[k] == 0.0
  {
    Zeros(i)
  }

  /** The result does not depend on `fill`. */
  lemma CreateVectorIgnoresFill(i: nat, a: real, b: real)
    ensures CreateVector(i, a) == CreateVector(i, b)
  {
  }

  /** A network with all activations, deltas and changes zero and weight
      `draw(l, j, k)` at `Weights[l][j][k]`; `draw` stands for the successive
      `rand.Float64()` values. An empty structure panics on `structure[0]`. */
  function InitializeNewNetwork(structure: seq<nat>, learningRate: real, momentumFactor: real, epochCount: nat,
                                activation: real -> real, derivative: real -> real,
                                draw: (nat, nat, nat) -> real): (r: Result<ConnectedNetwork>)
    ensures r.Ok? <==> |structure| > 0
    ensures r.Fail? ==> r.failure == IndexOutOfRange
    ensures r.Ok? ==>
              var n := r.value;
              && WellShaped(n)
              && n.structure == structure
              && n.learningRate == learningRate && n.momentumFactor == momentumFactor
              && n.epochCount == epochCount
              && n.activation == activation && n.derivative == derivative
              && (forall l, j, k :: 0 <= l < |n.weights| && 0 <= j < |n.weights[l]| && 0 <= k < |n.weights[l][j]| ==>
                                    n.weights[l][j][k] == draw(l, j, k))
              && (forall l, j :: 0 <= l < |n.activations| && 0 <= j < |n.activations[l]| ==> n.activations[l][j] == 0.0)
              && (forall l, j :: 0 <= l < |n.deltas| && 0 <= j < |n.deltas[l]| ==> n.deltas[l][j] == 0.0)
              && (forall l, j :: 0 <= l < |n.changes| && 0 <= j < |n.changes[l]| ==> n.changes[l][j] == 0.0)
  {
    if |structure| == 0 then Fail(IndexOutOfRange)
    else
      var input := Zeros(structure[0]);
      var upper := UpperZeros(structure);
      var n := ConnectedNetwork(structure, DrawnLayers(structure, draw), [input] + upper, upper, [input] + upper,
                                learningRate, momentumFactor, epochCount, activation, derivative);
      assert forall l :: 0 < l < |structure| ==> n.activations[l] == upper[l - 1];
      Ok(n)
  }

  /** One zero vector per layer above the input layer. */
  function UpperZeros(s: seq<nat>): (z: seq<seq<real>>)
    requires |s| > 0
    ensures |z| == |s| - 1
    ensures forall l :: 0 <= l < |z| ==> |z[l]| == s[l + 1]
    ensures forall l, j :: 0 <= l < |z| && 0 <= j < |z[l]| ==> z[l][j] == 0.0
  {
    seq(|s| - 1, l requires 0 <= l < |s| - 1 => CreateVector(s[l + 1], 0.0))
  }

  /** With draws from [0, 1), as `rand.Float64()` returns, every initial weight
      lies in [0, 1). */
  lemma InitialWeightsInRange(structure: seq<nat>, learningRate: real, momentumFactor: real, epochCount: nat,
                              activation: real -> real, derivative: real -> real, draw: (nat, nat, nat) -> real)
    requires |structure| > 0
    requires forall l, j, k :: 0.0 <= draw(l, j, k) < 1.0
    ensures var n := InitializeNewNetwork(structure, learningRate, momentumFactor, epochCount, activation, derivative, draw).value;
            forall l, j, k :: 0 <= l < |n.weights| && 0 <= j < |n.weights[l]| && 0 <= k < |n.weights[l][j]| ==>
                                0.0 <= n.weights[l][j][k] < 1.0
  {
  }

  // ---------------------------------------------------------------- forward

  /** Row lengths of each weight matrix match the width of the layer below. */
  ghost predicate Chained(weights: seq<seq<seq<real>>>, width: nat) {
    forall l, j :: 0 <= l < |weights| && 0 <= j < |weights[l]| ==>
                     |weights[l][j]| == (if l == 0 then width else |weights[l - 1]|)
  }

  /** One layer: neuron j takes f(Σ_k x[k] * w[j][k]). */
  function Layer(f: real -> real, w: seq<seq<real>>, x: seq<real>): (y: seq<real>)
    requires forall j :: 0 <= j < |w| ==> |w[j]| == |x|
    ensures |y| == |w|
    ensures forall j :: 0 <= j < |w| ==> y[j] == f(Dot(x, w[j]))
  {
    seq(|w|, j requires 0 <= j < |w| => f(Dot(x, w[j])))
  }

  /** The activations of every layer for input `x`, input layer first. */
  function Feed(f: real -> real, weights: seq<seq<seq<real>>>, x: seq<real>): (acts: seq<seq<real>>)
    requires Chained(weights, |x|)
    ensures |acts| == |weights| + 1 && acts[0] == x
    ensures forall l :: 0 <= l < |weights| ==> |acts[l + 1]| == |weights[l]|
    ensures forall l, j :: 0 <= l < |weights| && 0 <= j < |weights[l]| ==>
                             acts[l + 1][j] == f(Dot(acts[l], weights[l][j]))
    decreases |weights|
  {
    if |weights| == 0 then [x]
    else
      var y := Layer(f, weights[0], x);
      var rest := Feed(f, weights[1..], y);
      assert forall l :: 0 < l <= |weights| ==> ([x] + rest)[l] == rest[l - 1];
      [x] + rest
  }

  lemma WellShapedIsChained(n: ConnectedNetwork)
    requires WellShaped(n)
    ensures Chained(n.weights, n.structure[0])
  {
    forall l, j | 0 <= l < |n.weights| && 0 <= j < |n.weights[l]|
      ensures |n.weights[l][j]| == (if l == 0 then n.structure[0] else |n.weights[l - 1]|)
    {
      assert IsMatrix(n.weights[l], n.structure[l + 1], n.structure[l]);
      if l > 0 {
        assert IsMatrix(n.weights[l - 1], n.structure[l], n.structure[l - 1]);
      }
    }
  }

  /** Fills every activation layer from `input` and returns the output layer.
      Panics when the input width differs from the input layer. */
  function ForwardPropagateInput(n: ConnectedNetwork, input: seq<real>): (r: Result<(ConnectedNetwork, seq<real>)>)
    requires WellShaped(n)
    ensures r.Ok? <==> |input| == n.structure[0]
    ensures r.Fail? ==> r.failure == InputSizeMismatch
    ensures r.Ok? ==>
              var (m, output) := r.value;
              && WellShaped(m) && SameSetup(n, m)
              && m.weights == n.weights && m.deltas == n.deltas && m.changes[1..] == n.changes[1..]
              && m.activations[0] == input && m.changes[0] == input
              && output == m.activations[|m.activations| - 1]
    ensures r.Ok? ==> Chained(n.weights, |input|)
    ensures r.Ok? ==> r.value.0.activations == Feed(n.activation, n.weights, input)
  {
    if |input| != n.structure[0] then Fail(InputSizeMismatch)
    else
      WellShapedIsChained(n);
      var acts := Feed(n.activation, n.weights, input);
      FedWellShaped(n, input);
      Ok((n.(activations := acts, changes := [input] + n.changes[1..]), acts[|acts| - 1]))
  }

  /** Storing the activations of a forward pass keeps the shapes. */
  lemma FedWellShaped(n: ConnectedNetwork, input: seq<real>)
    requires WellShaped(n) && |input| == n.structure[0] && Chained(n.weights, |input|)
    ensures WellShaped(n.(activations := Feed(n.activation, n.weights, input), changes := [input] + n.changes[1..]))
  {
    var acts := Feed(n.activation, n.weights, input);
    forall l | 0 < l < |acts| ensures |acts[l]| == n.structure[l] {
      assert IsMatrix(n.weights[l - 1], n.structure[l], n.structure[l - 1]);
    }
    var changes := [input] + n.changes[1..];
    assert forall l :: 0 < l < |changes| ==> changes[l] == n.changes[l];
  }

  // ---------------------------------------------------------------- deltas

  /** Output layer: df(a[i]) * (target[i] - a[i]). */
  function OutputDeltas(df: real -> real, out: seq<real>, target: seq<real>): (d: seq<real>)
    requires |out| == |target|
    ensures |d| == |out|
    ensures forall i :: 0 <= i < |out| ==> d[i] == df(out[i]) * (target[i] - out[i])
  {
    seq(|out|, i requires 0 <= i < |out| => df(out[i]) * (target[i] - out[i]))
  }

  /** Hidden layer: neuron i takes df(a[i]) * Σ_j above[j] * w[j][i]. */
  function PullBack(df: real -> real, a: seq<real>, above: seq<real>, w: seq<seq<real>>): (d: seq<real>)
    requires |w| == |above|
    ensures |d| == |a|
  {
    seq(|a|, i requires 0 <= i < |a| => PulledBack(df, a[i], above, w, i))
  }

  /** The delta of hidden neuron i with activation x. */
  function PulledBack(df: real -> real, x: real, above: seq<real>, w: seq<seq<real>>, i: nat): real
    requires |w| == |above|
  {
    df(x) * Dot(above, Column(w, i))
  }

  /** A weight stack whose matrices connect consecutive activation layers. */
  ghost predicate Stacked(weights: seq<seq<seq<real>>>, acts: seq<seq<real>>) {
    && |acts| == |weights| + 1
    && (forall l :: 0 <= l < |weights| ==> |weights[l]| == |acts[l + 1]|)
    && (forall l, k :: 0 <= l < |weights| && 0 <= k < |weights[l]| ==> |weights[l][k]| == |acts[l]|)
  }

  /** `ds` holds the deltas of layers d + 1 on, and each of them is pulled
      back from the one after it through the weights between the two. */
  ghost predicate PulledChain(df: real -> real, weights: seq<seq<seq<real>>>, acts: seq<seq<real>>, ds: seq<seq<real>>, d: nat)
    decreases |ds|
  {
    |ds| <= 1
    || (&& d + 1 < |weights| && d + 1 < |acts|
        && |weights[d + 1]| == |ds[1]|
        && ds[0] == PullBack(df, acts[d + 1], ds[1], weights[d + 1])
        && PulledChain(df, weights, acts, ds[1..], d + 1))
  }

  /** Entry k of a chain is pulled back from entry k + 1. */
  lemma {:induction false} PulledChainEntry(df: real -> real, weights: seq<seq<seq<real>>>, acts: seq<seq<real>>, ds: seq<seq<real>>, d: nat, k: nat)
    requires PulledChain(df, weights, acts, ds, d)
    requires k + 1 < |ds|
    ensures d + k + 1 < |weights| && d + k + 1 < |acts| && |weights[d + k + 1]| == |ds[k + 1]|
    ensures ds[k] == PullBack(df, acts[d + k + 1], ds[k + 1], weights[d + k + 1])
  {
    if k > 0 {
      PulledChainEntry(df, weights, acts, ds[1..], d + 1, k - 1);
      assert ds[1..][k - 1] == ds[k] && ds[1..][k] == ds[k + 1];
    }
  }

  /** `Deltas[d..]`: the output layer's deltas are computed first and each
      hidden layer's from the finished layer above it. Entry t of the result
      is `Deltas[d + t]`, the deltas of layer d + t + 1. */
  function DeltasFrom(df: real -> real, weights: seq<seq<seq<real>>>, acts: seq<seq<real>>, target: seq<real>, d: nat): (ds: seq<seq<real>>)
    requires Stacked(weights, acts)
    requires d < |weights|
    requires |target| == |acts[|weights|]|
    ensures |ds| == |weights| - d
    ensures forall t :: 0 <= t < |ds| ==> |ds[t]| == |acts[d + t + 1]|
    ensures ds[|ds| - 1] == OutputDeltas(df, acts[|weights|], target)
    ensures PulledChain(df, weights, acts, ds, d)
    decreases |weights| - d
  {
    if d == |weights| - 1 then [OutputDeltas(df, acts[|weights|], target)]
    else
      var above := DeltasFrom(df, weights, acts, target, d + 1);
      var ds := [PullBack(df, acts[d + 1], above[0], weights[d + 1])] + above;
      assert ds[1..] == above;
      assert forall t :: 0 < t < |ds| ==> ds[t] == above[t - 1];
      ds
  }

  /** `deltas` are the deltas of a network with these weights and
      activations for this target: the output layer's from the target, each
      hidden layer's pulled back from the layer above. */
  ghost predicate DeltasMatch(df: real -> real, weights: seq<seq<seq<real>>>, acts: seq<seq<real>>, deltas: seq<seq<real>>, target: seq<real>) {
    && Stacked(weights, acts)
    && |weights| >= 1
    && |deltas| == |weights|
    && (forall t :: 0 <= t < |deltas| ==> |deltas[t]| == |acts[t + 1]|)
    && |target| == |acts[|weights|]|
    && deltas[|deltas| - 1] == OutputDeltas(df, acts[|weights|], target)
    && PulledChain(df, weights, acts, deltas, 0)
  }

  /** Output neuron i has delta df(a) * (target[i] - a) for its activation a. */
  lemma OutputDeltaEntry(df: real -> real, weights: seq<seq<seq<real>>>, acts: seq<seq<real>>, deltas: seq<seq<real>>,
                         target: seq<real>, i: nat)
    requires DeltasMatch(df, weights, acts, deltas, target)
    requires i < |target|
    ensures deltas[|deltas| - 1][i] == df(acts[|weights|][i]) * (target[i] - acts[|weights|][i])
  {
    var od := OutputDeltas(df, acts[|weights|], target);
    assert deltas[|deltas| - 1] == od;
  }

  /** Hidden neuron i of layer d + 1 has delta
      df(a) * Σ_j deltas[d + 1][j] * weights[d + 1][j][i] for its activation a. */
  lemma HiddenDeltaEntry(df: real -> real, weights: seq<seq<seq<real>>>, acts: seq<seq<real>>, deltas: seq<seq<real>>,
                         target: seq<real>, d: nat, i: nat)
    requires DeltasMatch(df, weights, acts, deltas, target)
    requires d < |deltas| - 1 && i < |deltas[d]|
    ensures deltas[d][i] == PulledBack(df, acts[d + 1][i], deltas[d + 1], weights[d + 1], i)
  {
    PulledChainEntry(df, weights, acts, deltas, 0, d);
    PullBackEntry(df, acts[d + 1], deltas[d + 1], weights[d + 1], deltas[d], i);
  }

  lemma PullBackEntry(df: real -> real, a: seq<real>, above: seq<real>, w: seq<seq<real>>, row: seq<real>, i: nat)
    requires |w| == |above| && i < |a|
    requires row == PullBack(df, a, above, w)
    ensures row[i] == PulledBack(df, a[i], above, w, i)
  {
  }

  /** All of the deltas, computed from layer 0 up, satisfy DeltasMatch. */
  lemma DeltasFromMatch(df: real -> real, weights: seq<seq<seq<real>>>, acts: seq<seq<real>>, target: seq<real>)
    requires Stacked(weights, acts) && |weights| >= 1 && |target| == |acts[|weights|]|
    ensures DeltasMatch(df, weights, acts, DeltasFrom(df, weights, acts, target, 0), target)
  {
    var ds := DeltasFrom(df, weights, acts, target, 0);
    assert forall t :: 0 <= t < |ds| ==> |ds[t]| == |acts[0 + t + 1]|;
  }

  lemma WellShapedIsStacked(n: ConnectedNetwork)
    requires WellShaped(n)
    ensures Stacked(n.weights, n.activations)
  {
    forall l, k | 0 <= l < |n.weights| && 0 <= k < |n.weights[l]|
      ensures |n.weights[l][k]| == |n.activations[l]|
    {
      assert IsMatrix(n.weights[l], n.structure[l + 1], n.structure[l]);
    }
  }

  /** Replacing the deltas by vectors of the same widths keeps the shapes. */
  lemma WithDeltasWellShaped(n: ConnectedNetwork, ds: seq<seq<real>>)
    requires WellShaped(n)
    requires |ds| == |n.deltas|
    requires forall t :: 0 <= t < |ds| ==> |ds[t]| == |n.activations[t + 1]|
    ensures WellShaped(n.(deltas := ds))
  {
  }

  /** Refreshes the activations for the example's input, then computes the
      deltas of every layer. Both size checks come before any state change; a
      single-layer network has no deltas and panics on `Deltas[-1]`. */
  function CalculateDeltas(n: ConnectedNetwork, example: Example): (r: Result<ConnectedNetwork>)
    requires WellShaped(n)
    ensures r.Ok? <==> Fits(n, example) && |n.structure| >= 2
    ensures |example.input| != n.structure[0] ==> r.Fail? && r.failure == InputSizeMismatch
    ensures |example.input| == n.structure[0] && |example.output| != n.structure[|n.structure| - 1] ==>
              r.Fail? && r.failure == OutputSizeMismatch
    ensures Fits(n, example) && |n.structure| == 1 ==> r.Fail? && r.failure == IndexOutOfRange
    ensures r.Ok? ==>
              var m := r.value;
              && WellShaped(m) && SameSetup(n, m)
              && m.weights == n.weights && m.changes[1..] == n.changes[1..]
              && m.activations == ForwardPropagateInput(n, example.input).value.0.activations
              && DeltasMatch(n.derivative, m.weights, m.activations, m.deltas, example.output)
  {
    if n.structure[0] != |example.input| then Fail(InputSizeMismatch)
    else if n.structure[|n.structure| - 1] != |example.output| then Fail(OutputSizeMismatch)
    else
      var m := ForwardPropagateInput(n, example.input).value.0;
      if |n.structure| == 1 then Fail(IndexOutOfRange)
      else
        WellShapedIsStacked(m);
        var ds := DeltasFrom(n.derivative, m.weights, m.activations, example.output, 0);
        DeltasFromMatch(n.derivative, m.weights, m.activations, example.output);
        WithDeltasWellShaped(m, ds);
        Ok(m.(deltas := ds))
  }

  // ---------------------------------------------------------------- update

  /** The closed form of one weight's update in BackPropagate. Row k gains
      lr * d[k] * a plus momentum times the source neuron's stored change;
      that change is `c0` for k = 0 and, because it is overwritten for every
      k, the change made to row k - 1 of the same call otherwise. */
  function MomentumStep(w: real, d: seq<real>, a: real, c0: real, lr: real, mf: real, k: nat): real
    requires k < |d|
  {
    w + lr * (d[k] * a) + mf * (if k == 0 then c0 else d[k - 1] * a)
  }

  /** A source neuron's stored change after its rows are swept: the change of
      the last row, or the old value when there are no rows. */
  function LastChange(d: seq<real>, a: real, c0: real): real {
    if |d| == 0 then c0 else d[|d| - 1] * a
  }

  /** The innermost Go loop (over k) for one source neuron j with activation
      a, carrying the stored change c from row to row. */
  function SweepRows(w: seq<seq<real>>, d: seq<real>, a: real, j: nat, c: real, lr: real, mf: real, k: nat): (res: (seq<seq<real>>, real))
    requires |d| == |w| && k <= |w|
    requires forall r :: 0 <= r < |w| ==> j < |w[r]|
    ensures |res.0| == |w| && forall r :: 0 <= r < |w| ==> |res.0[r]| == |w[r]|
    ensures forall r, y :: 0 <= r < |w| && 0 <= y < |w[r]| ==>
                             res.0[r][y] == (if y != j || r < k then w[r][y]
                                             else w[r][y] + lr * (d[r] * a) + mf * (if r == k then c else d[r - 1] * a))
    ensures res.1 == (if k == |w| then c else d[|w| - 1] * a)
    decreases |w| - k
  {
    if k == |w| then (w, c)
    else
      var ch := d[k] * a;
      var w' := w[k := w[k][j := w[k][j] + lr * ch + mf * c]];
      var rest := SweepRows(w', d, a, j, ch, lr, mf, k + 1);
      forall r, y | 0 <= r < |w| && 0 <= y < |w[r]|
        ensures rest.0[r][y] == (if y != j || r < k then w[r][y]
                                 else w[r][y] + lr * (d[r] * a) + mf * (if r == k then c else d[r - 1] * a))
      {
        if r != k {
          assert w'[r] == w[r];
        } else if y != j {
          assert w'[r][y] == w[r][y];
        }
      }
      rest
  }

  /** The middle Go loop (over source neurons j) for one layer. */
  function SweepColumns(w: seq<seq<real>>, d: seq<real>, a: seq<real>, c: seq<real>, lr: real, mf: real, j: nat): (res: (seq<seq<real>>, seq<real>))
    requires IsMatrix(w, |d|, |a|) && |c| == |a| && j <= |a|
    ensures IsMatrix(res.0, |d|, |a|) && |res.1| == |a|
    ensures forall k, y {:trigger res.0[k][y]} :: 0 <= k < |d| && 0 <= y < |a| ==>
                             res.0[k][y] == (if y < j then w[k][y] else MomentumStep(w[k][y], d, a[y], c[y], lr, mf, k))
    ensures forall y :: 0 <= y < |a| ==> res.1[y] == (if y < j then c[y] else LastChange(d, a[y], c[y]))
    decreases |a| - j
  {
    if j == |a| then (w, c)
    else
      var swept := SweepRows(w, d, a[j], j, c[j], lr, mf, 0);
      assert forall k, y :: 0 <= k < |d| && 0 <= y < |a| ==>
                              swept.0[k][y] == (if y == j then MomentumStep(w[k][y], d, a[y], c[y], lr, mf, k) else w[k][y]);
      assert swept.1 == LastChange(d, a[j], c[j]);
      var rest := SweepColumns(swept.0, d, a, c[j := swept.1], lr, mf, j + 1);
      forall k, y | 0 <= k < |d| && 0 <= y < |a|
        ensures rest.0[k][y] == (if y < j then w[k][y] else MomentumStep(w[k][y], d, a[y], c[y], lr, mf, k))
      {
        if y > j {
          assert c[j := swept.1][y] == c[y];
          assert swept.0[k][y] == w[k][y];
        }
      }
      rest
  }

  /** The outer Go loop (over layers i, from i up to the last weight matrix). */
  function SweepLayers(weights: seq<seq<seq<real>>>, deltas: seq<seq<real>>, acts: seq<seq<real>>, changes: seq<seq<real>>,
                       lr: real, mf: real, i: nat): (res: (seq<seq<seq<real>>>, seq<seq<real>>))
    requires Stacked(weights, acts) && |deltas| == |weights| && |changes| == |acts| && i <= |weights|
    requires forall l :: 0 <= l < |deltas| ==> |deltas[l]| == |acts[l + 1]|
    requires forall l :: 0 <= l < |changes| ==> |changes[l]| == |acts[l]|
    ensures Stacked(res.0, acts) && |res.1| == |changes|
    ensures forall l :: 0 <= l < |changes| ==> |res.1[l]| == |acts[l]|
    ensures forall l :: 0 <= l < i ==> res.0[l] == weights[l] && res.1[l] == changes[l]
    ensures res.1[|weights|] == changes[|weights|]
    ensures forall l, k, y {:trigger res.0[l][k][y]} :: i <= l < |weights| && 0 <= k < |deltas[l]| && 0 <= y < |acts[l]| ==>
                                res.0[l][k][y] == MomentumStep(weights[l][k][y], deltas[l], acts[l][y], changes[l][y], lr, mf, k)
    ensures forall l, y {:trigger res.1[l][y]} :: i <= l < |weights| && 0 <= y < |acts[l]| ==>
                             res.1[l][y] == LastChange(deltas[l], acts[l][y], changes[l][y])
    decreases |weights| - i
  {
    if i == |weights| then (weights, changes)
    else
      var swept := SweepColumns(weights[i], deltas[i], acts[i], changes[i], lr, mf, 0);
      SweepLayers(weights[i := swept.0], deltas, acts, changes[i := swept.1], lr, mf, i + 1)
  }

  /** The update loops of BackPropagate on a network whose deltas are
      computed: every weight matrix but the first moves, and each source
      neuron's stored change ends as the change of its last row. */
  function ApplyUpdate(c: ConnectedNetwork): (m: ConnectedNetwork)
    requires WellShaped(c)
    ensures WellShaped(m) && SameSetup(c, m)
    ensures m.activations == c.activations && m.deltas == c.deltas
    ensures |c.weights| > 0 ==> m.weights[0] == c.weights[0]
    ensures m.changes[0] == c.changes[0]
    ensures m.changes[|m.changes| - 1] == c.changes[|c.changes| - 1]
    ensures forall l, k, j {:trigger m.weights[l][k][j]} :: 1 <= l < |c.weights| && 0 <= k < |c.deltas[l]| && 0 <= j < |c.activations[l]| ==>
                                m.weights[l][k][j] == MomentumStep(c.weights[l][k][j], c.deltas[l], c.activations[l][j], c.changes[l][j],
                                                                   c.learningRate, c.momentumFactor, k)
    ensures forall l, j {:trigger m.changes[l][j]} :: 1 <= l < |c.weights| && 0 <= j < |c.activations[l]| ==>
                             m.changes[l][j] == LastChange(c.deltas[l], c.activations[l][j], c.changes[l][j])
  {
    WellShapedIsStacked(c);
    var first := if |c.weights| == 0 then 0 else 1;
    var swept := SweepLayers(c.weights, c.deltas, c.activations, c.changes, c.learningRate, c.momentumFactor, first);
    var m := c.(weights := swept.0, changes := swept.1);
    assert WellShaped(m) by {
      forall l | 0 <= l < |m.weights| ensures IsMatrix(m.weights[l], c.structure[l + 1], c.structure[l]) {
        assert IsMatrix(c.weights[l], c.structure[l + 1], c.structure[l]);
      }
    }
    m
  }

  /** Computes the deltas, applies the update loops, and returns
      Σ 0.5 * (target[i] - output[i])² over the output layer the deltas were
      computed from. */
  function BackPropagate(n: ConnectedNetwork, example: Example): (r: Result<(ConnectedNetwork, real)>)
    requires WellShaped(n)
    ensures r.Ok? <==> Fits(n, example) && |n.structure| >= 2
    ensures r.Fail? ==> CalculateDeltas(n, example).Fail? && r.failure == CalculateDeltas(n, example).failure
    ensures r.Ok? ==> WellShaped(r.value.0) && SameSetup(n, r.value.0)
    ensures r.Ok? ==> r.value.0 == ApplyUpdate(CalculateDeltas(n, example).value)
    ensures r.Ok? ==> var out := r.value.0.activations[|n.structure| - 1];
                      |out| == |example.output| && r.value.1 == HalfSquareTerms(example.output, out)
    ensures r.Ok? ==> r.value.1 >= 0.0
  {
    var c :- CalculateDeltas(n, example);
    var m := ApplyUpdate(c);
    OutputWidth(n, m, example);
    var out := m.activations[|n.structure| - 1];
    HalfSquareTermsIsHalfSquareSum(example.output, out);
    SquareSumNonNegative(example.output, out);
    Ok((m, HalfSquareTerms(example.output, out)))
  }

  /** The output layer of a network with the same structure has the width
      of a fitting example's target. */
  lemma OutputWidth(n: ConnectedNetwork, m: ConnectedNetwork, example: Example)
    requires WellShaped(n) && WellShaped(m) && m.structure == n.structure && Fits(n, example)
    ensures |m.activations[|n.structure| - 1]| == |example.output|
  {
  }

  /** In a two-layer network the update loop `for i := 1; i < 1` never runs:
      training changes no weight at all. */
  lemma TwoLayerWeightsUnchanged(n: ConnectedNetwork, example: Example)
    requires WellShaped(n) && Fits(n, example) && |n.structure| == 2
    ensures BackPropagate(n, example).value.0.weights == n.weights
  {
    var m := BackPropagate(n, example).value.0;
    assert |m.weights| == 1 && m.weights[0] == n.weights[0];
  }

  /** Without momentum the update is the plain delta rule. */
  lemma MomentumFreeIsDeltaRule(w: real, d: seq<real>, a: real, c0: real, lr: real, k: nat)
    requires k < |d|
    ensures MomentumStep(w, d, a, c0, lr, 0.0, k) == w + lr * d[k] * a
  {
  }

  /** CalculateDeltas accepts an example when it fits a network with at least
      one weight matrix. */
  ghost predicate Accepted(s: seq<nat>, e: Example) {
    |s| >= 2 && |e.input| == s[0] && |e.output| == s[|s| - 1]
  }

  /** The panic CalculateDeltas raises for an example it does not accept. */
  function ShapeFailure(s: seq<nat>, e: Example): Failure
    requires |s| >= 1
  {
    if |e.input| != s[0] then InputSizeMismatch
    else if |e.output| != s[|s| - 1] then OutputSizeMismatch
    else IndexOutOfRange
  }

  /** Whether CalculateDeltas panics, and how, depends on the structure and
      the example's widths alone. */
  lemma DeltasFailureIsShapeFailure(n: ConnectedNetwork, example: Example)
    requires WellShaped(n)
    ensures CalculateDeltas(n, example).Ok? <==> Accepted(n.structure, example)
    ensures CalculateDeltas(n, example).Fail? ==> CalculateDeltas(n, example).failure == ShapeFailure(n.structure, example)
  {
  }

  // ---------------------------------------------------------------- training

  /** Every example is one CalculateDeltas accepts. */
  ghost predicate Trainable(n: ConnectedNetwork, examples: seq<Example>) {
    forall i :: 0 <= i < |examples| ==> Accepted(n.structure, examples[i])
  }

  /** `examples[i]` is the first example CalculateDeltas rejects. */
  ghost predicate FirstRejected(s: seq<nat>, examples: seq<Example>, i: int) {
    && 0 <= i < |examples|
    && (forall j :: 0 <= j < i ==> Accepted(s, examples[j]))
    && !Accepted(s, examples[i])
  }

  /** The networks an epoch runs on when training starts from `n`. */
  ghost function Trained(n: ConnectedNetwork): ConnectedNetwork -> bool {
    m => WellShaped(m) && SameSetup(n, m)
  }

  ghost function AcceptedBy(s: seq<nat>): Example -> bool {
    e => Accepted(s, e)
  }

  ghost function ShapeFailureOf(s: seq<nat>): Example -> Failure
    requires |s| >= 1
  {
    e => ShapeFailure(s, e)
  }

  /** BackPropagate as the step of a training pass. */
  function BackPropagateStep(): (ConnectedNetwork, Example) --> Result<(ConnectedNetwork, real)> {
    (m, e) requires WellShaped(m) => BackPropagate(m, e)
  }

  /** What the passes of TrainNetwork rely on: from `n` on, BackPropagate
      keeps the structure and setup, and it panics exactly on the examples
      CalculateDeltas rejects, with ShapeFailure. */
  lemma BackPropagateLaws(n: ConnectedNetwork)
    requires WellShaped(n)
    ensures Passes.Keeps(BackPropagateStep(), Trained(n))
    ensures Passes.Decides(BackPropagateStep(), Trained(n), AcceptedBy(n.structure), ShapeFailureOf(n.structure))
  {
    forall m, e | Trained(n)(m)
      ensures BackPropagateStep()(m, e).Ok? ==> Trained(n)(BackPropagateStep()(m, e).value.0)
    {
      assert BackPropagateStep()(m, e) == BackPropagate(m, e);
    }
    forall m, e | Trained(n)(m)
      ensures BackPropagateStep()(m, e).Ok? <==> AcceptedBy(n.structure)(e)
      ensures BackPropagateStep()(m, e).Fail? ==> BackPropagateStep()(m, e).failure == ShapeFailureOf(n.structure)(e)
    {
      assert BackPropagateStep()(m, e) == BackPropagate(m, e);
      DeltasFailureIsShapeFailure(m, e);
    }
  }

  /** TrainNetwork: `EpochCount` passes of BackPropagate over the examples,
      one accuracy figure `(1 - epochError / len(examples)) * 100` per pass. */
  method TrainNetwork(n: ConnectedNetwork, examples: seq<Example>) returns (r: Result<(ConnectedNetwork, seq<Float>)>)
    requires WellShaped(n)
    ensures Passes.Keeps(BackPropagateStep(), Trained(n))
    ensures r == Passes.Train(BackPropagateStep(), Trained(n), n, examples, 100.0, n.epochCount)
    ensures r.Ok? <==> n.epochCount == 0 || Trainable(n, examples)
    ensures r.Fail? ==> exists i :: FirstRejected(n.structure, examples, i) && r.failure == ShapeFailure(n.structure, examples[i])
    ensures r.Ok? ==> WellShaped(r.value.0) && SameSetup(n, r.value.0) && |r.value.1| == n.epochCount
    ensures r.Ok? ==> forall t :: 0 <= t < |r.value.1| ==> (r.value.1[t].Finite? <==> |examples| > 0)
    ensures r.Ok? ==> forall t :: 0 <= t < |r.value.1| && r.value.1[t].Finite? ==> r.value.1[t].value <= 100.0
  {
    BackPropagateLaws(n);
    r := Passes.RunTraining(BackPropagateStep(), Trained(n), n, examples, 100.0, n.epochCount);
    Passes.TrainOutcome(BackPropagateStep(), Trained(n), AcceptedBy(n.structure), ShapeFailureOf(n.structure),
                        n, examples, 100.0, n.epochCount);
    if r.Fail? {
      ghost var i :| Passes.FirstFailing(AcceptedBy(n.structure), examples, i) && r.failure == ShapeFailureOf(n.structure)(examples[i]);
      assert FirstRejected(n.structure, examples, i);
    }
  }

  // ---------------------------------------------------------------- evaluation

  /** The network's output for input `x`, computed from the weights alone. */
  function Predict(n: ConnectedNetwork, x: seq<real>): (y: seq<real>)
    requires WellShaped(n) && |x| == n.structure[0]
    ensures |y| == n.structure[|n.structure| - 1]
  {
    WellShapedIsChained(n);
    var acts := Feed(n.activation, n.weights, x);
    if |n.weights| > 0 then
      assert IsMatrix(n.weights[|n.weights| - 1], n.structure[|n.weights|], n.structure[|n.weights| - 1]);
      acts[|acts| - 1]
    else acts[|acts| - 1]
  }

  /** The forward pass returns the prediction. */
  lemma ForwardIsPredict(n: ConnectedNetwork, input: seq<real>)
    requires WellShaped(n) && |input| == n.structure[0]
    ensures ForwardPropagateInput(n, input).value.1 == Predict(n, input)
  {
  }

  /** Every example fits the input and output layers. */
  ghost predicate AllFit(n: ConnectedNetwork, examples: seq<Example>)
    requires |n.structure| >= 1
  {
    forall i :: 0 <= i < |examples| ==> Fits(n, examples[i])
  }

  /** `examples[i]` is the first example that does not fit. */
  ghost predicate FirstUnfit(n: ConnectedNetwork, examples: seq<Example>, i: int)
    requires |n.structure| >= 1
  {
    && 0 <= i < |examples|
    && (forall j :: 0 <= j < i ==> Fits(n, examples[j]))
    && !Fits(n, examples[i])
  }

  /** The panic EvaluateNetwork raises for an example that does not fit:
      ForwardPropagateInput checks the input, SquaredError the output. */
  function EvalFailure(s: seq<nat>, e: Example): Failure
    requires |s| >= 1
  {
    if |e.input| != s[0] then InputSizeMismatch else LengthMismatch
  }

  /** SquaredError of an example's output against the prediction for its
      input (0 for an example that does not fit). */
  ghost function ErrorOf(n: ConnectedNetwork): Example -> real
    requires WellShaped(n)
  {
    e => if Fits(n, e) then 0.5 * SquareSum(e.output, Predict(n, e.input)) else 0.0
  }

  /** The networks an evaluation pass runs on when it starts from `n`: only
      the activations (and the aliased `Changes[0]`) differ. */
  ghost function Evaluated(n: ConnectedNetwork): ConnectedNetwork -> bool
    requires WellShaped(n)
  {
    m => && WellShaped(m) && SameSetup(n, m)
         && m.weights == n.weights && m.deltas == n.deltas && m.changes[1..] == n.changes[1..]
  }

  /** One example of EvaluateNetwork: ForwardPropagateInput on its input, then
      SquaredError of its output against the output layer. */
  function EvalStep(n: ConnectedNetwork, e: Example): (r: Result<(ConnectedNetwork, real)>)
    requires WellShaped(n)
    ensures r.Ok? <==> Fits(n, e)
    ensures r.Fail? ==> r.failure == EvalFailure(n.structure, e)
    ensures r.Ok? ==> Evaluated(n)(r.value.0)
    ensures r.Ok? ==> r.value.1 == ErrorOf(n)(e) && r.value.1 >= 0.0
  {
    var fwd :- ForwardPropagateInput(n, e.input);
    ForwardIsPredict(n, e.input);
    var err :- SquaredError(e.output, fwd.1);
    Ok((fwd.0, err))
  }

  ghost function FitsOf(n: ConnectedNetwork): Example -> bool
    requires |n.structure| >= 1
  {
    e => Fits(n, e)
  }

  ghost function EvalFailureOf(s: seq<nat>): Example -> Failure
    requires |s| >= 1
  {
    e => EvalFailure(s, e)
  }

  function EvalStepOf(): (ConnectedNetwork, Example) --> Result<(ConnectedNetwork, real)> {
    (m, e) requires WellShaped(m) => EvalStep(m, e)
  }

  /** The prediction, and so the error, depends only on the weights and the
      activation function. */
  lemma ErrorOfWeights(n: ConnectedNetwork, m: ConnectedNetwork, e: Example)
    requires WellShaped(n) && WellShaped(m)
    requires m.structure == n.structure && m.weights == n.weights && m.activation == n.activation
    ensures ErrorOf(m)(e) == ErrorOf(n)(e)
  {
  }

  /** What the evaluation pass relies on: from `n` on, a step changes only
      the activations, panics exactly on the examples that do not fit `n`,
      and costs the example's error under `n`'s weights. */
  lemma EvalStepLaws(n: ConnectedNetwork)
    requires WellShaped(n)
    ensures Passes.Keeps(EvalStepOf(), Evaluated(n))
    ensures Passes.Decides(EvalStepOf(), Evaluated(n), FitsOf(n), EvalFailureOf(n.structure))
    ensures Passes.Costs(EvalStepOf(), Evaluated(n), ErrorOf(n))
  {
    EvalStepKeeps(n);
    EvalStepDecides(n);
    EvalStepCosts(n);
  }

  lemma EvalStepKeeps(n: ConnectedNetwork)
    requires WellShaped(n)
    ensures Passes.Keeps(EvalStepOf(), Evaluated(n))
  {
    forall m, e | Evaluated(n)(m)
      ensures EvalStepOf()(m, e).Ok? ==> Evaluated(n)(EvalStepOf()(m, e).value.0)
    {
      assert EvalStepOf()(m, e) == EvalStep(m, e);
    }
  }

  lemma EvalStepDecides(n: ConnectedNetwork)
    requires WellShaped(n)
    ensures Passes.Decides(EvalStepOf(), Evaluated(n), FitsOf(n), EvalFailureOf(n.structure))
  {
    forall m, e | Evaluated(n)(m)
      ensures EvalStepOf()(m, e).Ok? <==> FitsOf(n)(e)
      ensures EvalStepOf()(m, e).Fail? ==> EvalStepOf()(m, e).failure == EvalFailureOf(n.structure)(e)
    {
      assert EvalStepOf()(m, e) == EvalStep(m, e);
    }
  }

  lemma EvalStepCosts(n: ConnectedNetwork)
    requires WellShaped(n)
    ensures Passes.Costs(EvalStepOf(), Evaluated(n), ErrorOf(n))
  {
    forall m, e | Evaluated(n)(m)
      ensures EvalStepOf()(m, e).Ok? ==> EvalStepOf()(m, e).value.1 == ErrorOf(n)(e)
    {
      assert EvalStepOf()(m, e) == EvalStep(m, e);
      ErrorOfWeights(n, m, e);
    }
  }

  /** Σ SquaredError(output, prediction) over the examples, in order: the
      reference for EvaluateNetwork's sum. */
  ghost function TotalError(n: ConnectedNetwork, examples: seq<Example>): real
    requires WellShaped(n)
  {
    Passes.Total(ErrorOf(n), examples)
  }

  /** EvaluateNetwork: `(1 - ΣSquaredError / len(examples)) * 100`, NaN for
      no examples. Only the activations change. */
  method EvaluateNetwork(n: ConnectedNetwork, examples: seq<Example>) returns (r: Result<(ConnectedNetwork, Float)>)
    requires WellShaped(n)
    ensures r.Ok? <==> AllFit(n, examples)
    ensures r.Fail? ==> exists i :: FirstUnfit(n, examples, i) && r.failure == EvalFailure(n.structure, examples[i])
    ensures r.Ok? ==> Evaluated(n)(r.value.0)
    ensures r.Ok? ==> TotalError(n, examples) >= 0.0
    ensures r.Ok? ==> r.value.1 == Passes.Accuracy(TotalError(n, examples), |examples|, 100.0)
    ensures r.Ok? ==> (r.value.1.Finite? <==> |examples| > 0)
    ensures r.Ok? && r.value.1.Finite? ==> r.value.1.value <= 100.0
  {
    EvalStepLaws(n);
    var pass := Passes.RunPass(EvalStepOf(), Evaluated(n), n, examples);
    Passes.PassOutcome(EvalStepOf(), Evaluated(n), FitsOf(n), EvalFailureOf(n.structure), n, examples);
    if pass.Fail? {
      ghost var i :| Passes.FirstFailing(FitsOf(n), examples, i) && pass.failure == EvalFailureOf(n.structure)(examples[i]);
      assert FirstUnfit(n, examples, i);
      return Fail(pass.failure);
    }
    Passes.PassCost(EvalStepOf(), Evaluated(n), ErrorOf(n), n, examples);
    if |examples| == 0 {
      assert TotalError(n, examples) == 0.0;
    }
    return Ok((pass.value.0, Passes.Accuracy(pass.value.1, |examples|, 100.0)));
  }

  /** A second evaluation after the first scores the same: the error sum
      depends only on the weights, which evaluation leaves alone. */
  lemma EvaluationRepeatable(n: ConnectedNetwork, m: ConnectedNetwork, examples: seq<Example>)
    requires WellShaped(n) && Evaluated(n)(m)
    ensures AllFit(m, examples) <==> AllFit(n, examples)
    ensures TotalError(m, examples) == TotalError(n, examples)
  {
    forall i | 0 <= i < |examples| ensures ErrorOf(m)(examples[i]) == ErrorOf(n)(examples[i]) {
      ErrorOfWeights(n, m, examples[i]);
    }
    Passes.TotalCongruent(ErrorOf(m), ErrorOf(n), examples);
  }

  /** A network that predicts every example exactly scores 100. */
  lemma ExactNetworkScoresFull(n: ConnectedNetwork, examples: seq<Example>)
    requires WellShaped(n) && AllFit(n, examples) && |examples| > 0
    requires forall i :: 0 <= i < |examples| ==> Predict(n, examples[i].input) == examples[i].output
    ensures TotalError(n, examples) == 0.0
    ensures Passes.Accuracy(TotalError(n, examples), |examples|, 100.0) == Finite(100.0)
  {
    forall i | 0 <= i < |examples| ensures ErrorOf(n)(examples[i]) == 0.0 {
      SquareSumOfEqual(examples[i].output);
    }
    Passes.TotalOfZeros(ErrorOf(n), examples);
  }
}
