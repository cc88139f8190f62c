/** The loops of TrainNetwork and EvaluateNetwork, which nn/network.go and
    nn/Network.go write the same way: a pass runs a step on each example in
    order, threading the network through and summing the errors the steps
    return, and the first step that panics ends the pass (and the program).
    Training runs one pass per epoch and records an accuracy figure per pass.

    The step is a parameter, so the facts below hold for both networks and
    for both loops; each network states what its own steps satisfy. `inv` is
    the set of networks a step is run on: the initial network and everything
    the steps make of it. */
module Passes {
  import opened Outcome

  /** `step` can run on every network of `inv`, keeps it in `inv`, and
      returns a non-negative error. */
  ghost predicate Keeps<N(!new), E(!new)>(step: (N, E) --> Result<(N, real)>, inv: N -> bool) {
    forall m, e :: inv(m) ==> step.requires(m, e) && (step(m, e).Ok? ==> inv(step(m, e).value.0) && step(m, e).value.1 >= 0.0)
  }

  /** On the networks of `inv`, whether `step` panics, and how, depends on
      the example alone: it succeeds exactly on the examples that `fit`. */
  ghost predicate Decides<N(!new), E(!new)>(step: (N, E) --> Result<(N, real)>, inv: N -> bool, fits: E -> bool, failure: E -> Failure) {
    forall m, e :: inv(m) && step.requires(m, e) ==>
                     && (step(m, e).Ok? <==> fits(e))
                     && (step(m, e).Fail? ==> step(m, e).failure == failure(e))
  }

  /** On the networks of `inv`, a successful step on `e` returns `cost(e)`. */
  ghost predicate Costs<N(!new), E(!new)>(step: (N, E) --> Result<(N, real)>, inv: N -> bool, cost: E -> real) {
    forall m, e :: inv(m) && step.requires(m, e) && step(m, e).Ok? ==> step(m, e).value.1 == cost(e)
  }

  ghost predicate Every<E>(fits: E -> bool, examples: seq<E>) {
    forall i :: 0 <= i < |examples| ==> fits(examples[i])
  }

  lemma EveryLast<E>(fits: E -> bool, examples: seq<E>)
    requires |examples| > 0
    ensures Every(fits, examples) <==> Every(fits, examples[..|examples| - 1]) && fits(examples[|examples| - 1])
  {
    assert forall j :: 0 <= j < |examples| - 1 ==> examples[..|examples| - 1][j] == examples[j];
  }

  /** `examples[i]` is the first example that does not fit. */
  ghost predicate FirstFailing<E>(fits: E -> bool, examples: seq<E>, i: int) {
    && 0 <= i < |examples|
    && (forall j :: 0 <= j < i ==> fits(examples[j]))
    && !fits(examples[i])
  }

  /** Σ cost(e) over the examples, accumulated from the first one on. */
  ghost function Total<E>(cost: E -> real, examples: seq<E>): real
    decreases |examples|
  {
    if |examples| == 0 then 0.0 else Total(cost, examples[..|examples| - 1]) + cost(examples[|examples| - 1])
  }

  /** The total depends only on the costs of the examples at hand. */
  lemma {:induction false} TotalCongruent<E>(cost: E -> real, cost': E -> real, examples: seq<E>)
    requires forall i :: 0 <= i < |examples| ==> cost(examples[i]) == cost'(examples[i])
    ensures Total(cost, examples) == Total(cost', examples)
    decreases |examples|
  {
    if |examples| > 0 {
      var prefix := examples[..|examples| - 1];
      assert forall j :: 0 <= j < |prefix| ==> prefix[j] == examples[j];
      TotalCongruent(cost, cost', prefix);
    }
  }

  /** Examples that cost nothing total nothing. */
  lemma {:induction false} TotalOfZeros<E>(cost: E -> real, examples: seq<E>)
    requires forall i :: 0 <= i < |examples| ==> cost(examples[i]) == 0.0
    ensures Total(cost, examples) == 0.0
    decreases |examples|
  {
    if |examples| > 0 {
      var prefix := examples[..|examples| - 1];
      assert forall j :: 0 <= j < |prefix| ==> prefix[j] == examples[j];
      TotalOfZeros(cost, prefix);
    }
  }

  /** The reference for one pass. */
  ghost function Pass<N(!new), E(!new)>(step: (N, E) --> Result<(N, real)>, inv: N -> bool, n: N, examples: seq<E>): (r: Result<(N, real)>)
    requires Keeps(step, inv) && inv(n)
    ensures r.Ok? ==> inv(r.value.0) && r.value.1 >= 0.0
    decreases |examples|
  {
    if |examples| == 0 then Ok((n, 0.0))
    else
      var before :- Pass(step, inv, n, examples[..|examples| - 1]);
      var after :- step(before.0, examples[|examples| - 1]);
      Ok((after.0, before.1 + after.1))
  }

  /** A pass fails exactly when some example does not fit, with the failure
      of the first such example. */
  lemma {:induction false} PassOutcome<N(!new), E(!new)>(step: (N, E) --> Result<(N, real)>, inv: N -> bool, fits: E -> bool,
                                            failure: E -> Failure, n: N, examples: seq<E>)
    requires Keeps(step, inv) && Decides(step, inv, fits, failure) && inv(n)
    ensures Pass(step, inv, n, examples).Ok? <==> Every(fits, examples)
    ensures Pass(step, inv, n, examples).Fail? ==>
              exists i :: FirstFailing(fits, examples, i) && Pass(step, inv, n, examples).failure == failure(examples[i])
    decreases |examples|
  {
    if |examples| > 0 {
      var prefix := examples[..|examples| - 1];
      var last := examples[|examples| - 1];
      assert forall j :: 0 <= j < |prefix| ==> prefix[j] == examples[j];
      PassOutcome(step, inv, fits, failure, n, prefix);
      EveryLast(fits, examples);
      var before := Pass(step, inv, n, prefix);
      if before.Fail? {
        var i :| FirstFailing(fits, prefix, i) && before.failure == failure(prefix[i]);
        assert FirstFailing(fits, examples, i);
      } else {
        var after := step(before.value.0, last);
        assert after.Ok? <==> fits(last);
        assert after.Fail? ==> after.failure == failure(last);
        if !fits(last) {
          assert FirstFailing(fits, examples, |examples| - 1);
        }
      }
    }
  }

  /** When every successful step costs what its example costs, a successful
      pass returns the total cost of the examples. */
  lemma {:induction false} PassCost<N(!new), E(!new)>(step: (N, E) --> Result<(N, real)>, inv: N -> bool, cost: E -> real,
                                         n: N, examples: seq<E>)
    requires Keeps(step, inv) && Costs(step, inv, cost) && inv(n)
    ensures Pass(step, inv, n, examples).Ok? ==> Pass(step, inv, n, examples).value.1 == Total(cost, examples)
    decreases |examples|
  {
    if |examples| > 0 {
      PassCost(step, inv, cost, n, examples[..|examples| - 1]);
    }
  }

  /** Once a pass has failed on a prefix, it fails the same way on the whole
      example set. */
  lemma {:induction false} PassFailureSticks<N(!new), E(!new)>(step: (N, E) --> Result<(N, real)>, inv: N -> bool, n: N,
                                                  examples: seq<E>, i: nat)
    requires Keeps(step, inv) && inv(n)
    requires i <= |examples| && Pass(step, inv, n, examples[..i]).Fail?
    ensures Pass(step, inv, n, examples) == Pass(step, inv, n, examples[..i])
    decreases |examples| - i
  {
    if i < |examples| {
      var shorter := examples[..|examples| - 1];
      assert shorter[..i] == examples[..i];
      PassFailureSticks(step, inv, n, shorter, i);
    } else {
      assert examples[..i] == examples;
    }
  }

  /** The loop `for _, example := range examples { e += step(example) }`. */
  method RunPass<N(!new), E(!new)>(step: (N, E) --> Result<(N, real)>, ghost inv: N -> bool, n: N, examples: seq<E>)
    returns (r: Result<(N, real)>)
    requires Keeps(step, inv) && inv(n)
    ensures r == Pass(step, inv, n, examples)
  {
    var m, err := n, 0.0;
    var i := 0;
    while i < |examples|
      invariant 0 <= i <= |examples|
      invariant Pass(step, inv, n, examples[..i]) == Ok((m, err))
    {
      var after := step(m, examples[i]);
      assert examples[..i + 1][..i] == examples[..i];
      if after.Fail? {
        PassFailureSticks(step, inv, n, examples, i + 1);
        return Fail(after.failure);
      }
      m, err := after.value.0, err + after.value.1;
      i := i + 1;
    }
    assert examples[..i] == examples;
    return Ok((m, err));
  }

  /** `scale * (1 - e / count)`, the accuracy figure of an error sum `e` over
      `count` examples; 0/0 makes it NaN when there are no examples. */
  function Accuracy(e: real, count: nat, scale: real): (a: Float)
    requires count == 0 ==> e == 0.0
    ensures a.Finite? <==> count > 0
    ensures a.Finite? ==> a.value * (count as real) == scale * ((count as real) - e)
    ensures a.Finite? && e >= 0.0 && scale >= 0.0 ==> a.value <= scale
  {
    var q := Quotient(e, count);
    if q.Finite? then
      AccuracyBound(q.value, e, count as real, scale);
      Affine(scale, -scale, q)
    else Affine(scale, -scale, q)
  }

  lemma AccuracyBound(q: real, e: real, c: real, scale: real)
    requires c > 0.0 && q * c == e
    ensures (scale - scale * q) * c == scale * (c - e)
    ensures e >= 0.0 && scale >= 0.0 ==> scale - scale * q <= scale
  {
    assert (scale - scale * q) * c == scale * c - scale * (q * c);
    if e >= 0.0 && scale >= 0.0 {
      assert q >= 0.0;
      assert scale * q >= 0.0;
    }
  }

  /** The reference for training: `k` passes, one accuracy figure per pass. */
  ghost function Train<N(!new), E(!new)>(step: (N, E) --> Result<(N, real)>, inv: N -> bool, n: N, examples: seq<E>,
                             scale: real, k: nat): (r: Result<(N, seq<Float>)>)
    requires Keeps(step, inv) && inv(n)
    ensures r.Ok? ==> inv(r.value.0) && |r.value.1| == k
    ensures r.Ok? ==> forall t :: 0 <= t < k ==> (r.value.1[t].Finite? <==> |examples| > 0)
    ensures r.Ok? && scale >= 0.0 ==> forall t :: 0 <= t < k && r.value.1[t].Finite? ==> r.value.1[t].value <= scale
    decreases k
  {
    if k == 0 then Ok((n, []))
    else
      var before :- Train(step, inv, n, examples, scale, k - 1);
      var pass :- Pass(step, inv, before.0, examples);
      assert |examples| == 0 ==> pass.1 == 0.0;
      Ok((pass.0, before.1 + [Accuracy(pass.1, |examples|, scale)]))
  }

  /** Training fails exactly when there is a pass to run and some example does
      not fit, with the failure of the first such example. */
  lemma {:induction false} TrainOutcome<N(!new), E(!new)>(step: (N, E) --> Result<(N, real)>, inv: N -> bool, fits: E -> bool,
                                             failure: E -> Failure, n: N, examples: seq<E>, scale: real, k: nat)
    requires Keeps(step, inv) && Decides(step, inv, fits, failure) && inv(n)
    ensures Train(step, inv, n, examples, scale, k).Ok? <==> k == 0 || Every(fits, examples)
    ensures Train(step, inv, n, examples, scale, k).Fail? ==>
              exists i :: FirstFailing(fits, examples, i) && Train(step, inv, n, examples, scale, k).failure == failure(examples[i])
    decreases k
  {
    if k > 0 {
      TrainOutcome(step, inv, fits, failure, n, examples, scale, k - 1);
      var before := Train(step, inv, n, examples, scale, k - 1);
      if before.Ok? {
        PassOutcome(step, inv, fits, failure, before.value.0, examples);
      }
    }
  }

  /** Once a pass has failed, training fails the same way. */
  lemma {:induction false} TrainFailureSticks<N(!new), E(!new)>(step: (N, E) --> Result<(N, real)>, inv: N -> bool, n: N,
                                                   examples: seq<E>, scale: real, k: nat, total: nat)
    requires Keeps(step, inv) && inv(n)
    requires k <= total && Train(step, inv, n, examples, scale, k).Fail?
    ensures Train(step, inv, n, examples, scale, total) == Train(step, inv, n, examples, scale, k)
    decreases total - k
  {
    if k < total {
      TrainFailureSticks(step, inv, n, examples, scale, k, total - 1);
    }
  }

  /** The loop `for i := 0; i < epochs; i++ { ...; accuracy[i] = ... }`. */
  method RunTraining<N(!new), E(!new)>(step: (N, E) --> Result<(N, real)>, ghost inv: N -> bool, n: N, examples: seq<E>,
                           scale: real, epochs: nat) returns (r: Result<(N, seq<Float>)>)
    requires Keeps(step, inv) && inv(n)
    ensures r == Train(step, inv, n, examples, scale, epochs)
  {
    var m := n;
    var acc: seq<Float> := [];
    var k := 0;
    while k < epochs
      invariant 0 <= k <= epochs
      invariant Train(step, inv, n, examples, scale, k) == Ok((m, acc))
    {
      var pass := RunPass(step, inv, m, examples);
      if pass.Fail? {
        TrainFailureSticks(step, inv, n, examples, scale, k + 1, epochs);
        return Fail(pass.failure);
      }
      assert |examples| == 0 ==> pass.value.1 == 0.0;
      acc := acc + [Accuracy(pass.value.1, |examples|, scale)];
      m := pass.value.0;
      k := k + 1;
    }
    return Ok((m, acc));
  }
}
