/** Vectors and matrices of reals (the Go code's `[]float64` and `[][]float64`)
    and the sums the networks compute over them. Every sum is a left fold, in
    the order of the Go loops. */
module Vectors {

  /** `m` has `rows` rows of `cols` entries each. */
  ghost predicate IsMatrix(m: seq<seq<real>>, rows: nat, cols: nat) {
    |m| == rows && forall r :: 0 <= r < rows ==> |m[r]| == cols
  }

  function Zeros(n: nat): (v: seq<real>)
    ensures |v| == n
  {
    seq(n, _ => 0.0)
  }

  /** The weight stack of a layered network with layer widths `s`: matrix l
      has `s[l+1]` rows of `s[l]` entries, entry [l][j][k] being the draw
      `draw(l, j, k)` of the random source. */
  function DrawnLayers(s: seq<nat>, draw: (nat, nat, nat) -> real): (w: seq<seq<seq<real>>>)
    requires |s| > 0
    ensures |w| == |s| - 1
    ensures forall l :: 0 <= l < |w| ==> IsMatrix(w[l], s[l + 1], s[l])
    ensures forall l, j, k :: 0 <= l < |w| && 0 <= j < |w[l]| && 0 <= k < |w[l][j]| ==> w[l][j][k] == draw(l, j, k)
  {
    seq(|s| - 1, l requires 0 <= l < |s| - 1 =>
          seq(s[l + 1], j requires 0 <= j => seq(s[l], k requires 0 <= k => draw(l, j, k))))
  }

  /** Σ v[i], accumulated from the first element on. */
  function Sum(v: seq<real>): real {
    if |v| == 0 then 0.0 else Sum(v[..|v| - 1]) + v[|v| - 1]
  }

  /** Σ a[k] * b[k]. */
  function Dot(a: seq<real>, b: seq<real>): real
    requires |a| == |b|
  {
    if |a| == 0 then 0.0 else Dot(a[..|a| - 1], b[..|b| - 1]) + a[|a| - 1] * b[|b| - 1]
  }

  /** Column `i` of a matrix (a row too short to have one contributes 0;
      the model only takes columns of rectangular matrices). */
  function Column(m: seq<seq<real>>, i: nat): (c: seq<real>)
    ensures |c| == |m|
    ensures forall r :: 0 <= r < |m| && i < |m[r]| ==> c[r] == m[r][i]
  {
    seq(|m|, r requires 0 <= r < |m| => if i < |m[r]| then m[r][i] else 0.0)
  }

  /** Σ (d[i] - a[i])², the sum inside every SquaredError of the code base. */
  function SquareSum(d: seq<real>, a: seq<real>): real
    requires |d| == |a|
  {
    if |d| == 0 then 0.0
    else SquareSum(d[..|d| - 1], a[..|a| - 1]) + (d[|d| - 1] - a[|a| - 1]) * (d[|d| - 1] - a[|a| - 1])
  }

  /** Σ 0.5 * (t[i] - o[i])², the error the BackPropagate methods accumulate
      term by term. */
  function HalfSquareTerms(t: seq<real>, o: seq<real>): real
    requires |t| == |o|
  {
    if |t| == 0 then 0.0
    else HalfSquareTerms(t[..|t| - 1], o[..|o| - 1]) + 0.5 * ((t[|t| - 1] - o[|o| - 1]) * (t[|t| - 1] - o[|o| - 1]))
  }

  lemma {:induction false} SquareSumNonNegative(d: seq<real>, a: seq<real>)
    requires |d| == |a|
    ensures SquareSum(d, a) >= 0.0
    decreases |d|
  {
    if |d| > 0 {
      SquareSumNonNegative(d[..|d| - 1], a[..|a| - 1]);
    }
  }

  lemma {:induction false} SquareSumSymmetric(d: seq<real>, a: seq<real>)
    requires |d| == |a|
    ensures SquareSum(d, a) == SquareSum(a, d)
    decreases |d|
  {
    if |d| > 0 {
      SquareSumSymmetric(d[..|d| - 1], a[..|a| - 1]);
    }
  }

  lemma {:induction false} SquareSumOfEqual(d: seq<real>)
    ensures SquareSum(d, d) == 0.0
    decreases |d|
  {
    if |d| > 0 {
      SquareSumOfEqual(d[..|d| - 1]);
    }
  }

  /** Halving term by term is halving the sum: the two ways the code base
      writes the squared error agree. */
  lemma {:induction false} HalfSquareTermsIsHalfSquareSum(t: seq<real>, o: seq<real>)
    requires |t| == |o|
    ensures HalfSquareTerms(t, o) == 0.5 * SquareSum(t, o)
    decreases |t|
  {
    if |t| > 0 {
      HalfSquareTermsIsHalfSquareSum(t[..|t| - 1], o[..|o| - 1]);
    }
  }

  lemma {:induction false} SumAppend(a: seq<real>, b: seq<real>)
    ensures Sum(a + b) == Sum(a) + Sum(b)
    decreases |b|
  {
    if |b| == 0 {
      assert a + b == a;
    } else {
      assert (a + b)[..|a + b| - 1] == a + b[..|b| - 1];
      SumAppend(a, b[..|b| - 1]);
    }
  }

  /** Dividing every element by `c` divides the sum by `c`. */
  lemma {:induction false} SumDivided(v: seq<real>, w: seq<real>, c: real)
    requires c != 0.0
    requires |w| == |v|
    requires forall i :: 0 <= i < |v| ==> w[i] == v[i] / c
    ensures Sum(w) == Sum(v) / c
    decreases |v|
  {
    if |v| > 0 {
      SumDivided(v[..|v| - 1], w[..|w| - 1], c);
    }
  }

  lemma {:induction false} SumPositive(v: seq<real>)
    requires forall i :: 0 <= i < |v| ==> v[i] > 0.0
    ensures |v| > 0 ==> Sum(v) > 0.0
    ensures Sum(v) >= 0.0
    decreases |v|
  {
    if |v| > 0 {
      SumPositive(v[..|v| - 1]);
    }
  }

  /** `|v| * lo <= Sum(v) <= |v| * hi` when every element lies in `[lo, hi]`. */
  lemma {:induction false} SumBounds(v: seq<real>, lo: real, hi: real)
    requires forall i :: 0 <= i < |v| ==> lo <= v[i] <= hi
    ensures (|v| as real) * lo <= Sum(v) <= (|v| as real) * hi
    decreases |v|
  {
    if |v| > 0 {
      SumBounds(v[..|v| - 1], lo, hi);
      var n := (|v| - 1) as real;
      assert (|v| as real) * lo == n * lo + lo;
      assert (|v| as real) * hi == n * hi + hi;
    }
  }
}
