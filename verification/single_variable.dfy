/** statistics/SingleVariable.go: descriptive statistics of one variable.

    Functions that call `sort.Float64s` sort the caller's slice in place; they
    return the slice as it is after the call next to their value. Go's
    iteration over a map visits the keys in an order the language leaves
    unspecified; Mode takes that order as a parameter. */
module SingleVariable {
  import opened Outcome
  import opened Vectors
  import opened Sorting

  // ---------------------------------------------------------------- sum and mean

  /** `Sum` is the left fold Vectors.Sum; it does not depend on the order of
      the data, so sorting a slice leaves its sum alone. */
  lemma {:induction false} SumIgnoresOrder(a: seq<real>, b: seq<real>)
    requires multiset(a) == multiset(b)
    ensures Sum(a) == Sum(b)
    decreases |a|
  {
    assert |a| == |multiset(a)| == |multiset(b)| == |b|;
    if |a| > 0 {
      var front, x := a[..|a| - 1], a[|a| - 1];
      assert a == front + [x];
      var k := RemoveOne(a, b);
      var b' := b[..k] + b[k + 1..];
      SumIgnoresOrder(front, b');
      assert b == b[..k] + [x] + b[k + 1..];
      SumAppend(b[..k] + [x], b[k + 1..]);
      SumAppend(b[..k], [x]);
      SumAppend(b[..k], b[k + 1..]);
    }
  }

  /** The last element of `a` sits at some position k of its permutation `b`,
      and the rest of `a` is a permutation of `b` without position k. */
  lemma RemoveOne<T>(a: seq<T>, b: seq<T>) returns (k: nat)
    requires multiset(a) == multiset(b) && |a| > 0
    ensures k < |b| && b[k] == a[|a| - 1]
    ensures multiset(a[..|a| - 1]) == multiset(b[..k] + b[k + 1..])
  {
    var x := a[|a| - 1];
    assert x in multiset(b) by {
      assert x in a;
    }
    k :| 0 <= k < |b| && b[k] == x;
    Delete(b, k);
    DropLast(a);
  }

  lemma DropLast<T>(a: seq<T>)
    requires |a| > 0
    ensures multiset(a[..|a| - 1]) == multiset(a) - multiset{a[|a| - 1]}
  {
    assert a == a[..|a| - 1] + [a[|a| - 1]];
  }

  /** Deleting position k takes one copy of its element out of the multiset. */
  lemma Delete<T>(b: seq<T>, k: nat)
    requires k < |b|
    ensures multiset(b[..k] + b[k + 1..]) == multiset(b) - multiset{b[k]}
  {
    assert b == b[..k] + [b[k]] + b[k + 1..];
  }

  /** `Sum(data) / float64(len(data))`: NaN (0/0) for empty data. */
  function Mean(data: seq<real>): (m: Float)
    ensures m.Finite? <==> |data| > 0
    ensures m.Finite? ==> m.value * (|data| as real) == Sum(data)
  {
    Quotient(Sum(data), |data|)
  }

  /** The mean lies between the least and the greatest value, and does not
      depend on the order of the data. */
  lemma MeanBounds(data: seq<real>, lo: real, hi: real)
    requires |data| > 0
    requires forall i :: 0 <= i < |data| ==> lo <= data[i] <= hi
    ensures lo <= Mean(data).value <= hi
    ensures forall other :: multiset(other) == multiset(data) ==> Mean(other) == Mean(data)
  {
    SumBounds(data, lo, hi);
    var n := |data| as real;
    var m := Mean(data).value;
    assert m * n == Sum(data);
    assert lo * n <= m * n <= hi * n;
    forall other | multiset(other) == multiset(data) ensures Mean(other) == Mean(data) {
      SumIgnoresOrder(other, data);
      assert |other| == |multiset(other)| == |data|;
    }
  }

  lemma MeanExample()
    ensures Mean([1.0, 2.0, 3.0, 4.0, 5.0]) == Finite(3.0)
  {
    assert Sum([1.0, 2.0, 3.0, 4.0, 5.0]) == 15.0 by {
      assert [1.0, 2.0, 3.0, 4.0, 5.0][..4] == [1.0, 2.0, 3.0, 4.0];
      assert [1.0, 2.0, 3.0, 4.0][..3] == [1.0, 2.0, 3.0];
      assert [1.0, 2.0, 3.0][..2] == [1.0, 2.0];
      assert [1.0, 2.0][..1] == [1.0];
      assert [1.0][..0] == [];
    }
  }

  // ---------------------------------------------------------------- frequency and mode

  /** The number of occurrences of every value present, counted over the
      data in order. */
  function Frequency(data: seq<real>): (f: map<real, nat>)
    ensures forall x :: x in f <==> x in data
    ensures forall x :: x in f ==> f[x] == multiset(data)[x]
  {
    if |data| == 0 then map[]
    else
      var front, d := data[..|data| - 1], data[|data| - 1];
      assert data == front + [d];
      var g := Frequency(front);
      g[d := (if d in g then g[d] else 0) + 1]
  }

  /** The counts of `f` summed over the values listed in `order`, a value
      that is no key counting 0. */
  function Tally(f: map<real, nat>, order: seq<real>): nat {
    if |order| == 0 then 0
    else
      var x := order[|order| - 1];
      Tally(f, order[..|order| - 1]) + (if x in f then f[x] else 0)
  }

  /** The occurrences in `m` of the values listed in `order`. */
  function CountSum(m: multiset<real>, order: seq<real>): nat {
    if |order| == 0 then 0 else CountSum(m, order[..|order| - 1]) + m[order[|order| - 1]]
  }

  lemma {:induction false} CountSumAdd(m: multiset<real>, d: real, order: seq<real>)
    requires Distinct(order)
    ensures CountSum(m + multiset{d}, order) == CountSum(m, order) + (if d in order then 1 else 0)
    decreases |order|
  {
    if |order| > 0 {
      var front := order[..|order| - 1];
      assert Distinct(front);
      CountSumAdd(m, d, front);
      assert d in order <==> d in front || d == order[|order| - 1];
      assert d in front ==> d != order[|order| - 1];
    }
  }

  /** Summing the occurrences of every distinct value once gives the length. */
  lemma {:induction false} CountSumOfData(data: seq<real>, order: seq<real>)
    requires Distinct(order)
    requires forall x :: x in data ==> x in order
    ensures CountSum(multiset(data), order) == |data|
    decreases |data|
  {
    if |data| == 0 {
      CountSumOfNothing(order);
    } else {
      var front, d := data[..|data| - 1], data[|data| - 1];
      assert data == front + [d];
      CountSumOfData(front, order);
      CountSumAdd(multiset(front), d, order);
    }
  }

  lemma {:induction false} CountSumOfNothing(order: seq<real>)
    ensures CountSum(multiset{}, order) == 0
    decreases |order|
  {
    if |order| > 0 {
      CountSumOfNothing(order[..|order| - 1]);
    }
  }

  lemma {:induction false} TallyIsCountSum(data: seq<real>, order: seq<real>)
    ensures Tally(Frequency(data), order) == CountSum(multiset(data), order)
    decreases |order|
  {
    if |order| > 0 {
      TallyIsCountSum(data, order[..|order| - 1]);
      var x := order[|order| - 1];
      assert x !in Frequency(data) ==> x !in data;
    }
  }

  /** The counts add up to the number of data points: summed over the
      distinct values, listed in any order, they give the length. */
  lemma FrequencyTotal(data: seq<real>, order: seq<real>)
    requires Distinct(order)
    requires forall x :: x in order <==> x in data
    ensures Tally(Frequency(data), order) == |data|
  {
    TallyIsCountSum(data, order);
    CountSumOfData(data, order);
  }

  /** Frequency is the map of occurrence counts: any map with the same keys
      as the data's values and their counts as values is its result. */
  lemma FrequencyIsCounts(data: seq<real>, counts: map<real, nat>)
    requires forall x :: x in counts <==> x in data
    requires forall x :: x in counts ==> counts[x] == multiset(data)[x]
    ensures Frequency(data) == counts
  {
    var f := Frequency(data);
    forall x ensures x in f <==> x in counts {
      assert x in f <==> x in data;
    }
    assert f.Keys == counts.Keys;
    assert forall x :: x in f ==> f[x] == counts[x];
  }

  lemma FrequencyExample()
    ensures Frequency([1.0, 2.0, 2.0, 2.0, 3.0, 3.0, 4.0, 5.0]) == map[1.0 := 1, 2.0 := 3, 3.0 := 2, 4.0 := 1, 5.0 := 1]
  {
    ExampleValues();
    ExampleCounts();
    FrequencyIsCounts([1.0, 2.0, 2.0, 2.0, 3.0, 3.0, 4.0, 5.0], map[1.0 := 1, 2.0 := 3, 3.0 := 2, 4.0 := 1, 5.0 := 1]);
  }

  /** No value occurs twice. */
  predicate Distinct(s: seq<real>) {
    forall i, j :: 0 <= i < j < |s| ==> s[i] != s[j]
  }

  /** What the loop of Mode knows after visiting `keys`: the criterion `c` is
      the greatest count seen (0 before any key), and `out` holds, once each
      when the keys are distinct, exactly the keys seen with that count. */
  ghost predicate ScanInvariant(freq: map<real, nat>, keys: seq<real>, c: nat, out: seq<real>)
    requires forall i :: 0 <= i < |keys| ==> keys[i] in freq
  {
    && (forall i :: 0 <= i < |keys| ==> freq[keys[i]] <= c)
    && (|keys| == 0 ==> c == 0)
    && (|keys| > 0 ==> exists i :: 0 <= i < |keys| && freq[keys[i]] == c)
    && (forall j :: 0 <= j < |out| ==> out[j] in keys && freq[out[j]] == c)
    && (forall i :: 0 <= i < |keys| && freq[keys[i]] == c ==> keys[i] in out)
    && (Distinct(keys) ==> Distinct(out))
  }

  /** One iteration of the loop of Mode: a larger count restarts the list, an
      equal one joins it. */
  function Visit(freq: map<real, nat>, c: nat, out: seq<real>, k: real): (r: (nat, seq<real>))
    requires k in freq
  {
    var v := freq[k];
    if v > c then (v, [k])
    else if v == c then (c, out + [k])
    else (c, out)
  }

  lemma VisitKeepsInvariant(freq: map<real, nat>, keys: seq<real>, c: nat, out: seq<real>, k: real)
    requires forall i :: 0 <= i < |keys| ==> keys[i] in freq
    requires k in freq
    requires ScanInvariant(freq, keys, c, out)
    ensures var (c', out') := Visit(freq, c, out, k);
            ScanInvariant(freq, keys + [k], c', out')
  {
    var keys' := keys + [k];
    var (c', out') := Visit(freq, c, out, k);
    assert keys'[|keys|] == k;
    assert forall i :: 0 <= i < |keys| ==> keys'[i] == keys[i];
    if freq[k] > c {
      assert forall i :: 0 <= i < |keys| ==> freq[keys'[i]] < c';
    } else if freq[k] == c {
      forall j | 0 <= j < |out'| ensures out'[j] in keys' && freq[out'[j]] == c' {
        if j < |out| {
          assert out'[j] == out[j];
        }
      }
      if Distinct(keys') {
        assert k !in keys by {
          forall i | 0 <= i < |keys| ensures keys[i] != k {
            assert keys'[i] != keys'[|keys|];
          }
        }
        assert Distinct(keys);
      }
    } else {
      if Distinct(keys') {
        assert Distinct(keys) by {
          forall i, j | 0 <= i < j < |keys| ensures keys[i] != keys[j] {
            assert keys'[i] != keys'[j];
          }
        }
      }
    }
  }

  /** The loop of Mode over `freq`, visiting its keys in the order `keys`:
      the final criterion and the values collected. */
  function ModeScan(freq: map<real, nat>, keys: seq<real>): (r: (nat, seq<real>))
    requires forall i :: 0 <= i < |keys| ==> keys[i] in freq
    ensures ScanInvariant(freq, keys, r.0, r.1)
  {
    if |keys| == 0 then (0, [])
    else
      var front, k := keys[..|keys| - 1], keys[|keys| - 1];
      assert keys == front + [k];
      var (c, out) := ModeScan(freq, front);
      VisitKeepsInvariant(freq, front, c, out, k);
      Visit(freq, c, out, k)
  }

  /** The values with the greatest count: exactly those whose count no other
      value exceeds, each once; nothing for empty data. `order` is the order
      in which the map iteration visits the distinct values. */
  function Mode(data: seq<real>, order: seq<real>): (r: seq<real>)
    requires forall x :: x in order <==> x in data
    requires Distinct(order)
    ensures forall x :: x in r <==> x in data && forall y :: y in data ==> multiset(data)[y] <= multiset(data)[x]
    ensures Distinct(r)
    ensures |data| == 0 ==> r == []
  {
    var freq := Frequency(data);
    assert forall i :: 0 <= i < |order| ==> order[i] in freq by {
      forall i | 0 <= i < |order| ensures order[i] in freq {
        assert order[i] in order;
      }
    }
    var (criterion, outputs) := ModeScan(freq, order);
    assert forall y :: y in data ==> multiset(data)[y] <= criterion by {
      forall y | y in data ensures multiset(data)[y] <= criterion {
        var i :| 0 <= i < |order| && order[i] == y;
      }
    }
    outputs
  }

  /** A value that occurs strictly more often than every other is the
      whole result, whatever the iteration order. */
  lemma StrictModeAlone(data: seq<real>, order: seq<real>, v: real)
    requires forall x :: x in order <==> x in data
    requires Distinct(order)
    requires v in data
    requires forall y :: y in data && y != v ==> multiset(data)[y] < multiset(data)[v]
    ensures Mode(data, order) == [v]
  {
    var r := Mode(data, order);
    assert v in r;
    assert forall j :: 0 <= j < |r| ==> r[j] == v by {
      forall j | 0 <= j < |r| ensures r[j] == v {
        assert r[j] in r;
      }
    }
    AllSameCount(r, v);
    DistinctCounts(r, v);
  }

  /** A sequence holding only v holds it |s| times. */
  lemma {:induction false} AllSameCount(s: seq<real>, v: real)
    requires forall j :: 0 <= j < |s| ==> s[j] == v
    ensures multiset(s)[v] == |s|
    decreases |s|
  {
    if |s| > 0 {
      var front := s[..|s| - 1];
      assert s == front + [s[|s| - 1]];
      AllSameCount(front, v);
    }
  }

  /** A sequence without repetitions holds each value at most once. */
  lemma {:induction false} DistinctCounts(s: seq<real>, v: real)
    requires Distinct(s)
    ensures multiset(s)[v] <= 1
    decreases |s|
  {
    if |s| > 0 {
      var front, x := s[..|s| - 1], s[|s| - 1];
      assert s == front + [x];
      assert Distinct(front);
      DistinctCounts(front, v);
      assert forall i :: 0 <= i < |front| ==> front[i] != x;
      assert x !in multiset(front);
    }
  }

  lemma ModeExample(order: seq<real>)
    requires forall x :: x in order <==> x in [1.0, 2.0, 2.0, 2.0, 3.0, 3.0, 4.0, 5.0]
    requires Distinct(order)
    ensures Mode([1.0, 2.0, 2.0, 2.0, 3.0, 3.0, 4.0, 5.0], order) == [2.0]
  {
    ExampleTwoIsStrictMode();
    StrictModeAlone([1.0, 2.0, 2.0, 2.0, 3.0, 3.0, 4.0, 5.0], order, 2.0);
  }

  /** In the example data 2 occurs three times and every other value fewer. */
  lemma ExampleTwoIsStrictMode()
    ensures var data := [1.0, 2.0, 2.0, 2.0, 3.0, 3.0, 4.0, 5.0];
            && 2.0 in data
            && forall y :: y in data && y != 2.0 ==> multiset(data)[y] < multiset(data)[2.0]
  {
    ExampleValues();
    ExampleCounts();
  }

  /** The values of the example data of the package's tests. */
  lemma ExampleValues()
    ensures forall x :: x in [1.0, 2.0, 2.0, 2.0, 3.0, 3.0, 4.0, 5.0] <==> x in {1.0, 2.0, 3.0, 4.0, 5.0}
  {
    var data := [1.0, 2.0, 2.0, 2.0, 3.0, 3.0, 4.0, 5.0];
    forall x ensures x in data <==> x in {1.0, 2.0, 3.0, 4.0, 5.0} {
      if x in data {
        var i :| 0 <= i < |data| && data[i] == x;
      }
      if x == 1.0 { assert data[0] == x; }
      if x == 2.0 { assert data[1] == x; }
      if x == 3.0 { assert data[4] == x; }
      if x == 4.0 { assert data[6] == x; }
      if x == 5.0 { assert data[7] == x; }
    }
  }

  /** The occurrence counts of the example data of the package's tests. */
  lemma ExampleCounts()
    ensures var m := multiset([1.0, 2.0, 2.0, 2.0, 3.0, 3.0, 4.0, 5.0]);
            m[1.0] == 1 && m[2.0] == 3 && m[3.0] == 2 && m[4.0] == 1 && m[5.0] == 1
  {
    assert multiset([1.0, 2.0, 2.0, 2.0, 3.0, 3.0, 4.0, 5.0]) == multiset{1.0, 2.0, 2.0, 2.0, 3.0, 3.0, 4.0, 5.0};
  }

  // ---------------------------------------------------------------- min, max, range

  /** Sorts the slice and returns its first element; empty data panics. */
  function Min(data: seq<real>): (r: Result<(seq<real>, real)>)
    ensures r.Ok? <==> |data| > 0
    ensures r.Fail? ==> r.failure == IndexOutOfRange
    ensures r.Ok? ==> Sorted(r.value.0) && multiset(r.value.0) == multiset(data)
    ensures r.Ok? ==> r.value.1 in data && forall x :: x in data ==> r.value.1 <= x
  {
    var sorted := Sort(data);
    if |sorted| == 0 then Fail(IndexOutOfRange)
    else
      SortedEnds(sorted);
      SameElements(sorted, data);
      Ok((sorted, sorted[0]))
  }

  /** Sorts the slice and returns its last element; empty data panics. */
  function Max(data: seq<real>): (r: Result<(seq<real>, real)>)
    ensures r.Ok? <==> |data| > 0
    ensures r.Fail? ==> r.failure == IndexOutOfRange
    ensures r.Ok? ==> Sorted(r.value.0) && multiset(r.value.0) == multiset(data)
    ensures r.Ok? ==> r.value.1 in data && forall x :: x in data ==> x <= r.value.1
  {
    var sorted := Sort(data);
    if |sorted| == 0 then Fail(IndexOutOfRange)
    else
      SortedEnds(sorted);
      SameElements(sorted, data);
      assert sorted[|sorted| - 1] in sorted;
      Ok((sorted, sorted[|sorted| - 1]))
  }

  /** `Max(data) - Min(data)`: Max sorts the slice, Min sorts it again and
      finds it unchanged. The range is the greatest difference of two data
      points. */
  function Range(data: seq<real>): (r: Result<(seq<real>, real)>)
    ensures r.Ok? <==> |data| > 0
    ensures r.Fail? ==> r.failure == IndexOutOfRange
    ensures r.Ok? ==> r.value.0 == Sort(data)
    ensures r.Ok? ==> && r.value.1 >= 0.0
                      && (forall x, y :: x in data && y in data ==> x - y <= r.value.1)
                      && (exists x, y :: x in data && y in data && r.value.1 == x - y)
  {
    var hi :- Max(data);
    var lo := Min(hi.0).value;
    SortedUnique(hi.0, Sort(data));
    SortKeepsSorted(hi.0);
    SameElements(hi.0, data);
    Ok((lo.0, hi.1 - lo.1))
  }

  // ---------------------------------------------------------------- percentiles

  /** How many of the requested percentages lie in [lo, hi], both ends
      included: the test of the inner loop of Percentile. */
  function Hits(prec: seq<int>, lo: int, hi: int): (h: nat)
    ensures h <= |prec|
  {
    if |prec| == 0 then 0
    else Hits(prec[1..], lo, hi) + (if lo <= prec[0] <= hi then 1 else 0)
  }

  /** Some request is hit exactly when the count is positive. */
  lemma {:induction false} HitsMeans(prec: seq<int>, lo: int, hi: int)
    ensures Hits(prec, lo, hi) > 0 <==> exists i :: 0 <= i < |prec| && lo <= prec[i] <= hi
  {
    if |prec| > 0 {
      HitsMeans(prec[1..], lo, hi);
      assert forall i :: 0 <= i < |prec[1..]| ==> prec[1..][i] == prec[i + 1];
    }
  }

  /** h copies of x. */
  function Copies(x: real, h: nat): (s: seq<real>)
    ensures |s| == h
    ensures forall j :: 0 <= j < h ==> s[j] == x
  {
    seq(h, _ => x)
  }

  /** The position that bucket b reads among n sorted values: b itself, or,
      with clamping, the last position once b is past the end. */
  function ReadIndex(n: nat, b: nat, clamp: bool): (i: nat)
    ensures clamp && n > 0 ==> i < n
  {
    if clamp && b >= n && n > 0 then n - 1 else b
  }

  /** Bucket c of width `step` reads past the end of n values: it starts
      below 100, one of the requested percentages lies in it, and there is
      no value at position c. */
  ghost predicate Overrun(n: nat, prec: seq<int>, step: nat, c: nat) {
    c >= n && c * step < 100 && Hits(prec, c * step, c * step + step) > 0
  }

  /** Some bucket from b on reads past the end of n values. */
  ghost predicate Overruns(n: nat, prec: seq<int>, step: nat, b: nat)
    requires step > 0
    decreases 100 - b * step
  {
    && b * step < 100
    && ((b >= n && Hits(prec, b * step, b * step + step) > 0)
        || (assert (b + 1) * step == b * step + step; Overruns(n, prec, step, b + 1)))
  }

  /** The buckets from b on overrun exactly when one of them does. */
  lemma {:induction false} OverrunsMeans(n: nat, prec: seq<int>, step: nat, b: nat)
    requires step > 0
    ensures Overruns(n, prec, step, b) <==> exists c: nat :: c >= b && Overrun(n, prec, step, c)
    decreases 100 - b * step
  {
    if b * step < 100 {
      assert (b + 1) * step == b * step + step;
      OverrunsMeans(n, prec, step, b + 1);
      if Overrun(n, prec, step, b) {
        assert Overruns(n, prec, step, b);
      } else if exists c: nat :: c >= b && Overrun(n, prec, step, c) {
        var c: nat :| c >= b && Overrun(n, prec, step, c);
        assert c >= b + 1;
      }
    } else {
      forall c: nat | c >= b ensures !Overrun(n, prec, step, c) {
        MulMonotone(b, c, step);
      }
    }
  }

  /** Division rounds down: x lies in the bucket of width d its quotient
      names. */
  lemma DivBounds(x: nat, d: nat)
    requires d > 0
    ensures (x / d) * d <= x < (x / d) * d + d
  {
    assert x == d * (x / d) + x % d;
  }

  lemma MulMonotone(b: nat, c: nat, step: nat)
    requires b <= c
    ensures b * step <= c * step
  {
  }

  /** The loop of Percentile from bucket b on: bucket b covers the
      percentages [b * step, b * step + step] and appends, once per request
      it covers, the value at position b; the loop stops once b * step
      reaches 100. A read past the end panics. With `clamp` the read is
      clamped to the last value instead. */
  function Buckets(sorted: seq<real>, prec: seq<int>, step: nat, b: nat, clamp: bool): (r: Result<seq<real>>)
    requires step > 0
    requires clamp ==> |sorted| > 0
    ensures r.Ok? <==> clamp || !Overruns(|sorted|, prec, step, b)
    ensures r.Fail? ==> r.failure == IndexOutOfRange
    ensures r.Ok? ==> forall j :: 0 <= j < |r.value| ==> r.value[j] in sorted
    decreases 100 - b * step
  {
    if b * step >= 100 then Ok([])
    else
      var h := Hits(prec, b * step, b * step + step);
      if h > 0 && b >= |sorted| && !clamp then Fail(IndexOutOfRange)
      else
        assert (b + 1) * step == b * step + step;
        var rest :- Buckets(sorted, prec, step, b + 1, clamp);
        Ok(Emitted(sorted, prec, step, b, clamp) + rest)
  }

  /** What bucket b appends: the value it reads, once per request it
      covers. */
  function Emitted(sorted: seq<real>, prec: seq<int>, step: nat, b: nat, clamp: bool): (e: seq<real>)
    requires Hits(prec, b * step, b * step + step) > 0 ==> ReadIndex(|sorted|, b, clamp) < |sorted|
    ensures |e| == Hits(prec, b * step, b * step + step)
    ensures forall j :: 0 <= j < |e| ==> e[j] == sorted[ReadIndex(|sorted|, b, clamp)]
  {
    var h := Hits(prec, b * step, b * step + step);
    if h == 0 then [] else Copies(sorted[ReadIndex(|sorted|, b, clamp)], h)
  }

  /** One turn of the loop: a bucket that starts below 100 and does not
      panic appends what it emits to what the later buckets emit. */
  lemma BucketsStep(sorted: seq<real>, prec: seq<int>, step: nat, b: nat, clamp: bool)
    requires step > 0 && (clamp ==> |sorted| > 0)
    requires b * step < 100
    requires Buckets(sorted, prec, step, b, clamp).Ok?
    ensures Hits(prec, b * step, b * step + step) > 0 ==> ReadIndex(|sorted|, b, clamp) < |sorted|
    ensures Buckets(sorted, prec, step, b + 1, clamp).Ok?
    ensures Buckets(sorted, prec, step, b, clamp).value
            == Emitted(sorted, prec, step, b, clamp) + Buckets(sorted, prec, step, b + 1, clamp).value
  {
    assert (b + 1) * step == b * step + step;
  }

  /** On sorted values the buckets emit a sorted sequence, none of it below
      the value bucket b reads. */
  lemma {:induction false} BucketsSorted(sorted: seq<real>, prec: seq<int>, step: nat, b: nat, clamp: bool)
    requires step > 0 && |sorted| > 0
    requires Sorted(sorted)
    requires Buckets(sorted, prec, step, b, clamp).Ok?
    ensures var out := Buckets(sorted, prec, step, b, clamp).value;
            && Sorted(out)
            && forall j :: 0 <= j < |out| ==> sorted[ReadIndex(|sorted|, b, true)] <= out[j]
    decreases 100 - b * step
  {
    if b * step < 100 {
      BucketsStep(sorted, prec, step, b, clamp);
      assert (b + 1) * step == b * step + step;
      BucketsSorted(sorted, prec, step, b + 1, clamp);
      var e := Emitted(sorted, prec, step, b, clamp);
      var rest := Buckets(sorted, prec, step, b + 1, clamp).value;
      var lo := sorted[ReadIndex(|sorted|, b, true)];
      assert lo <= sorted[ReadIndex(|sorted|, b + 1, true)];
      assert forall j :: 0 <= j < |e| ==> e[j] == lo;
      SortedConcat(e, rest);
    }
  }

  /** `Percentile`: sorts the slice, then walks the buckets of width
      100 / len(data) over the percentages [0, 100). Empty data divides by
      zero. With more than 100 values the width is 0 and the loop never
      advances: it reads on past the end when 0 is requested and spins for
      ever otherwise. */
  function Percentile(data: seq<real>, prec: seq<int>): (r: Result<(seq<real>, seq<real>)>)
    ensures r.Ok? <==> 1 <= |data| <= 100 && !Overruns(|data|, prec, 100 / |data|, 0)
    ensures r.Fail? ==> r.failure == if |data| == 0 then IntegerDivideByZero
                                     else if |data| > 100 && 0 !in prec then NonTermination
                                     else IndexOutOfRange
    ensures r.Ok? ==> && r.value.0 == Sort(data)
                      && Sorted(r.value.1)
                      && forall j :: 0 <= j < |r.value.1| ==> r.value.1[j] in data
  {
    var sorted := Sort(data);
    var n := |sorted|;
    if n == 0 then Fail(IntegerDivideByZero)
    else
      var step := 100 / n;
      assert step == 0 <==> n > 100;
      if step == 0 then
        if 0 in prec then Fail(IndexOutOfRange) else Fail(NonTermination)
      else
        var out :- Buckets(sorted, prec, step, 0, false);
        BucketsSorted(sorted, prec, step, 0, false);
        SameElements(sorted, data);
        Ok((sorted, out))
  }

  /** Percentile answers exactly for 1 to 100 values none of whose buckets
      that cover a request lies past the end. */
  lemma PercentileDefined(data: seq<real>, prec: seq<int>)
    ensures Percentile(data, prec).Ok? <==> 1 <= |data| <= 100 && forall c: nat :: !Overrun(|data|, prec, 100 / |data|, c)
  {
    if 1 <= |data| <= 100 {
      OverrunsMeans(|data|, prec, 100 / |data|, 0);
    }
  }

  /** The first bucket of width `step` that covers percentage p: the least b
      with p in [b * step, b * step + step]. */
  function FirstBucket(p: nat, step: nat): (b: nat)
    requires step > 0
    ensures b * step <= p <= b * step + step
    ensures p > 0 ==> b * step < p
    ensures forall c: nat :: c < b ==> c * step + step < p
  {
    if p == 0 then 0
    else
      var b := (p - 1) / step;
      DivBounds(p - 1, step);
      assert forall c: nat :: c < b ==> c * step + step < p by {
        forall c: nat | c < b ensures c * step + step < p {
          MulMonotone(c + 1, b, step);
          assert (c + 1) * step == c * step + step;
        }
      }
      b
  }

  /** Requests below `hi` and above `lo` are not hit; used for buckets that
      lie wholly below the smallest request. */
  lemma NoHitsBelow(prec: seq<int>, lo: int, hi: int)
    requires forall i :: 0 <= i < |prec| ==> hi < prec[i] || prec[i] < lo
    ensures Hits(prec, lo, hi) == 0
  {
    HitsMeans(prec, lo, hi);
  }

  /** Two ranges that meet at `mid` hit every request the whole range hits. */
  lemma {:induction false} HitsSplit(prec: seq<int>, lo: int, mid: int, hi: int, hi': int)
    requires lo <= mid <= hi && hi <= hi'
    ensures Hits(prec, lo, hi) <= Hits(prec, lo, mid) + Hits(prec, mid, hi')
  {
    if |prec| > 0 {
      HitsSplit(prec[1..], lo, mid, hi, hi');
    }
  }

  /** Every request in [b * step, 100] is answered at least once by the
      buckets from b on. */
  lemma {:induction false} BucketsAnswer(sorted: seq<real>, prec: seq<int>, step: nat, b: nat, clamp: bool)
    requires step > 0 && (clamp ==> |sorted| > 0)
    requires b * step < 100
    requires Buckets(sorted, prec, step, b, clamp).Ok?
    ensures |Buckets(sorted, prec, step, b, clamp).value| >= Hits(prec, b * step, 100)
    decreases 100 - b * step
  {
    BucketsStep(sorted, prec, step, b, clamp);
    assert (b + 1) * step == b * step + step;
    var lo, hi := b * step, b * step + step;
    if hi < 100 {
      BucketsAnswer(sorted, prec, step, b + 1, clamp);
      HitsSplit(prec, lo, hi, 100, 100);
    } else {
      HitsWithin(prec, lo, 100, hi);
    }
  }

  /** A wider range hits at least as many requests. */
  lemma {:induction false} HitsWithin(prec: seq<int>, lo: int, hi: int, hi': int)
    requires hi <= hi'
    ensures Hits(prec, lo, hi) <= Hits(prec, lo, hi')
  {
    if |prec| > 0 {
      HitsWithin(prec[1..], lo, hi, hi');
    }
  }

  /** Percentile answers every request that lies in [0, 100] at least once:
      a request on the boundary of two buckets is answered by both. */
  lemma PercentileAnswersEveryRequest(data: seq<real>, prec: seq<int>)
    requires Percentile(data, prec).Ok?
    ensures |Percentile(data, prec).value.1| >= Hits(prec, 0, 100)
  {
    BucketsAnswer(Sort(data), prec, 100 / |data|, 0, false);
  }

  /** When p lies in [0, 100] and every other request lies either below
      bucket b or not below p, the first value the buckets from b on emit
      is the one the first bucket covering p reads. */
  lemma {:induction false} BucketsFirst(sorted: seq<real>, prec: seq<int>, p: nat, step: nat, b: nat, clamp: bool)
    requires step > 0 && (clamp ==> |sorted| > 0)
    requires p <= 100 && p in prec
    requires forall i :: 0 <= i < |prec| ==> p <= prec[i] || prec[i] < b * step
    requires b <= FirstBucket(p, step)
    requires Buckets(sorted, prec, step, b, clamp).Ok?
    ensures var out := Buckets(sorted, prec, step, b, clamp).value;
            && ReadIndex(|sorted|, FirstBucket(p, step), clamp) < |sorted|
            && |out| > 0
            && out[0] == sorted[ReadIndex(|sorted|, FirstBucket(p, step), clamp)]
    decreases FirstBucket(p, step) - b
  {
    if b < FirstBucket(p, step) {
      BucketsSkip(sorted, prec, p, step, b, clamp);
      BucketsFirst(sorted, prec, p, step, b + 1, clamp);
    } else {
      BucketsFirstHere(sorted, prec, p, step, b, clamp);
    }
  }

  /** A bucket below the first one covering p covers no request and emits
      nothing. */
  lemma BucketsSkip(sorted: seq<real>, prec: seq<int>, p: nat, step: nat, b: nat, clamp: bool)
    requires step > 0 && (clamp ==> |sorted| > 0)
    requires p <= 100
    requires forall i :: 0 <= i < |prec| ==> p <= prec[i] || prec[i] < b * step
    requires b < FirstBucket(p, step)
    requires Buckets(sorted, prec, step, b, clamp).Ok?
    ensures forall i :: 0 <= i < |prec| ==> p <= prec[i] || prec[i] < (b + 1) * step
    ensures Buckets(sorted, prec, step, b + 1, clamp).Ok?
    ensures Buckets(sorted, prec, step, b, clamp).value == Buckets(sorted, prec, step, b + 1, clamp).value
  {
    assert (b + 1) * step == b * step + step;
    NoHitsBelow(prec, b * step, b * step + step);
    BucketsStep(sorted, prec, step, b, clamp);
  }

  /** The first bucket covering p emits first the value at its position. */
  lemma BucketsFirstHere(sorted: seq<real>, prec: seq<int>, p: nat, step: nat, b: nat, clamp: bool)
    requires step > 0 && (clamp ==> |sorted| > 0)
    requires p <= 100 && p in prec
    requires b == FirstBucket(p, step)
    requires Buckets(sorted, prec, step, b, clamp).Ok?
    ensures var out := Buckets(sorted, prec, step, b, clamp).value;
            && ReadIndex(|sorted|, b, clamp) < |sorted|
            && |out| > 0
            && out[0] == sorted[ReadIndex(|sorted|, b, clamp)]
  {
    HitsMeans(prec, b * step, b * step + step);
    BucketsStep(sorted, prec, step, b, clamp);
  }

  /** A single request p in [0, 100] that Percentile answers yields first the
      value at the position of the first bucket covering p. */
  lemma PercentileOfOne(data: seq<real>, p: nat)
    requires p <= 100
    requires Percentile(data, [p]).Ok?
    ensures var (sorted, out) := Percentile(data, [p]).value;
            && FirstBucket(p, 100 / |data|) < |data|
            && |out| > 0
            && out[0] == sorted[FirstBucket(p, 100 / |data|)]
  {
    BucketsFirst(Sort(data), [p], p, 100 / |data|, 0, false);
  }

  /** A larger percentage never gives a smaller value. */
  lemma PercentileMonotone(data: seq<real>, p: nat, q: nat)
    requires p <= q <= 100
    requires Percentile(data, [p]).Ok? && Percentile(data, [q]).Ok?
    ensures |Percentile(data, [p]).value.1| > 0 && |Percentile(data, [q]).value.1| > 0
    ensures Percentile(data, [p]).value.1[0] <= Percentile(data, [q]).value.1[0]
  {
    PercentileOfOne(data, p);
    PercentileOfOne(data, q);
    var step := 100 / |data|;
    var bp, bq := FirstBucket(p, step), FirstBucket(q, step);
    assert bq < bp ==> bq * step + step < p;
  }

  /** With n values, 1 <= n <= 100, the buckets that exist reach past 50. */
  lemma StepCoversHalf(n: nat)
    requires 1 <= n <= 100
    ensures n * (100 / n) > 50
  {
    var step := 100 / n;
    assert n * step + 100 % n == 100;
    if n > 50 {
      assert step == 1;
    }
  }

  /** `Median` is `Percentile(data, 50)[0]`: the value at the first bucket
      covering 50 for 1 to 100 values; empty data divides by zero and more
      than 100 values make the loop spin for ever. */
  function Median(data: seq<real>): (r: Result<(seq<real>, real)>)
    ensures r.Ok? <==> 1 <= |data| <= 100
    ensures r.Fail? ==> r.failure == if |data| == 0 then IntegerDivideByZero else NonTermination
    ensures r.Ok? ==> FirstBucket(50, 100 / |data|) < |data|
    ensures r.Ok? ==> r.value.0 == Sort(data) && r.value.1 == Sort(data)[FirstBucket(50, 100 / |data|)]
  {
    MedianAnswered(data);
    var pr :- Percentile(data, [50]);
    if |pr.1| == 0 then Fail(IndexOutOfRange) else Ok((pr.0, pr.1[0]))
  }

  /** For 1 to 100 values no bucket covering 50 lies past the end, so the
      request 50 is answered, first by the first bucket covering it. */
  lemma MedianAnswered(data: seq<real>)
    ensures 1 <= |data| <= 100 ==>
              && Percentile(data, [50]).Ok?
              && FirstBucket(50, 100 / |data|) < |data|
              && |Percentile(data, [50]).value.1| > 0
              && Percentile(data, [50]).value.1[0] == Sort(data)[FirstBucket(50, 100 / |data|)]
  {
    if 1 <= |data| <= 100 {
      var n, step := |data|, 100 / |data|;
      StepCoversHalf(n);
      forall c: nat ensures !Overrun(n, [50], step, c) {
        if c >= n {
          MulMonotone(n, c, step);
          HitsMeans([50], c * step, c * step + step);
        }
      }
      OverrunsMeans(n, [50], step, 0);
      PercentileOfOne(data, 50);
    }
  }

  /** `IQR` subtracts the second answer of `Percentile(data, 75, 25)` from
      the first. The buckets are walked in ascending order, so the first
      answer is the one for 25: the result is never positive. */
  function IQR(data: seq<real>): (r: Result<(seq<real>, real)>)
    ensures r.Ok? <==> Percentile(data, [75, 25]).Ok?
    ensures r.Ok? ==> r.value.0 == Sort(data) && r.value.1 <= 0.0
  {
    var pr :- Percentile(data, [75, 25]);
    QuartileAnswers(data, pr.0, pr.1);
    if |pr.1| < 2 then Fail(IndexOutOfRange) else Ok((pr.0, pr.1[0] - pr.1[1]))
  }

  /** IQR answers exactly for 1 to 100 values whose buckets covering 25
      and 75 all have a value to read; otherwise it divides by zero, spins
      for ever or reads past the end. */
  lemma IQRDefined(data: seq<real>)
    ensures IQR(data).Ok? <==> 1 <= |data| <= 100 && forall c: nat :: !Overrun(|data|, [75, 25], 100 / |data|, c)
    ensures IQR(data).Fail? ==> IQR(data).failure == if |data| == 0 then IntegerDivideByZero
                                                     else if |data| > 100 then NonTermination
                                                     else IndexOutOfRange
  {
    PercentileDefined(data, [75, 25]);
    assert 0 !in [75, 25];
  }

  /** What IQR computes: the answer for 25, the value of the first bucket
      covering 25, minus a data value that is not below it. */
  lemma IQRIsFirstQuartileMinus(data: seq<real>, sorted: seq<real>, v: real)
    requires IQR(data) == Ok((sorted, v))
    ensures FirstBucket(25, 100 / |data|) < |sorted| == |data|
    ensures exists y :: y in data && sorted[FirstBucket(25, 100 / |data|)] <= y && v == sorted[FirstBucket(25, 100 / |data|)] - y
  {
    var out := Percentile(data, [75, 25]).value.1;
    QuartileAnswers(data, sorted, out);
    Witness(data, sorted[FirstBucket(25, 100 / |data|)], v, out[1]);
  }

  lemma Witness(data: seq<real>, q: real, v: real, y: real)
    requires y in data && q <= y && v == q - y
    ensures exists y :: y in data && q <= y && v == q - y
  {
  }

  /** The answers to the requests 75 and 25: at least two, ascending, the
      first one read by the first bucket covering 25. */
  lemma QuartileAnswers(data: seq<real>, sorted: seq<real>, out: seq<real>)
    requires Percentile(data, [75, 25]) == Ok((sorted, out))
    ensures |out| >= 2
    ensures FirstBucket(25, 100 / |data|) < |sorted| == |data|
    ensures out[0] == sorted[FirstBucket(25, 100 / |data|)]
    ensures out[0] <= out[1] && out[1] in data
  {
    QuartileCount(data, sorted, out);
    QuartileFirst(data, sorted, out);
  }

  lemma QuartileCount(data: seq<real>, sorted: seq<real>, out: seq<real>)
    requires Percentile(data, [75, 25]) == Ok((sorted, out))
    ensures |out| >= 2
  {
    PercentileAnswersEveryRequest(data, [75, 25]);
    assert Hits([75, 25], 0, 100) == 2;
  }

  lemma QuartileFirst(data: seq<real>, sorted: seq<real>, out: seq<real>)
    requires Percentile(data, [75, 25]) == Ok((sorted, out))
    ensures FirstBucket(25, 100 / |data|) < |sorted| == |data|
    ensures |out| > 0 && out[0] == sorted[FirstBucket(25, 100 / |data|)]
  {
    BucketsFirst(sorted, [75, 25], 25, 100 / |data|, 0, false);
  }

  // ---------------------------------------------------------------- order of the requests

  lemma {:induction false} HitsAppend(a: seq<int>, b: seq<int>, lo: int, hi: int)
    ensures Hits(a + b, lo, hi) == Hits(a, lo, hi) + Hits(b, lo, hi)
    decreases |a|
  {
    if |a| > 0 {
      assert (a + b)[1..] == a[1..] + b;
      HitsAppend(a[1..], b, lo, hi);
    } else {
      assert a + b == b;
    }
  }

  /** The count of hit requests does not depend on their order. */
  lemma {:induction false} HitsIgnoresOrder(a: seq<int>, b: seq<int>, lo: int, hi: int)
    requires multiset(a) == multiset(b)
    ensures Hits(a, lo, hi) == Hits(b, lo, hi)
    decreases |a|
  {
    assert |a| == |multiset(a)| == |multiset(b)| == |b|;
    if |a| > 0 {
      var front, x := a[..|a| - 1], a[|a| - 1];
      var k := RemoveOne(a, b);
      HitsIgnoresOrder(front, b[..k] + b[k + 1..], lo, hi);
      assert a == front + [x];
      HitsAppend(front, [x], lo, hi);
      assert b == b[..k] + [x] + b[k + 1..];
      HitsAppend(b[..k] + [x], b[k + 1..], lo, hi);
      HitsAppend(b[..k], [x], lo, hi);
      HitsAppend(b[..k], b[k + 1..], lo, hi);
    }
  }

  lemma {:induction false} BucketsAgree(sorted: seq<real>, p1: seq<int>, p2: seq<int>, step: nat, b: nat, clamp: bool)
    requires step > 0 && (clamp ==> |sorted| > 0)
    requires multiset(p1) == multiset(p2)
    ensures Buckets(sorted, p1, step, b, clamp) == Buckets(sorted, p2, step, b, clamp)
    decreases 100 - b * step
  {
    if b * step < 100 {
      HitsIgnoresOrder(p1, p2, b * step, b * step + step);
      assert (b + 1) * step == b * step + step;
      BucketsAgree(sorted, p1, p2, step, b + 1, clamp);
    }
  }

  /** Percentile(data, 75, 25) and Percentile(data, 25, 75) are the same
      call: the answers come out in bucket order, not in request order. */
  lemma PercentileIgnoresRequestOrder(data: seq<real>, p1: seq<int>, p2: seq<int>)
    requires multiset(p1) == multiset(p2)
    ensures Percentile(data, p1) == Percentile(data, p2)
  {
    assert 0 in p1 <==> 0 in multiset(p1);
    assert 0 in p2 <==> 0 in multiset(p2);
    if 1 <= |data| <= 100 {
      BucketsAgree(Sort(data), p1, p2, 100 / |data|, 0, false);
    }
  }

  // ---------------------------------------------------------------- corrected percentiles

  /** A bucket width of at least 1, so that the loop always advances. */
  function ClampedStep(n: nat): (step: nat)
    requires n > 0
    ensures step > 0
    ensures n <= 100 ==> step == 100 / n
  {
    if 100 / n == 0 then 1 else 100 / n
  }

  /** Percentile as evidently intended: the loop always advances and a
      bucket past the end reads the last value, so every non-empty data set
      has an answer. Empty data still divides by zero. */
  function PercentileClamped(data: seq<real>, prec: seq<int>): (r: Result<(seq<real>, seq<real>)>)
    ensures r.Ok? <==> |data| > 0
    ensures r.Fail? ==> r.failure == IntegerDivideByZero
    ensures r.Ok? ==> && r.value.0 == Sort(data)
                      && Sorted(r.value.1)
                      && forall j :: 0 <= j < |r.value.1| ==> r.value.1[j] in data
  {
    var sorted := Sort(data);
    if |sorted| == 0 then Fail(IntegerDivideByZero)
    else
      var step := ClampedStep(|sorted|);
      var out := Buckets(sorted, prec, step, 0, true).value;
      BucketsSorted(sorted, prec, step, 0, true);
      SameElements(sorted, data);
      Ok((sorted, out))
  }

  lemma {:induction false} BucketsClampAgree(sorted: seq<real>, prec: seq<int>, step: nat, b: nat)
    requires step > 0 && |sorted| > 0
    requires Buckets(sorted, prec, step, b, false).Ok?
    ensures Buckets(sorted, prec, step, b, true) == Buckets(sorted, prec, step, b, false)
    decreases 100 - b * step
  {
    if b * step < 100 {
      BucketsStep(sorted, prec, step, b, false);
      BucketsStep(sorted, prec, step, b, true);
      assert (b + 1) * step == b * step + step;
      BucketsClampAgree(sorted, prec, step, b + 1);
    }
  }

  /** The correction changes nothing where Percentile answers. */
  lemma ClampedAgrees(data: seq<real>, prec: seq<int>)
    requires Percentile(data, prec).Ok?
    ensures PercentileClamped(data, prec) == Percentile(data, prec)
  {
    BucketsClampAgree(Sort(data), prec, 100 / |data|, 0);
  }

  /** The value the first bucket covering p reads, clamped to the last. */
  function ClampedValue(sorted: seq<real>, p: nat): real
    requires |sorted| > 0
  {
    sorted[ReadIndex(|sorted|, FirstBucket(p, ClampedStep(|sorted|)), true)]
  }

  /** A single request p in [0, 100] is answered first with its clamped
      value. */
  lemma ClampedOfOne(data: seq<real>, p: nat)
    requires |data| > 0 && p <= 100
    ensures var out := PercentileClamped(data, [p]).value.1;
            |out| > 0 && out[0] == ClampedValue(Sort(data), p)
  {
    BucketsFirst(Sort(data), [p], p, ClampedStep(|data|), 0, true);
  }

  /** A larger percentage never reads an earlier position. */
  lemma ClampedMonotone(sorted: seq<real>, p: nat, q: nat)
    requires |sorted| > 0 && Sorted(sorted)
    requires p <= q
    ensures ClampedValue(sorted, p) <= ClampedValue(sorted, q)
  {
    var step := ClampedStep(|sorted|);
    var bp, bq := FirstBucket(p, step), FirstBucket(q, step);
    assert bq < bp ==> bq * step + step < p;
  }

  /** The interquartile range as evidently intended: the answer for 75 minus
      the answer for 25, from separate requests so that each is read where
      its own first bucket is. It is never negative. */
  function IQRCorrected(data: seq<real>): (r: Result<real>)
    ensures r.Ok? <==> |data| > 0
    ensures r.Fail? ==> r.failure == IntegerDivideByZero
    ensures r.Ok? ==> r.value == ClampedValue(Sort(data), 75) - ClampedValue(Sort(data), 25)
    ensures r.Ok? ==> r.value >= 0.0
  {
    if |data| == 0 then Fail(IntegerDivideByZero)
    else
      ClampedOfOne(data, 75);
      ClampedOfOne(data, 25);
      ClampedMonotone(Sort(data), 25, 75);
      var q3 := PercentileClamped(data, [75]).value.1;
      var q1 := PercentileClamped(data, [25]).value.1;
      Ok(q3[0] - q1[0])
  }

  // ---------------------------------------------------------------- examples

  /** On sorted data that the buckets answer, Percentile leaves the data as
      it is and answers with the buckets from 0 on. */
  lemma PercentileOfSorted(data: seq<real>, prec: seq<int>)
    requires Sorted(data) && 1 <= |data| <= 100
    requires Buckets(data, prec, 100 / |data|, 0, false).Ok?
    ensures Percentile(data, prec) == Ok((data, Buckets(data, prec, 100 / |data|, 0, false).value))
  {
    SortKeepsSorted(data);
  }

  /** A bucket that covers one request emits one value; one that covers
      none emits nothing. */
  lemma EmittedOnce(sorted: seq<real>, prec: seq<int>, step: nat, b: nat)
    requires b < |sorted|
    requires Hits(prec, b * step, b * step + step) <= 1
    ensures Emitted(sorted, prec, step, b, false)
            == if Hits(prec, b * step, b * step + step) == 0 then [] else [sorted[b]]
  {
  }

  /** The median of five values is the third smallest. */
  lemma MedianOfFive(data: seq<real>)
    requires |data| == 5
    ensures Median(data) == Ok((Sort(data), Sort(data)[2]))
  {
    assert 100 / |data| == 20;
    assert FirstBucket(50, 20) == 2;
  }

  /** The package's percentile and median test data: both give 11. */
  lemma PercentileTestExample(data: seq<real>)
    requires |data| == 5
    requires data[0] == 1.0 && data[1] == 10.0 && data[2] == 11.0 && data[3] == 15.0 && data[4] == 19.0
    ensures Percentile(data, [50]).Ok? && |Percentile(data, [50]).value.1| > 0
    ensures Percentile(data, [50]).value.1[0] == 11.0
    ensures Median(data) == Ok((data, 11.0))
  {
    assert Sorted(data);
    SortKeepsSorted(data);
    MedianOfFive(data);
    MedianAnswered(data);
  }

  /** A request on the boundary of two buckets is answered twice: 40 lies in
      the buckets [20, 40] and [40, 60] of five values, so the second and
      the third smallest both answer it. */
  lemma BoundaryAnsweredTwice(data: seq<real>)
    requires |data| == 5 && Sorted(data)
    ensures Percentile(data, [40]) == Ok((data, [data[1], data[2]]))
  {
    assert 100 / |data| == 20;
    FortyOfFive(data);
    PercentileOfSorted(data, [40]);
  }

  lemma FortyOfFive(sorted: seq<real>)
    requires |sorted| == 5
    ensures Buckets(sorted, [40], 20, 0, false) == Ok([sorted[1], sorted[2]])
  {
    EmissionsOfFive(sorted, [40], 20);
    EmittedOnce(sorted, [40], 20, 0);
    EmittedOnce(sorted, [40], 20, 1);
    EmittedOnce(sorted, [40], 20, 2);
    EmittedOnce(sorted, [40], 20, 3);
    EmittedOnce(sorted, [40], 20, 4);
    assert [] + ([sorted[1]] + ([sorted[2]] + ([] + []))) == [sorted[1], sorted[2]];
  }

  /** The buckets of five values, unrolled. */
  lemma EmissionsOfFive(sorted: seq<real>, prec: seq<int>, step: nat)
    requires |sorted| == 5 && step == 20
    ensures Buckets(sorted, prec, step, 0, false)
            == Ok(Emitted(sorted, prec, step, 0, false) + (Emitted(sorted, prec, step, 1, false) + (Emitted(sorted, prec, step, 2, false)
                  + (Emitted(sorted, prec, step, 3, false) + Emitted(sorted, prec, step, 4, false)))))
  {
    forall c: nat ensures !Overrun(5, prec, step, c) {
      assert c >= 5 ==> c * step >= 100;
    }
    OverrunsMeans(5, prec, step, 0);
    BucketsStep(sorted, prec, step, 0, false);
    BucketsStep(sorted, prec, step, 1, false);
    BucketsStep(sorted, prec, step, 2, false);
    BucketsStep(sorted, prec, step, 3, false);
    BucketsStep(sorted, prec, step, 4, false);
    var e4 := Emitted(sorted, prec, step, 4, false);
    assert Buckets(sorted, prec, step, 4, false).value == e4 + [] == e4;
  }

  /** Of five sorted values, IQR subtracts the fourth from the second. */
  lemma IQROfFive(data: seq<real>)
    requires |data| == 5 && Sorted(data)
    ensures IQR(data) == Ok((data, data[1] - data[3]))
  {
    assert 100 / |data| == 20;
    QuartileBuckets(data);
    PercentileOfSorted(data, [75, 25]);
  }

  lemma QuartilesOfFive(sorted: seq<real>, prec: seq<int>, step: nat)
    requires |sorted| == 5 && step == 20
    requires Hits(prec, 0, 20) == 0 && Hits(prec, 20, 40) == 1 && Hits(prec, 40, 60) == 0
    requires Hits(prec, 60, 80) == 1 && Hits(prec, 80, 100) == 0
    ensures Buckets(sorted, prec, step, 0, false) == Ok([sorted[1], sorted[3]])
  {
    EmissionsOfFive(sorted, prec, step);
    EmittedOnce(sorted, prec, step, 0);
    EmittedOnce(sorted, prec, step, 1);
    EmittedOnce(sorted, prec, step, 2);
    EmittedOnce(sorted, prec, step, 3);
    EmittedOnce(sorted, prec, step, 4);
    assert [] + ([sorted[1]] + ([] + ([sorted[3]] + []))) == [sorted[1], sorted[3]];
  }

  lemma QuartileBuckets(sorted: seq<real>)
    requires |sorted| == 5
    ensures Buckets(sorted, [75, 25], 20, 0, false) == Ok([sorted[1], sorted[3]])
  {
    QuartileHits([75, 25]);
    QuartilesOfFive(sorted, [75, 25], 20);
  }

  /** Of the buckets of width 20, the second covers 25 and the fourth 75. */
  lemma QuartileHits(prec: seq<int>)
    requires prec == [75, 25]
    ensures Hits(prec, 0, 20) == 0 && Hits(prec, 20, 40) == 1 && Hits(prec, 40, 60) == 0
    ensures Hits(prec, 60, 80) == 1 && Hits(prec, 80, 100) == 0
  {
  }

  /** `IQR([1, 2, 3, 4, 5])` is -2: the 25th percentile 2 minus the 75th
      percentile 4. */
  lemma IQRExample(data: seq<real>)
    requires |data| == 5 && forall i :: 0 <= i < 5 ==> data[i] == (i + 1) as real
    ensures IQR(data) == Ok((data, -2.0))
  {
    assert Sorted(data);
    IQROfFive(data);
  }

  /** The corrected IQR of the same data is 4 - 2. */
  lemma IQRCorrectedExample(data: seq<real>)
    requires |data| == 5 && forall i :: 0 <= i < 5 ==> data[i] == (i + 1) as real
    ensures IQRCorrected(data) == Ok(2.0)
  {
    assert Sorted(data);
    IQRCorrectedOfFive(data);
  }

  /** Of five sorted values, the corrected IQR subtracts the second from
      the fourth. */
  lemma IQRCorrectedOfFive(data: seq<real>)
    requires |data| == 5 && Sorted(data)
    ensures IQRCorrected(data) == Ok(data[3] - data[1])
  {
    SortKeepsSorted(data);
    ClampedQuartilesOfFive(data);
  }

  lemma ClampedQuartilesOfFive(sorted: seq<real>)
    requires |sorted| == 5
    ensures ClampedValue(sorted, 75) == sorted[3] && ClampedValue(sorted, 25) == sorted[1]
  {
    assert ClampedStep(5) == 20;
    assert FirstBucket(75, 20) == 3 && FirstBucket(25, 20) == 1;
  }

  /** Asking for 100 of any three values reads a fourth value: the buckets
      of width 33 start at 0, 33, 66 and 99, and the last covers 100. */
  lemma PercentilePastEnd(data: seq<real>)
    requires |data| == 3
    ensures Percentile(data, [100]) == Fail(IndexOutOfRange)
  {
    assert Hits([100], 99, 132) == 1;
    assert Overrun(3, [100], 33, 3);
    OverrunsMeans(3, [100], 33, 0);
  }

  /** The corrected percentile answers 100 with the largest value. */
  lemma PercentileClampedPastEnd(data: seq<real>)
    requires |data| == 3 && forall i :: 0 <= i < 3 ==> data[i] == (i + 1) as real
    ensures |PercentileClamped(data, [100]).value.1| > 0
    ensures PercentileClamped(data, [100]).value.1[0] == 3.0
  {
    assert Sorted(data);
    SortKeepsSorted(data);
    ClampedOfOne(data, 100);
    assert FirstBucket(100, 33) == 3;
  }

  /** The median of more than 100 values never returns, while the
      corrected percentile answers it. */
  lemma MedianOfManyNeverReturns(data: seq<real>)
    requires |data| > 100
    ensures Median(data) == Fail(NonTermination)
    ensures PercentileClamped(data, [50]).Ok?
  {
  }
}
