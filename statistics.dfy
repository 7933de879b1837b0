/** Statistics of the `lived_days` column and of the truncated years: the
    frequency of each age, the weights built from it, and mean, weighted
    mean, median, mode, maximum and minimum. A statistic that pandas reports
    as NaN for an empty column is `None`. */
module Statistics {
  import opened Basics
  import opened Sorting

  function Sum(s: seq<int>): int {
    if s == [] then 0 else s[0] + Sum(s[1..])
  }

  /** How many times `y` occurs in `s`. */
  function Occurrences(s: seq<int>, y: int): (n: nat)
    ensures n <= |s|
    ensures n > 0 <==> y in s
  {
    if s == [] then 0
    else (if s[0] == y then 1 else 0) + Occurrences(s[1..], y)
  }

  /** The count agrees with the multiplicity of `y` in the multiset of `s`. */
  lemma {:induction false} OccurrencesIsMultiplicity(s: seq<int>, y: int)
    ensures Occurrences(s, y) == multiset(s)[y]
  {
    if s != [] {
      assert s == [s[0]] + s[1..];
      OccurrencesIsMultiplicity(s[1..], y);
    }
  }

  /** `value_counts()`: each distinct value with the number of its occurrences. */
  function ValueCounts(years: seq<int>): (counts: map<int, nat>)
    ensures forall y :: y in counts <==> y in years
    ensures forall y | y in counts :: counts[y] == Occurrences(years, y) && counts[y] >= 1
  {
    map y | y in years :: Occurrences(years, y)
  }

  /** For each element of `u`, how often it occurs in `t`. */
  function CountsOf(u: seq<int>, t: seq<int>): (r: seq<int>)
    ensures |r| == |u|
    ensures forall i :: 0 <= i < |u| ==> r[i] == Occurrences(t, u[i])
  {
    if u == [] then [] else [Occurrences(t, u[0])] + CountsOf(u[1..], t)
  }

  /** The weight of each row: the number of rows sharing its truncated year. */
  function Weights(years: seq<int>): seq<int> {
    CountsOf(years, years)
  }

  /** The loop that appends `value_counts[year]` for every row, in order. */
  method ComputeWeights(years: seq<int>) returns (weights: seq<int>)
    ensures |weights| == |years|
    ensures forall i :: 0 <= i < |years| ==> weights[i] == Occurrences(years, years[i]) && weights[i] >= 1
  {
    var counts := ValueCounts(years);
    weights := [];
    for i := 0 to |years|
      invariant |weights| == i
      invariant forall k :: 0 <= k < i ==> weights[k] == Occurrences(years, years[k]) && weights[k] >= 1
    {
      var year := years[i];
      weights := weights + [counts[year]];
    }
  }

  /** `s` without any occurrence of `y`, other elements in order. */
  function RemoveAll(s: seq<int>, y: int): (r: seq<int>)
    ensures |r| <= |s|
    ensures y in s ==> |r| < |s|
    ensures forall x :: Occurrences(r, x) == if x == y then 0 else Occurrences(s, x)
  {
    if s == [] then []
    else if s[0] == y then RemoveAll(s[1..], y)
    else [s[0]] + RemoveAll(s[1..], y)
  }

  /** The sum of the squared count of every distinct value of `s`. */
  function SquaredCounts(s: seq<int>): int
    decreases |s|
  {
    if s == [] then 0
    else
      var c := Occurrences(s, s[0]);
      c * c + SquaredCounts(RemoveAll(s, s[0]))
  }

  /** The counts over `u` split into those of one value `y` and the rest. */
  lemma {:induction false} CountsSplit(u: seq<int>, t: seq<int>, y: int)
    ensures Sum(CountsOf(u, t)) == Occurrences(u, y) * Occurrences(t, y) + Sum(CountsOf(RemoveAll(u, y), t))
  {
    if u != [] {
      CountsSplit(u[1..], t, y);
      var a, b := Occurrences(u[1..], y), Occurrences(t, y);
      var r := RemoveAll(u[1..], y);
      assert Sum(CountsOf(u, t)) == Occurrences(t, u[0]) + Sum(CountsOf(u[1..], t));
      if u[0] == y {
        assert RemoveAll(u, y) == r;
        assert Occurrences(u, y) == a + 1;
        MulSuccessor(a, b);
      } else {
        assert RemoveAll(u, y) == [u[0]] + r;
        assert ([u[0]] + r)[1..] == r;
        assert Sum(CountsOf([u[0]] + r, t)) == Occurrences(t, u[0]) + Sum(CountsOf(r, t));
        assert Occurrences(u, y) == a;
      }
    }
  }

  lemma MulSuccessor(a: int, b: int)
    ensures (a + 1) * b == a * b + b
  {
  }

  /** Counting the elements of `u` in two sequences that agree on them gives the same sums. */
  lemma {:induction false} CountsAgree(u: seq<int>, t: seq<int>, t': seq<int>)
    requires forall x :: x in u ==> Occurrences(t, x) == Occurrences(t', x)
    ensures Sum(CountsOf(u, t)) == Sum(CountsOf(u, t'))
  {
    if u != [] {
      CountsAgree(u[1..], t, t');
    }
  }

  /** The weights add up to the sum of the squared year counts: every value
      with count c contributes c rows of weight c. */
  lemma {:induction false} WeightTotal(years: seq<int>)
    ensures Sum(Weights(years)) == SquaredCounts(years)
    decreases |years|
  {
    if years != [] {
      var y := years[0];
      var rest := RemoveAll(years, y);
      CountsSplit(years, years, y);
      forall x | x in rest
        ensures Occurrences(years, x) == Occurrences(rest, x)
      {
        assert Occurrences(rest, x) > 0;
      }
      CountsAgree(rest, years, rest);
      WeightTotal(rest);
    }
  }

  /** Years 50, 50 and 80 give the weights 2, 2 and 1. */
  lemma WeightsExample()
    ensures Weights([50, 50, 80]) == [2, 2, 1]
  {
    assert [50, 50, 80][1..] == [50, 80];
    assert [50, 80][1..] == [80];
  }

  /** Σ wᵢ·dᵢ */
  function WeightedSum(w: seq<int>, d: seq<int>): int
    requires |w| == |d|
  {
    if w == [] then 0 else w[0] * d[0] + WeightedSum(w[1..], d[1..])
  }

  function Maximum(s: seq<int>): (m: int)
    requires |s| > 0
    ensures m in s
    ensures forall x :: x in s ==> x <= m
  {
    if |s| == 1 then s[0]
    else
      var rest := Maximum(s[1..]);
      assert s == [s[0]] + s[1..];
      if s[0] >= rest then s[0] else rest
  }

  function Minimum(s: seq<int>): (m: int)
    requires |s| > 0
    ensures m in s
    ensures forall x :: x in s ==> m <= x
  {
    if |s| == 1 then s[0]
    else
      var rest := Minimum(s[1..]);
      assert s == [s[0]] + s[1..];
      if s[0] <= rest then s[0] else rest
  }

  /** `max()`, NaN for an empty column. */
  function MaxOf(days: seq<int>): Option<int> {
    if |days| == 0 then None else Some(Maximum(days))
  }

  /** `min()`, NaN for an empty column. */
  function MinOf(days: seq<int>): Option<int> {
    if |days| == 0 then None else Some(Minimum(days))
  }

  /** `mean()`, NaN for an empty column. */
  function Mean(days: seq<int>): Option<real> {
    if |days| == 0 then None else Some(Sum(days) as real / |days| as real)
  }

  /** `weighted_values.sum() / weights.sum()`: NaN (zero over zero) when
      there are no weights. */
  function WeightedMean(weights: seq<int>, days: seq<int>): Option<real>
    requires |weights| == |days|
  {
    var total := Sum(weights);
    if total == 0 then None else Some(WeightedSum(weights, days) as real / total as real)
  }

  function Identity(x: int): int {
    x
  }

  /** `median()`: the middle value of the sorted column, or the mean of the
      two middle values when there is an even number of them. */
  function Median(days: seq<int>): Option<real> {
    if |days| == 0 then None
    else
      var sorted := SortBy(days, Identity, false);
      var n := |sorted|;
      if n % 2 == 1 then Some(sorted[n / 2] as real)
      else Some((sorted[n / 2 - 1] + sorted[n / 2]) as real / 2.0)
  }

  /** A value with the highest count in `s`. */
  function MostFrequent(s: seq<int>): (y: int)
    requires |s| > 0
    ensures y in s
    ensures forall z :: Occurrences(s, z) <= Occurrences(s, y)
  {
    MostFrequentAmong(s, s)
  }

  function MostFrequentAmong(u: seq<int>, s: seq<int>): (y: int)
    requires |u| > 0
    ensures y in u
    ensures forall x :: x in u ==> Occurrences(s, x) <= Occurrences(s, y)
  {
    if |u| == 1 then u[0]
    else
      var rest := MostFrequentAmong(u[1..], s);
      assert u == [u[0]] + u[1..];
      if Occurrences(s, u[0]) >= Occurrences(s, rest) then u[0] else rest
  }

  /** The values in [lo, hi], ascending, that occur exactly `c` times in `s`. */
  function ValuesWithCount(s: seq<int>, lo: int, hi: int, c: nat): (r: seq<int>)
    ensures forall i, j :: 0 <= i < j < |r| ==> r[i] < r[j]
    ensures forall y :: y in r <==> lo <= y <= hi && Occurrences(s, y) == c
    decreases hi - lo
  {
    if lo > hi then []
    else
      var rest := ValuesWithCount(s, lo + 1, hi, c);
      assert forall j :: 0 <= j < |rest| ==> rest[j] in rest && lo < rest[j];
      if Occurrences(s, lo) == c then [lo] + rest else rest
  }

  /** `mode()` of the truncated years: every value with the highest count,
      ascending, and nothing else; empty for an empty column. */
  function Mode(years: seq<int>): (m: seq<int>)
    ensures forall i, j :: 0 <= i < j < |m| ==> m[i] < m[j]
    ensures forall y :: y in m <==> y in years && forall z :: Occurrences(years, z) <= Occurrences(years, y)
  {
    if |years| == 0 then []
    else
      var top := MostFrequent(years);
      ModesHaveTopCount(years, top);
      ValuesWithCount(years, Minimum(years), Maximum(years), Occurrences(years, top))
  }

  /** With `top` a most frequent value, the values between the extremes that
      share its count are exactly the values no other value outnumbers. */
  lemma ModesHaveTopCount(years: seq<int>, top: int)
    requires |years| > 0 && top in years
    requires forall z :: Occurrences(years, z) <= Occurrences(years, top)
    ensures forall y ::
      (Minimum(years) <= y <= Maximum(years) && Occurrences(years, y) == Occurrences(years, top))
      <==> (y in years && forall z :: Occurrences(years, z) <= Occurrences(years, y))
  {
    forall y
      ensures (Minimum(years) <= y <= Maximum(years) && Occurrences(years, y) == Occurrences(years, top))
        <==> (y in years && forall z :: Occurrences(years, z) <= Occurrences(years, y))
    {
      if y in years && forall z :: Occurrences(years, z) <= Occurrences(years, y) {
        assert Occurrences(years, top) <= Occurrences(years, y);
      }
    }
  }

  /** `mode() * 365`: the mode years as day counts. */
  function ModeDays(years: seq<int>): (r: seq<int>)
    ensures |r| == |Mode(years)|
    ensures forall i, j :: 0 <= i < j < |r| ==> r[i] < r[j]
    ensures forall i :: 0 <= i < |r| ==> r[i] == Mode(years)[i] * 365
    ensures forall y :: y in Mode(years) <==> y * 365 in r
  {
    var m := Mode(years);
    var r := seq(|m|, i requires 0 <= i < |m| => m[i] * 365);
    ScaledMembership(m, r);
    r
  }

  lemma ScaledMembership(m: seq<int>, r: seq<int>)
    requires |r| == |m| && forall i :: 0 <= i < |m| ==> r[i] == m[i] * 365
    ensures forall y :: y in m <==> y * 365 in r
  {
    forall y
      ensures y in m <==> y * 365 in r
    {
      if y * 365 in r {
        var i :| 0 <= i < |r| && r[i] == y * 365;
        assert m[i] == y;
      }
      if y in m {
        var i :| 0 <= i < |m| && m[i] == y;
        assert r[i] == y * 365;
      }
    }
  }

  /** The six statistics of the script. */
  datatype Summary = Summary(
    mean: Option<real>,
    weightedMean: Option<real>,
    median: Option<real>,
    modeDays: seq<int>,
    maximum: Option<int>,
    minimum: Option<int>)

  /** What lines 77-92 compute from the day column and the truncated years. */
  function Summarize(days: seq<int>, years: seq<int>): Summary
    requires |days| == |years|
  {
    Summary(Mean(days), WeightedMean(Weights(years), days), Median(days),
            ModeDays(years), MaxOf(days), MinOf(days))
  }

  /** The statistics block of the script, building the weights with its loop. */
  method ComputeStatistics(days: seq<int>, years: seq<int>) returns (summary: Summary)
    requires |days| == |years|
    ensures summary == Summarize(days, years)
  {
    var weights := ComputeWeights(years);
    assert weights == Weights(years);
    summary := Summary(Mean(days), WeightedMean(weights, days), Median(days),
                       ModeDays(years), MaxOf(days), MinOf(days));
  }

  /** n·lo ≤ Σ d ≤ n·hi when every d lies in [lo, hi]. */
  lemma {:induction false} SumBounds(s: seq<int>, lo: int, hi: int)
    requires forall x :: x in s ==> lo <= x <= hi
    ensures |s| * lo <= Sum(s) <= |s| * hi
  {
    if s != [] {
      assert forall x :: x in s[1..] ==> x in s;
      SumBounds(s[1..], lo, hi);
      assert s[0] in s;
      Distribute(1, |s| - 1, lo);
      Distribute(1, |s| - 1, hi);
    }
  }

  /** (Σ w)·lo ≤ Σ w·d ≤ (Σ w)·hi for non-negative weights. */
  lemma {:induction false} WeightedSumBounds(w: seq<int>, d: seq<int>, lo: int, hi: int)
    requires |w| == |d|
    requires forall i :: 0 <= i < |w| ==> w[i] >= 0
    requires forall x :: x in d ==> lo <= x <= hi
    ensures Sum(w) * lo <= WeightedSum(w, d) <= Sum(w) * hi
  {
    if w != [] {
      assert forall x :: x in d[1..] ==> x in d;
      WeightedSumBounds(w[1..], d[1..], lo, hi);
      assert d[0] in d;
      var rest := Sum(w[1..]);
      assert Sum(w) == w[0] + rest;
      ScaledBetween(w[0], d[0], lo, hi);
      Distribute(w[0], rest, lo);
      Distribute(w[0], rest, hi);
    }
  }

  lemma ScaledBetween(a: int, x: int, lo: int, hi: int)
    requires a >= 0 && lo <= x <= hi
    ensures a * lo <= a * x <= a * hi
  {
    assert a * x - a * lo == a * (x - lo);
    assert a * hi - a * x == a * (hi - x);
  }

  lemma Distribute(a: int, b: int, c: int)
    ensures (a + b) * c == a * c + b * c
  {
  }

  lemma RatioBounds(a: int, n: int, lo: int, hi: int)
    requires n > 0 && n * lo <= a <= n * hi
    ensures lo as real <= a as real / n as real <= hi as real
  {
    var q := a as real / n as real;
    assert q * n as real == a as real;
    assert (n * lo) as real == n as real * lo as real;
    assert (n * hi) as real == n as real * hi as real;
  }

  /** Weights built from year counts are positive, so they add up to more than zero. */
  lemma {:induction false} PositiveWeightsSum(w: seq<int>)
    requires forall i :: 0 <= i < |w| ==> w[i] >= 1
    ensures Sum(w) >= |w|
  {
    if w != [] {
      PositiveWeightsSum(w[1..]);
    }
  }

  /** Mean, weighted mean and median of a non-empty column lie between its
      minimum and maximum; all of them are NaN for an empty column. */
  lemma CentralValuesBounded(days: seq<int>, years: seq<int>)
    requires |days| == |years|
    ensures |days| == 0 ==> Summarize(days, years) == Summary(None, None, None, [], None, None)
    ensures |days| > 0 ==>
      var s := Summarize(days, years);
      var lo, hi := Minimum(days) as real, Maximum(days) as real;
      && s.mean.Some? && lo <= s.mean.value <= hi
      && s.weightedMean.Some? && lo <= s.weightedMean.value <= hi
      && s.median.Some? && lo <= s.median.value <= hi
  {
    if |days| > 0 {
      var lo, hi := Minimum(days), Maximum(days);
      SumBounds(days, lo, hi);
      RatioBounds(Sum(days), |days|, lo, hi);
      var w := Weights(years);
      PositiveWeightsSum(w);
      WeightedSumBounds(w, days, lo, hi);
      RatioBounds(WeightedSum(w, days), Sum(w), lo, hi);
      var sorted := SortBy(days, Identity, false);
      var n := |sorted|;
      assert sorted[n / 2] in multiset(days);
      assert sorted[n / 2] in days;
      if n % 2 == 0 {
        assert sorted[n / 2 - 1] in multiset(days);
        assert sorted[n / 2 - 1] in days;
      }
    } else {
      assert Mode(years) == [];
    }
  }

  /** The weights of truncated years 50, 50 and 80 (2, 2 and 1) applied to
      day counts 18262, 18263 and 29000 give (2·18262 + 2·18263 + 29000) / 5
      = 20410 days, while the plain mean is 21841.67 days. */
  lemma WeightedMeanExample()
    ensures WeightedMean(Weights([50, 50, 80]), [18262, 18263, 29000]) == Some(20410.0)
    ensures Mean([18262, 18263, 29000]) == Some(65525.0 / 3.0)
  {
    WeightsExample();
    assert [2, 2, 1][1..] == [2, 1] && [2, 1][1..] == [1];
    assert [18262, 18263, 29000][1..] == [18263, 29000] && [18263, 29000][1..] == [29000];
  }

  /** Two ages that occur equally often, more than any other, are both modes. */
  lemma ModeTie()
    ensures forall y :: y in Mode([50, 80, 50, 80, 60]) <==> y == 50 || y == 80
    ensures 50 * 365 in ModeDays([50, 80, 50, 80, 60]) && 80 * 365 in ModeDays([50, 80, 50, 80, 60])
  {
    var years := [50, 80, 50, 80, 60];
    assert years[1..] == [80, 50, 80, 60];
    assert years[1..][1..] == [50, 80, 60];
    assert years[1..][1..][1..] == [80, 60];
    assert years[1..][1..][1..][1..] == [60];
    forall z
      ensures Occurrences(years, z) == if z == 50 || z == 80 then 2 else if z == 60 then 1 else 0
    {
    }
    forall y
      ensures y in Mode(years) <==> y == 50 || y == 80
    {
      if y == 60 {
        assert Occurrences(years, 50) > Occurrences(years, y);
      }
    }
  }
}
