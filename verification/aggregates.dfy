/** The five aggregates of the statistics tool, over exact reals in place of
    Python floats: mean, median, mode, population variance and population
    standard deviation. The square root is a parameter of the model. */
module Aggregates {
  import opened Wrappers
  import Sorting
  import Frequency

  // ---------------------------------------------------------------------
  // Sums

  function SumBy(xs: seq<real>, f: real -> real): real {
    if xs == [] then 0.0 else f(xs[0]) + SumBy(xs[1..], f)
  }

  function Id(x: real): real {
    x
  }

  /** `sum(datos)`. */
  function Sum(xs: seq<real>): real {
    SumBy(xs, Id)
  }

  lemma ZeroProduct(a: real, b: real)
    requires a * b == 0.0
    ensures a == 0.0 || b == 0.0
  {
  }

  function Square(d: real): real {
    d * d
  }

  /** A square is non-negative, and zero only for zero. */
  lemma SquareFacts(d: real)
    ensures Square(d) >= 0.0
    ensures Square(d) == 0.0 <==> d == 0.0
  {
    if Square(d) == 0.0 {
      ZeroProduct(d, d);
    }
  }

  /** The squared distance from `m`. */
  function SquaredDeviation(m: real): real -> real {
    x => Square(x - m)
  }

  /** `sum((x - media) ** 2 for x in datos)`. */
  function SquaredDeviations(xs: seq<real>, m: real): real {
    SumBy(xs, SquaredDeviation(m))
  }

  lemma {:induction false} SumByRemove(s: seq<real>, k: nat, f: real -> real)
    requires k < |s|
    ensures SumBy(s, f) == f(s[k]) + SumBy(s[..k] + s[k + 1..], f)
  {
    if k > 0 {
      var t := s[1..];
      SumByRemove(t, k - 1, f);
      var restT := t[..k - 1] + t[k..];
      var rest := s[..k] + s[k + 1..];
      assert rest == [s[0]] + restT;
      assert SumBy(rest, f) == f(s[0]) + SumBy(restT, f);
      assert t[k - 1] == s[k];
    } else {
      assert s[..k] + s[k + 1..] == s[1..];
    }
  }

  /** A sum does not depend on the order of its terms. */
  lemma {:induction false} SumByPermutation(xs: seq<real>, ys: seq<real>, f: real -> real)
    requires multiset(xs) == multiset(ys)
    ensures SumBy(xs, f) == SumBy(ys, f)
    decreases |xs|
  {
    if xs != [] {
      var x := xs[0];
      assert x in multiset(xs);
      var k := Frequency.IndexOf(ys, x);
      var rest := ys[..k] + ys[k + 1..];
      RemoveAt(ys, k);
      assert xs == [x] + xs[1..];
      Cancel(multiset(xs[1..]), multiset(rest), x);
      SumByPermutation(xs[1..], rest, f);
      SumByRemove(ys, k, f);
      assert SumBy(xs, f) == f(x) + SumBy(xs[1..], f);
    }
  }

  /** Removing the element at `k` removes one copy of it from the multiset. */
  lemma RemoveAt(s: seq<real>, k: nat)
    requires k < |s|
    ensures multiset(s) == multiset(s[..k] + s[k + 1..]) + multiset{s[k]}
  {
    assert s == s[..k] + [s[k]] + s[k + 1..];
  }

  lemma Cancel(a: multiset<real>, b: multiset<real>, x: real)
    requires a + multiset{x} == b + multiset{x}
    ensures a == b
  {
    forall y
      ensures a[y] == b[y]
    {
      assert (a + multiset{x})[y] == (b + multiset{x})[y];
    }
  }

  /** A sum of terms that are each at least `lo` is at least `n * lo`. */
  lemma {:induction false} SumLowerBound(xs: seq<real>, lo: real)
    requires forall i :: 0 <= i < |xs| ==> lo <= xs[i]
    ensures (|xs| as real) * lo <= Sum(xs)
  {
    if xs != [] {
      SumLowerBound(xs[1..], lo);
    }
  }

  lemma {:induction false} SumUpperBound(xs: seq<real>, hi: real)
    requires forall i :: 0 <= i < |xs| ==> xs[i] <= hi
    ensures Sum(xs) <= (|xs| as real) * hi
  {
    if xs != [] {
      SumUpperBound(xs[1..], hi);
    }
  }

  /** A sum of non-negative terms is non-negative, and zero exactly when
      every term is. */
  lemma {:induction false} SumByNonNegative(xs: seq<real>, f: real -> real)
    requires forall i :: 0 <= i < |xs| ==> f(xs[i]) >= 0.0
    ensures SumBy(xs, f) >= 0.0
    ensures SumBy(xs, f) == 0.0 <==> forall i :: 0 <= i < |xs| ==> f(xs[i]) == 0.0
  {
    if xs != [] {
      SumByNonNegative(xs[1..], f);
      assert forall i :: 1 <= i < |xs| ==> xs[i] == xs[1..][i - 1];
    }
  }

  // ---------------------------------------------------------------------
  // Extremes

  function Min(xs: seq<real>): (m: real)
    requires |xs| > 0
    ensures m in xs
    ensures forall i :: 0 <= i < |xs| ==> m <= xs[i]
  {
    if |xs| == 1 then xs[0]
    else
      var rest := Min(xs[1..]);
      assert forall i :: 1 <= i < |xs| ==> xs[i] == xs[1..][i - 1];
      if xs[0] <= rest then xs[0] else rest
  }

  function Max(xs: seq<real>): (m: real)
    requires |xs| > 0
    ensures m in xs
    ensures forall i :: 0 <= i < |xs| ==> xs[i] <= m
  {
    if |xs| == 1 then xs[0]
    else
      var rest := Max(xs[1..]);
      assert forall i :: 1 <= i < |xs| ==> xs[i] == xs[1..][i - 1];
      if xs[0] >= rest then xs[0] else rest
  }

  // ---------------------------------------------------------------------
  // Mean

  /** `calcular_media`: the sum over the count, and 0 for no data. */
  function Mean(xs: seq<real>): (r: real)
    ensures |xs| > 0 ==> r * (|xs| as real) == Sum(xs)
    ensures |xs| == 0 ==> r == 0.0
  {
    if |xs| > 0 then Sum(xs) / (|xs| as real) else 0.0
  }

  /** The mean lies between the least and the greatest value. */
  lemma MeanBounds(xs: seq<real>)
    requires |xs| > 0
    ensures Min(xs) <= Mean(xs) <= Max(xs)
  {
    MeanAtLeast(xs, Min(xs));
    MeanAtMost(xs, Max(xs));
  }

  lemma MeanAtLeast(xs: seq<real>, lo: real)
    requires |xs| > 0 && forall i :: 0 <= i < |xs| ==> lo <= xs[i]
    ensures lo <= Mean(xs)
  {
    SumLowerBound(xs, lo);
    QuotientAtLeast(Sum(xs), |xs| as real, lo);
  }

  lemma MeanAtMost(xs: seq<real>, hi: real)
    requires |xs| > 0 && forall i :: 0 <= i < |xs| ==> xs[i] <= hi
    ensures Mean(xs) <= hi
  {
    SumUpperBound(xs, hi);
    QuotientAtMost(Sum(xs), |xs| as real, hi);
  }

  lemma QuotientAtLeast(a: real, n: real, lo: real)
    requires n > 0.0 && n * lo <= a
    ensures lo <= a / n
  {
  }

  lemma QuotientAtMost(a: real, n: real, hi: real)
    requires n > 0.0 && a <= n * hi
    ensures a / n <= hi
  {
  }

  /** Reordering the data does not change the mean. */
  lemma MeanPermutation(xs: seq<real>, ys: seq<real>)
    requires multiset(xs) == multiset(ys)
    ensures Mean(xs) == Mean(ys)
  {
    assert |xs| == |multiset(xs)| == |multiset(ys)| == |ys|;
    SumByPermutation(xs, ys, Id);
  }

  // ---------------------------------------------------------------------
  // Variance and standard deviation

  /** `calcular_varianza(datos, media)`: the population variance about the
      given mean, the squared deviations summed and divided by the count
      (not the count minus one), and 0 for no data. */
  function Variance(xs: seq<real>, m: real): (r: real)
    ensures |xs| > 0 ==> r * (|xs| as real) == SquaredDeviations(xs, m)
    ensures |xs| == 0 ==> r == 0.0
  {
    if |xs| > 0 then SquaredDeviations(xs, m) / (|xs| as real) else 0.0
  }

  lemma SquaredDeviationsFacts(xs: seq<real>, m: real)
    ensures SquaredDeviations(xs, m) >= 0.0
    ensures SquaredDeviations(xs, m) == 0.0 <==> forall i :: 0 <= i < |xs| ==> xs[i] == m
  {
    var f := SquaredDeviation(m);
    forall i | 0 <= i < |xs|
      ensures f(xs[i]) >= 0.0 && (f(xs[i]) == 0.0 <==> xs[i] == m)
    {
      SquareFacts(xs[i] - m);
    }
    SumByNonNegative(xs, f);
  }

  /** The variance is never negative, and it vanishes exactly when every
      value equals the mean it is taken about. */
  lemma VarianceNonNegative(xs: seq<real>, m: real)
    ensures Variance(xs, m) >= 0.0
    ensures Variance(xs, m) == 0.0 <==> forall i :: 0 <= i < |xs| ==> xs[i] == m
  {
    SquaredDeviationsFacts(xs, m);
    if |xs| > 0 {
      QuotientSign(SquaredDeviations(xs, m), |xs| as real);
    }
  }

  lemma QuotientSign(a: real, n: real)
    requires n > 0.0 && a >= 0.0
    ensures a / n >= 0.0
    ensures a / n == 0.0 <==> a == 0.0
  {
  }

  /** Reordering the data does not change the variance about a given mean. */
  lemma VariancePermutation(xs: seq<real>, ys: seq<real>, m: real)
    requires multiset(xs) == multiset(ys)
    ensures Variance(xs, m) == Variance(ys, m)
  {
    assert |xs| == |multiset(xs)| == |multiset(ys)| == |ys|;
    SumByPermutation(xs, ys, SquaredDeviation(m));
  }

  /** `calcular_desviacion_estandar(datos, media)`: it recomputes the
      population variance about the given mean by itself and takes its square
      root; that variance is the one `calcular_varianza` reports. */
  function StandardDeviation(xs: seq<real>, m: real, sqrt: real -> real): (r: real)
    ensures r == sqrt(Variance(xs, m))
  {
    sqrt(if |xs| > 0 then SquaredDeviations(xs, m) / (|xs| as real) else 0.0)
  }

  // ---------------------------------------------------------------------
  // Median

  /** The middle of an ascending sequence: the middle element for an odd
      length and the average of the two middle elements for an even one. */
  function Middle(s: seq<real>): (r: real)
    requires Sorting.Sorted(s) && |s| > 0
    ensures s[0] <= r <= s[|s| - 1]
    ensures |s| % 2 == 1 ==> r == s[|s| / 2]
  {
    var n := |s|;
    if n % 2 == 0 then (s[n / 2 - 1] + s[n / 2]) / 2.0 else s[n / 2]
  }

  /** `calcular_mediana`: the middle of the sorted data. With no data the
      source indexes position -1 of an empty list and raises; that case is
      `None`. */
  function Median(xs: seq<real>): (r: Option<real>)
    ensures r.Some? <==> |xs| > 0
  {
    if xs == [] then None
    else
      Some(Middle(Sorting.Sort(xs)))
  }

  /** The median lies between the least and the greatest value, and for an
      odd count it is one of the values. */
  lemma MedianBounds(xs: seq<real>)
    requires |xs| > 0
    ensures Min(xs) <= Median(xs).value <= Max(xs)
    ensures |xs| % 2 == 1 ==> Median(xs).value in xs
  {
    var s := Sorting.Sort(xs);
    var n := |s|;
    assert Median(xs).value == Middle(s);
    SortedElement(xs, s, 0);
    SortedElement(xs, s, n - 1);
    if n % 2 == 1 {
      SortedElement(xs, s, n / 2);
    }
  }

  /** An element of the sorted data is one of the data, so it lies between
      their least and greatest value. */
  lemma SortedElement(xs: seq<real>, s: seq<real>, k: nat)
    requires |xs| > 0 && multiset(s) == multiset(xs) && k < |s|
    ensures s[k] in xs && Min(xs) <= s[k] <= Max(xs)
  {
    assert s[k] in multiset(s);
    var i :| 0 <= i < |xs| && xs[i] == s[k];
  }

  /** Reordering the data does not change the median. */
  lemma MedianPermutation(xs: seq<real>, ys: seq<real>)
    requires multiset(xs) == multiset(ys)
    ensures Median(xs) == Median(ys)
  {
    assert |xs| == |multiset(xs)| == |multiset(ys)| == |ys|;
    Sorting.SortPermutation(xs, ys);
  }

  /** On data already in ascending order the median is read off directly. */
  lemma MedianOfSorted(xs: seq<real>)
    requires Sorting.Sorted(xs) && |xs| > 0
    ensures |xs| % 2 == 1 ==> Median(xs) == Some(xs[|xs| / 2])
    ensures |xs| % 2 == 0 ==> Median(xs) == Some((xs[|xs| / 2 - 1] + xs[|xs| / 2]) / 2.0)
  {
    Sorting.SortOfSorted(xs);
  }

  // ---------------------------------------------------------------------
  // Mode

  /** `calcular_moda`: tally the values in first-seen order and return the
      first key whose count equals the largest count. With no data `max()`
      of an empty sequence raises; that case is `None`. */
  function Mode(xs: seq<real>): (r: Option<real>)
    ensures r.Some? <==> |xs| > 0
    ensures r.Some? ==> r.value in xs
  {
    if xs == [] then None else Some(Frequency.MostFrequent(xs))
  }

  /** The mode has the highest frequency, and every value first seen before
      it occurs strictly less often: ties go to the earliest value, not the
      smallest. */
  lemma ModeIsFirstMostFrequent(xs: seq<real>)
    requires |xs| > 0
    ensures forall y :: y in xs ==> multiset(xs)[y] <= multiset(xs)[Mode(xs).value]
    ensures forall y :: y in xs && Frequency.IndexOf(xs, y) < Frequency.IndexOf(xs, Mode(xs).value)
                        ==> multiset(xs)[y] < multiset(xs)[Mode(xs).value]
  {
    Frequency.MostFrequentIsFirstMaximum(xs);
  }

  /** Unlike the other aggregates the mode depends on the order of the data:
      with every value equally frequent, the value seen first wins. */
  lemma ModeDependsOnOrder()
    ensures Mode([1.0, 2.0]) == Some(1.0)
    ensures Mode([2.0, 1.0]) == Some(2.0)
  {
    FirstSeenWinsTie(1.0, 2.0);
    FirstSeenWinsTie(2.0, 1.0);
  }

  lemma FirstSeenWinsTie(a: real, b: real)
    requires a != b
    ensures Mode([a, b]) == Some(a)
  {
    ModeIsFirstMostFrequent([a, b]);
  }

  // ---------------------------------------------------------------------
  // All five together

  /** One row of the statistics report, without the timing fields. */
  datatype Summary = Summary(count: nat, mean: real, median: real, mode: real,
                             sd: real, variance: real)

  /** The aggregates of `procesar_archivo`, computed in the same order; the
      variance and the standard deviation are both taken about the mean
      computed once before them. Empty data makes the median raise, so it
      gives `None`. */
  function Summarize(data: seq<real>, sqrt: real -> real): (r: Option<Summary>)
    ensures r.Some? <==> |data| > 0
    ensures r.Some? ==> r.value.count == |data|
                        && r.value.mean == Mean(data)
                        && r.value.variance == Variance(data, r.value.mean)
                        && r.value.sd == sqrt(r.value.variance)
                        && Median(data) == Some(r.value.median)
                        && Mode(data) == Some(r.value.mode)
  {
    var mean := Mean(data);
    match Median(data)
    case None => None
    case Some(median) =>
      match Mode(data)
      case None => None
      case Some(mode) =>
        Some(Summary(|data|, mean, median, mode, StandardDeviation(data, mean, sqrt), Variance(data, mean)))
  }

  /** Reordering the data changes none of the aggregates except possibly
      the mode, whose tie-break follows the order of first occurrence. */
  lemma SummaryPermutation(xs: seq<real>, ys: seq<real>, sqrt: real -> real)
    requires multiset(xs) == multiset(ys) && |xs| > 0
    ensures Summarize(xs, sqrt).Some? && Summarize(ys, sqrt).Some?
    ensures Summarize(xs, sqrt).value.mean == Summarize(ys, sqrt).value.mean
    ensures Summarize(xs, sqrt).value.median == Summarize(ys, sqrt).value.median
    ensures Summarize(xs, sqrt).value.variance == Summarize(ys, sqrt).value.variance
    ensures Summarize(xs, sqrt).value.sd == Summarize(ys, sqrt).value.sd
  {
    assert |xs| == |multiset(xs)| == |multiset(ys)| == |ys|;
    MeanPermutation(xs, ys);
    MedianPermutation(xs, ys);
    VariancePermutation(xs, ys, Mean(xs));
  }

  /** What a report row promises on any non-empty data: the mean and the
      median lie within the range of the data, the mode is one of the
      values, and the variance is non-negative, zero exactly when every
      value equals the mean. */
  lemma SummaryBounds(data: seq<real>, sqrt: real -> real)
    requires |data| > 0
    ensures Summarize(data, sqrt).Some?
    ensures Min(data) <= Summarize(data, sqrt).value.mean <= Max(data)
    ensures Min(data) <= Summarize(data, sqrt).value.median <= Max(data)
    ensures Summarize(data, sqrt).value.mode in data
    ensures Summarize(data, sqrt).value.variance >= 0.0
    ensures Summarize(data, sqrt).value.variance == 0.0 <==>
              forall i :: 0 <= i < |data| ==> data[i] == Summarize(data, sqrt).value.mean
  {
    MeanBounds(data);
    MedianBounds(data);
    VarianceNonNegative(data, Mean(data));
  }
}
