/**
 * The numpy statistics the baseline is made of (`np.nanmean`, `np.nanstd`,
 * `np.nanpercentile`, `min`, `max`), over the finite values of a column,
 * in exact real arithmetic.
 */
module Stats {
  import opened Sequences

  function Sum(xs: seq<real>): real
  {
    if |xs| == 0 then 0.0 else Sum(xs[..|xs| - 1]) + xs[|xs| - 1]
  }

  /** The smallest value (`x.min()`). */
  function Min(xs: seq<real>): (m: real)
    requires |xs| > 0
    ensures m in xs
    ensures forall i :: 0 <= i < |xs| ==> m <= xs[i]
  {
    if |xs| == 1 then xs[0]
    else
      var m' := Min(xs[..|xs| - 1]);
      if xs[|xs| - 1] < m' then xs[|xs| - 1] else m'
  }

  /** The largest value (`x.max()`). */
  function Max(xs: seq<real>): (m: real)
    requires |xs| > 0
    ensures m in xs
    ensures forall i :: 0 <= i < |xs| ==> xs[i] <= m
  {
    if |xs| == 1 then xs[0]
    else
      var m' := Max(xs[..|xs| - 1]);
      if xs[|xs| - 1] > m' then xs[|xs| - 1] else m'
  }

  /** The arithmetic mean (`np.nanmean` over the finite values), which lies in [min, max]. */
  function Mean(xs: seq<real>): (m: real)
    requires |xs| > 0
    ensures Min(xs) <= m <= Max(xs)
  {
    var t, n, lo, hi := Sum(xs), |xs| as real, Min(xs), Max(xs);
    SumBounds(xs, lo, hi);
    MeanBounds(t, n, lo, hi);
    t / n
  }

  /** A sum of values in [lo, hi] lies between `n * lo` and `n * hi`. */
  lemma {:induction false} SumBounds(xs: seq<real>, lo: real, hi: real)
    requires forall i :: 0 <= i < |xs| ==> lo <= xs[i] <= hi
    ensures (|xs| as real) * lo <= Sum(xs) <= (|xs| as real) * hi
  {
    if |xs| > 0 {
      SumBounds(xs[..|xs| - 1], lo, hi);
    }
  }

  /** Dividing bounds `n * lo <= t <= n * hi` by a positive `n`. */
  lemma MeanBounds(t: real, n: real, lo: real, hi: real)
    requires n > 0.0 && n * lo <= t <= n * hi
    ensures lo <= t / n <= hi
  {
    assert t / n - lo == (t - n * lo) / n;
    assert hi - t / n == (n * hi - t) / n;
  }

  function SquaredDeviations(xs: seq<real>, m: real): (r: real)
    ensures r >= 0.0
  {
    if |xs| == 0 then 0.0
    else
      var d := xs[|xs| - 1] - m;
      assert d * d >= 0.0 by {
        if d < 0.0 { assert d * d == (-d) * (-d); }
      }
      SquaredDeviations(xs[..|xs| - 1], m) + d * d
  }

  /** The population variance (`ddof = 0`), the square of what `np.nanstd` returns. */
  function Variance(xs: seq<real>): (v: real)
    requires |xs| > 0
    ensures v >= 0.0
  {
    SquaredDeviations(xs, Mean(xs)) / (|xs| as real)
  }

  function Id(v: real): real { v }

  /** `xs` in ascending order. */
  function Ascending(xs: seq<real>): (s: seq<real>)
    ensures |s| == |xs|
    ensures forall i, j :: 0 <= i < j < |s| ==> s[i] <= s[j]
    ensures multiset(s) == multiset(xs)
  {
    var s := SortBy(xs, Id);
    assert forall i, j :: 0 <= i < j < |s| ==> Id(s[i]) <= Id(s[j]);
    s
  }

  /** The first and last entries of the ascending order are the minimum and the maximum. */
  lemma AscendingEnds(xs: seq<real>)
    requires |xs| > 0
    ensures Ascending(xs)[0] == Min(xs)
    ensures Ascending(xs)[|xs| - 1] == Max(xs)
  {
    SortedEnds(Ascending(xs), xs);
  }

  lemma SortedEnds(s: seq<real>, xs: seq<real>)
    requires |xs| > 0 && multiset(s) == multiset(xs)
    requires forall i, j :: 0 <= i < j < |s| ==> s[i] <= s[j]
    ensures |s| == |xs|
    ensures s[0] == Min(xs) && s[|s| - 1] == Max(xs)
  {
    assert |s| == |multiset(s)| == |multiset(xs)| == |xs|;
    var lo, hi := Min(xs), Max(xs);
    var n := |s|;
    assert lo in multiset(s) && hi in multiset(s);
    assert lo in s && hi in s;
    var kMin :| 0 <= kMin < n && s[kMin] == lo;
    var kMax :| 0 <= kMax < n && s[kMax] == hi;
    assert s[0] <= s[kMin] && s[kMax] <= s[n - 1];
    assert s[0] in multiset(xs) && s[n - 1] in multiset(xs);
    assert s[0] in xs && s[n - 1] in xs;
  }

  /** `(n - 1) * q`, the rank numerator, never exceeds `100 * (n - 1)` and grows with `q`. */
  lemma RankNumeratorBounds(n: int, q1: int, q2: int)
    requires n >= 1 && 0 <= q1 <= q2 <= 100
    ensures 0 <= (n - 1) * q1 <= (n - 1) * q2 <= (n - 1) * 100
  {
  }

  /**
   * numpy's default percentile (method "linear", Hyndman and Fan's
   * definition 7) of the ascending `s`: the rank `h = (n - 1) * q / 100` is
   * split into its whole part `lo` and its fraction `t`, and the result lies
   * the fraction `t` of the way from `s[lo]` to `s[lo + 1]`.
   */
  function QuantileOfSorted(s: seq<real>, q: int): (r: real)
    requires |s| > 0 && 0 <= q <= 100
    ensures ((|s| - 1) * q) % 100 == 0 ==> r == s[((|s| - 1) * q) / 100]
    ensures q == 0 ==> r == s[0]
    ensures q == 100 ==> r == s[|s| - 1]
  {
    RankNumeratorBounds(|s|, q, q);
    RankAtEnds(|s|, q);
    var num := (|s| - 1) * q;
    var lo := num / 100;
    var t := (num % 100) as real / 100.0;
    if lo + 1 < |s| then s[lo] + t * (s[lo + 1] - s[lo]) else s[lo]
  }

  /** The rank numerator at `q` = 0 and 100 falls on the first and the last position. */
  lemma RankAtEnds(n: int, q: int)
    requires n >= 1
    ensures q == 0 ==> (n - 1) * q / 100 == 0 && (n - 1) * q % 100 == 0
    ensures q == 100 ==> (n - 1) * q / 100 == n - 1 && (n - 1) * q % 100 == 0
  {
  }

  /**
   * `np.nanpercentile(xs, q)` over the finite values `xs`: within [min, max],
   * and the minimum and maximum themselves at `q` = 0 and 100.
   */
  function Percentile(xs: seq<real>, q: int): (p: real)
    requires |xs| > 0 && 0 <= q <= 100
    ensures Min(xs) <= p <= Max(xs)
    ensures q == 0 ==> p == Min(xs)
    ensures q == 100 ==> p == Max(xs)
  {
    AscendingEnds(xs);
    QuantileWithin(Ascending(xs), q);
    QuantileOfSorted(Ascending(xs), q)
  }

  /** Moving a fraction `t` of the way from `a` up to `b` lands between them, further for larger `t`. */
  lemma LerpMonotone(a: real, b: real, t1: real, t2: real)
    requires a <= b && 0.0 <= t1 <= t2 <= 1.0
    ensures a <= a + t1 * (b - a) <= a + t2 * (b - a) <= b
  {
    assert t1 * (b - a) <= t2 * (b - a);
    assert t2 * (b - a) <= 1.0 * (b - a);
  }

  /** The interpolated value lies between the two sorted neighbours it interpolates. */
  lemma QuantileBracket(s: seq<real>, q: int)
    requires |s| > 0 && 0 <= q <= 100
    requires forall i, j :: 0 <= i < j < |s| ==> s[i] <= s[j]
    ensures var lo := ((|s| - 1) * q) / 100;
      0 <= lo < |s| &&
      s[lo] <= QuantileOfSorted(s, q) &&
      (lo + 1 < |s| ==> QuantileOfSorted(s, q) <= s[lo + 1]) &&
      (lo + 1 == |s| ==> QuantileOfSorted(s, q) == s[lo])
  {
    RankNumeratorBounds(|s|, q, q);
    var num := (|s| - 1) * q;
    var lo := num / 100;
    var t := (num % 100) as real / 100.0;
    if lo + 1 < |s| {
      LerpMonotone(s[lo], s[lo + 1], t, t);
    }
  }

  /** The percentile of sorted values lies between the smallest and the largest. */
  lemma QuantileWithin(s: seq<real>, q: int)
    requires |s| > 0 && 0 <= q <= 100
    requires forall i, j :: 0 <= i < j < |s| ==> s[i] <= s[j]
    ensures s[0] <= QuantileOfSorted(s, q) <= s[|s| - 1]
  {
    QuantileBracket(s, q);
  }

  /** The percentile of sorted values does not decrease as the requested rank grows. */
  lemma QuantileMonotone(s: seq<real>, q1: int, q2: int)
    requires |s| > 0 && 0 <= q1 <= q2 <= 100
    requires forall i, j :: 0 <= i < j < |s| ==> s[i] <= s[j]
    ensures QuantileOfSorted(s, q1) <= QuantileOfSorted(s, q2)
  {
    RankNumeratorBounds(|s|, q1, q2);
    var num1, num2 := (|s| - 1) * q1, (|s| - 1) * q2;
    var lo1, lo2 := num1 / 100, num2 / 100;
    QuantileBracket(s, q1);
    QuantileBracket(s, q2);
    if lo1 == lo2 {
      if lo1 + 1 < |s| {
        assert num1 % 100 <= num2 % 100;
        var t1 := (num1 % 100) as real / 100.0;
        var t2 := (num2 % 100) as real / 100.0;
        LerpMonotone(s[lo1], s[lo1 + 1], t1, t2);
      }
    } else {
      assert lo1 + 1 <= lo2;
      assert s[lo1 + 1] <= s[lo2];
    }
  }

  /** Percentiles of the same values are ordered as their ranks are. */
  lemma PercentileMonotone(xs: seq<real>, q1: int, q2: int)
    requires |xs| > 0 && 0 <= q1 <= q2 <= 100
    ensures Percentile(xs, q1) <= Percentile(xs, q2)
  {
    QuantileMonotone(Ascending(xs), q1, q2);
  }
}
