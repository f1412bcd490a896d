/**
 * The positional scorer: where one respondent's value stands against a
 * feature's numeric baseline, as a z-score (`zscore`) and as an empirical
 * percentile read off the quantile table (`empirical_percentile`).
 */
module Scoring {
  import opened Wrappers
  import opened Sequences
  import opened Baseline

  /**
   * `zscore(x, mu, sd)`: undefined exactly when there is no spread to
   * divide by; otherwise the number of standard deviations `x` lies from
   * the mean.
   */
  function ZScore(x: real, mu: real, sd: Option<real>): (z: Option<real>)
    ensures z.None? <==> (sd.None? || sd.value == 0.0)
    ensures z.Some? ==> z.value * sd.value == x - mu
  {
    if sd.None? || sd.value == 0.0 then None else Some((x - mu) / sd.value)
  }

  /** With a positive spread, the z-score has the sign of `x - mu`, and is 0 exactly at the mean. */
  lemma ZScoreSign(x: real, mu: real, sd: real)
    requires sd > 0.0
    ensures ZScore(x, mu, Some(sd)).Some?
    ensures var z := ZScore(x, mu, Some(sd)).value;
      && (z > 0.0 <==> x > mu)
      && (z == 0.0 <==> x == mu)
      && (z < 0.0 <==> x < mu)
  {
    DivSign(x - mu, sd);
  }

  /** `z` is what a z-score of `x` against mean `mu` and spread `sd` must be: present exactly when the spread is not zero, and then `(x - mu) / sd` with the sign of `x - mu`. */
  predicate ZScoreFits(z: Option<real>, x: real, mu: real, sd: real)
  {
    && (z.Some? <==> sd != 0.0)
    && (z.Some? ==> z.value * sd == x - mu)
    && (z.Some? ==> (z.value > 0.0 <==> x > mu))
  }

  /** With a non-negative spread, the z-score fits its inputs. */
  lemma ZScoreOfSpread(x: real, mu: real, sd: real)
    requires sd >= 0.0
    ensures ZScoreFits(ZScore(x, mu, Some(sd)), x, mu, sd)
  {
    if sd != 0.0 {
      ZScoreSign(x, mu, sd);
    }
  }

  /** Dividing by a positive number keeps the sign. */
  lemma DivSign(p: real, c: real)
    requires c > 0.0
    ensures (p > 0.0 ==> p / c > 0.0) && (p == 0.0 ==> p / c == 0.0) && (p < 0.0 ==> p / c < 0.0)
  {
  }

  /** The key `sorted(qs.items())` orders the items by. */
  function RankOf(kv: (int, real)): real
  {
    kv.0 as real
  }

  /** `qs.get(k, None)`: a value found is stored under `k`, and nothing is found only when no item has key `k`. */
  function Lookup(qs: seq<(int, real)>, k: int): (r: Option<real>)
    ensures r.Some? ==> (k, r.value) in qs
    ensures r.None? ==> forall i :: 0 <= i < |qs| ==> qs[i].0 != k
  {
    if |qs| == 0 then None
    else if qs[0].0 == k then Some(qs[0].1)
    else Lookup(qs[1..], k)
  }

  /** In a dictionary's items, every key finds its own value. */
  lemma {:induction false} LookupFinds(qs: seq<(int, real)>, i: int)
    requires DistinctKeys(qs) && 0 <= i < |qs|
    ensures Lookup(qs, qs[i].0) == Some(qs[i].1)
  {
    if i > 0 {
      assert qs[0].0 != qs[i].0;
      assert DistinctKeys(qs[1..]) by {
        forall a, b | 0 <= a < b < |qs| - 1 ensures qs[1..][a].0 != qs[1..][b].0 {
          assert qs[1..][a] == qs[a + 1] && qs[1..][b] == qs[b + 1];
        }
      }
      LookupFinds(qs[1..], i - 1);
    }
  }

  /** A key that no item has finds nothing. */
  lemma {:induction false} LookupMisses(qs: seq<(int, real)>, k: int)
    requires forall i :: 0 <= i < |qs| ==> qs[i].0 != k
    ensures Lookup(qs, k) == None
  {
    if |qs| > 0 {
      assert forall i :: 0 <= i < |qs| - 1 ==> qs[1..][i] == qs[i + 1];
      LookupMisses(qs[1..], k);
    }
  }

  /** The number of leading items whose value is at most `x`: where the walk over the table stops. */
  function FirstAbove(items: seq<(int, real)>, x: real): (j: nat)
    ensures j <= |items|
    ensures forall k :: 0 <= k < j ==> items[k].1 <= x
    ensures j < |items| ==> x < items[j].1
  {
    if |items| == 0 || x < items[0].1 then 0 else 1 + FirstAbove(items[1..], x)
  }

  /** `np.clip(v, lo, hi)`: within the bounds, and `v` itself when it already is. */
  function Clip(v: real, lo: real, hi: real): (r: real)
    ensures lo <= hi ==> lo <= r <= hi
    ensures lo <= v <= hi ==> r == v
  {
    if v < lo then lo else if v > hi then hi else v
  }

  /** How far `x` lies along the way from `a` to `b`, as a fraction of that way. */
  function Fraction(x: real, a: real, b: real): real
    requires a != b
  {
    (x - a) / (b - a)
  }

  /**
   * The tail of `empirical_percentile`, once the bracketing ranks `loq` and
   * `hiq` are known: the rank itself when both are the same, and never
   * outside [1, 99] when `loq` is a rank of the table's range.
   */
  function Interpolate(x: real, qs: seq<(int, real)>, loq: int, hiq: int): (r: real)
    ensures loq == hiq ==> r == loq as real
    ensures 1 <= loq <= 99 ==> 1.0 <= r <= 99.0
  {
    var vLo, vHi := Lookup(qs, loq), Lookup(qs, hiq);
    if vLo.None? || vHi.None? || vHi.value == vLo.value then loq as real
    else
      var frac := Fraction(x, vLo.value, vHi.value);
      Clip(loq as real + frac * ((hiq - loq) as real), 1.0, 99.0)
  }

  /**
   * The empirical percentile of `x`: undefined for an empty table;
   * otherwise, over the items in rank order, `loq` is the rank of the last
   * item before the first whose value exceeds `x` (1 if there is none) and
   * `hiq` the rank of that first item (99 if there is none).
   */
  function PercentileOf(x: real, qs: QTable): (r: Option<real>)
    ensures r.None? <==> |qs| == 0
  {
    if |qs| == 0 then None
    else
      var items := SortBy(qs, RankOf);
      var j := FirstAbove(items, x);
      var loq := if j == 0 then 1 else items[j - 1].0;
      var hiq := if j == |items| then 99 else items[j].0;
      Some(Interpolate(x, qs, loq, hiq))
  }

  /** `empirical_percentile(x, qs)`: the walk over the rank-sorted items that stops at the first value above `x`. */
  method EmpiricalPercentile(x: real, qs: QTable) returns (r: Option<real>)
    ensures r == PercentileOf(x, qs)
  {
    if |qs| == 0 {
      return None;
    }
    var items := SortBy(qs, RankOf);
    var loq, hiq := 1, 99;
    var i := 0;
    while i < |items|
      invariant 0 <= i <= |items|
      invariant forall k :: 0 <= k < i ==> items[k].1 <= x
      invariant loq == if i == 0 then 1 else items[i - 1].0
      invariant hiq == 99
      invariant FirstAbove(items, x) >= i
    {
      var (q, v) := items[i];
      if x >= v {
        loq := q;
      } else {
        hiq := q;
        break;
      }
      i := i + 1;
    }
    assert i == FirstAbove(items, x);
    r := Some(Interpolate(x, qs, loq, hiq));
  }

  /** In a full table the items already stand in rank order. */
  lemma FullTableSorted(qs: QTable)
    requires FullTable(qs)
    ensures SortBy(qs, RankOf) == qs
  {
    assert SortedBy(qs, RankOf);
    SortBySorted(qs, RankOf);
  }

  /** In a full table rank `k` holds the `k`-th item's value, and nothing else has a value. */
  lemma FullTableLookup(qs: QTable, k: int)
    requires FullTable(qs)
    ensures 1 <= k <= 99 ==> Lookup(qs, k) == Some(qs[k - 1].1)
    ensures !(1 <= k <= 99) ==> Lookup(qs, k) == None
  {
    if 1 <= k <= 99 {
      LookupFinds(qs, k - 1);
    } else {
      LookupMisses(qs, k);
    }
  }

  /** Between two bracketing values, the fraction of the way from the lower one lies in [0, 1). */
  lemma FractionWithin(x: real, a: real, b: real)
    requires a <= x < b
    ensures 0.0 <= Fraction(x, a, b) < 1.0
  {
    DivMonotone(0.0, x - a, b - a);
    DivStrictlyMonotone(x - a, b - a, b - a);
  }

  /** Dividing by a positive number keeps the order. */
  lemma DivMonotone(p: real, q: real, c: real)
    requires p <= q && c > 0.0
    ensures p / c <= q / c
  {
  }

  /** Dividing by a positive number keeps the strict order. */
  lemma DivStrictlyMonotone(p: real, q: real, c: real)
    requires p < q && c > 0.0
    ensures p / c < q / c
  {
  }

  /** The fraction grows with `x`. */
  lemma FractionMonotone(x1: real, x2: real, a: real, b: real)
    requires x1 <= x2 && a < b
    ensures Fraction(x1, a, b) <= Fraction(x2, a, b)
  {
    DivMonotone(x1 - a, x2 - a, b - a);
  }

  /**
   * The percentile over a full table, by the number `j` of leading values
   * at most `x`: 1 when there is none, 99 when all are, and otherwise rank
   * `j` plus the fraction of the way `x` lies from the `j`-th value to the
   * next, which stays within [j, j + 1).
   */
  lemma FullTablePercentile(x: real, qs: QTable)
    requires FullTable(qs)
    ensures var r, j := PercentileOf(x, qs), FirstAbove(qs, x);
      && r.Some?
      && (j == 0 ==> r.value == 1.0)
      && (j == 99 ==> r.value == 99.0)
      && (0 < j < 99 ==>
            qs[j - 1].1 <= x < qs[j].1 &&
            r.value == j as real + Fraction(x, qs[j - 1].1, qs[j].1) &&
            j as real <= r.value < j as real + 1.0)
  {
    var j := FirstAbove(qs, x);
    if j == 0 || j == 99 {
      EdgePercentile(x, qs);
    } else {
      InnerPercentile(x, qs);
      FractionWithin(x, qs[j - 1].1, qs[j].1);
    }
  }

  /** Below every value the percentile is 1, at or above every value it is 99. */
  lemma EdgePercentile(x: real, qs: QTable)
    requires FullTable(qs)
    requires FirstAbove(qs, x) == 0 || FirstAbove(qs, x) == 99
    ensures PercentileOf(x, qs) == Some(if FirstAbove(qs, x) == 0 then 1.0 else 99.0)
  {
    var k := if FirstAbove(qs, x) == 0 then 1 else 99;
    PercentileWalk(x, qs);
    FullTableLookup(qs, k);
    InterpolateSameRank(x, qs, k);
  }

  /** With both ends at the same rank, the result is that rank. */
  lemma InterpolateSameRank(x: real, qs: seq<(int, real)>, k: int)
    ensures Some(Interpolate(x, qs, k, k)) == Some(k as real)
  {
  }

  /** Between two neighbouring ranks with distinct values the interpolation is not clipped. */
  lemma InterpolateBetween(x: real, qs: seq<(int, real)>, k: int, a: real, b: real)
    requires 1 <= k <= 98 && a <= x < b
    requires Lookup(qs, k) == Some(a) && Lookup(qs, k + 1) == Some(b)
    requires 0.0 <= Fraction(x, a, b) < 1.0
    ensures Interpolate(x, qs, k, k + 1) == k as real + Fraction(x, a, b)
  {
  }

  /** Over a full table the walk stops after `j` items, so the bracketing ranks are `j` and `j + 1`, or the ends. */
  lemma PercentileWalk(x: real, qs: QTable)
    requires FullTable(qs)
    ensures var j := FirstAbove(qs, x);
      PercentileOf(x, qs) == Some(Interpolate(x, qs, if j == 0 then 1 else j, if j == 99 then 99 else j + 1))
  {
    FullTableSorted(qs);
  }

  /** Strictly inside the table, the percentile is the rank reached plus the fraction of the way to the next value. */
  lemma InnerPercentile(x: real, qs: QTable)
    requires FullTable(qs) && 0 < FirstAbove(qs, x) < 99
    ensures var j := FirstAbove(qs, x);
      && qs[j - 1].1 <= x < qs[j].1
      && PercentileOf(x, qs) == Some(j as real + Fraction(x, qs[j - 1].1, qs[j].1))
  {
    PercentileWalk(x, qs);
    InnerInterpolate(x, qs);
  }

  /** Interpolating between rank `j` and rank `j + 1` of the table adds the fraction to `j`. */
  lemma InnerInterpolate(x: real, qs: QTable)
    requires FullTable(qs) && 0 < FirstAbove(qs, x) < 99
    ensures var j := FirstAbove(qs, x);
      && qs[j - 1].1 <= x < qs[j].1
      && Some(Interpolate(x, qs, j, j + 1)) == Some(j as real + Fraction(x, qs[j - 1].1, qs[j].1))
  {
    var j := FirstAbove(qs, x);
    FullTableLookup(qs, j);
    FullTableLookup(qs, j + 1);
    var a, b := qs[j - 1].1, qs[j].1;
    FractionWithin(x, a, b);
    InterpolateBetween(x, qs, j, a, b);
  }

  /** Over a full table the percentile is always defined and lies in [1, 99]. */
  lemma PercentileRange(x: real, qs: QTable)
    requires FullTable(qs)
    ensures PercentileOf(x, qs).Some?
    ensures 1.0 <= PercentileOf(x, qs).value <= 99.0
  {
    FullTablePercentile(x, qs);
  }

  /** The empty table gives no percentile. */
  lemma PercentileEmpty(x: real, qs: QTable)
    requires |qs| == 0
    ensures PercentileOf(x, qs) == None
  {
  }

  /** Below the rank-1 value the percentile is exactly 1. */
  lemma PercentileBelowFirst(x: real, qs: QTable)
    requires FullTable(qs) && x < qs[0].1
    ensures PercentileOf(x, qs) == Some(1.0)
  {
    FullTablePercentile(x, qs);
  }

  /** At or above the rank-99 value of a non-decreasing table the percentile is exactly 99. */
  lemma PercentileAtTop(x: real, qs: QTable)
    requires FullTable(qs) && NonDecreasing(qs) && x >= qs[98].1
    ensures PercentileOf(x, qs) == Some(99.0)
  {
    assert forall k :: 0 <= k < 99 ==> qs[k].1 <= x;
    FullTablePercentile(x, qs);
  }

  /**
   * In a non-decreasing table, a value between rank `k` and rank `k + 1`
   * gets `k` plus the fraction of the way between them, within [k, k + 1).
   */
  lemma PercentileBracket(x: real, qs: QTable, k: int)
    requires FullTable(qs) && NonDecreasing(qs)
    requires 1 <= k <= 98 && qs[k - 1].1 <= x < qs[k].1
    ensures PercentileOf(x, qs) == Some(k as real + Fraction(x, qs[k - 1].1, qs[k].1))
    ensures k as real <= PercentileOf(x, qs).value < k as real + 1.0
  {
    FirstAboveAt(x, qs, k);
    FullTablePercentile(x, qs);
  }

  /** In a non-decreasing table the walk stops exactly at the first value above `x`. */
  lemma FirstAboveAt(x: real, qs: QTable, k: int)
    requires FullTable(qs) && NonDecreasing(qs)
    requires 1 <= k <= 98 && qs[k - 1].1 <= x < qs[k].1
    ensures FirstAbove(qs, x) == k
  {
  }

  /** Over a full table, a larger value never stops the walk earlier. */
  lemma FirstAboveMonotone(x1: real, x2: real, qs: QTable)
    requires x1 <= x2
    ensures FirstAbove(qs, x1) <= FirstAbove(qs, x2)
  {
  }

  /** The percentile over a full table, placed between ranks with no division in sight. */
  lemma PercentileBetweenRanks(x: real, qs: QTable)
    requires FullTable(qs)
    ensures var r, j := PercentileOf(x, qs), FirstAbove(qs, x);
      && r.Some?
      && 1.0 <= r.value
      && (j == 0 ==> r.value == 1.0)
      && (0 < j ==> j as real <= r.value)
      && (0 < j < 99 ==> r.value < j as real + 1.0)
      && (j == 99 ==> r.value == 99.0)
  {
    FullTablePercentile(x, qs);
  }

  /** Over a full table, a larger value never gets a smaller percentile. */
  lemma PercentileMonotone(x1: real, x2: real, qs: QTable)
    requires FullTable(qs) && x1 <= x2
    ensures PercentileOf(x1, qs).Some? && PercentileOf(x2, qs).Some?
    ensures PercentileOf(x1, qs).value <= PercentileOf(x2, qs).value
  {
    var j1, j2 := FirstAbove(qs, x1), FirstAbove(qs, x2);
    FirstAboveMonotone(x1, x2, qs);
    PercentileBetweenRanks(x1, qs);
    PercentileBetweenRanks(x2, qs);
    if j1 == j2 && 0 < j1 < 99 {
      SameBracketMonotone(x1, x2, qs);
    }
  }

  /** Two values that stop the walk at the same inner rank are ordered as their percentiles are. */
  lemma SameBracketMonotone(x1: real, x2: real, qs: QTable)
    requires FullTable(qs) && x1 <= x2
    requires FirstAbove(qs, x1) == FirstAbove(qs, x2) && 0 < FirstAbove(qs, x1) < 99
    ensures PercentileOf(x1, qs).Some? && PercentileOf(x2, qs).Some?
    ensures PercentileOf(x1, qs).value <= PercentileOf(x2, qs).value
  {
    var j := FirstAbove(qs, x1);
    InnerPercentile(x1, qs);
    InnerPercentile(x2, qs);
    FractionMonotone(x1, x2, qs[j - 1].1, qs[j].1);
  }
}
