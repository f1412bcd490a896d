/**
 * The deviation report: one row per numeric feature the respondent
 * answered, with its z-score and empirical percentile, ranked by the size of
 * the z-score, and the rows flagged as outliers (|z| >= 2).
 */
module Report {
  import opened Wrappers
  import opened Sequences
  import opened Baseline
  import opened Scoring

  /** The respondent's answers, by feature; an absent key is an unanswered question. */
  type Answers = map<string, Cell>

  /** One line of the report table. */
  datatype Row = Row(feature: string, value: real, mean: real, std: real,
                     z: Option<real>, percentile: Option<real>)

  /** The outlier threshold on |z|. */
  const OutlierThreshold := 2.0

  function Abs(x: real): (a: real)
    ensures a >= 0.0 && (a == x || a == -x)
  {
    if x < 0.0 then -x else x
  }

  /** The feature has a numeric baseline and a numeric answer. */
  predicate IsScorable(c: string, baseline: map<string, FeatureBaseline>, input: Answers)
  {
    c in baseline && baseline[c].NumBaseline? && c in input && input[c].Num?
  }

  function Scorable(baseline: map<string, FeatureBaseline>, input: Answers): string -> bool
  {
    c => IsScorable(c, baseline, input)
  }

  /**
   * The report row of a scorable feature: the feature, the answer and the
   * baseline's mean and spread, a z-score unless the spread is zero, and a
   * percentile unless the quantile table is empty.
   */
  function RowOf(c: string, baseline: map<string, FeatureBaseline>, input: Answers): (r: Row)
    requires IsScorable(c, baseline, input)
    ensures r.feature == c && r.value == input[c].v
    ensures r.mean == baseline[c].mean && r.std == baseline[c].std
    ensures r.z.None? <==> baseline[c].std == 0.0
    ensures r.percentile.None? <==> |baseline[c].quantiles| == 0
  {
    var b := baseline[c];
    var v := input[c].v;
    Row(c, v, b.mean, b.std, ZScore(v, b.mean, Some(b.std)), PercentileOf(v, b.quantiles))
  }

  /**
   * The rows of the report before ranking: exactly the scorable features,
   * in the order the features are listed, each with its own row.
   */
  function Rows(feats: seq<string>, baseline: map<string, FeatureBaseline>, input: Answers): (rows: seq<Row>)
    ensures |rows| == |Filter(feats, Scorable(baseline, input))|
    ensures forall i :: 0 <= i < |rows| ==>
      var c := Filter(feats, Scorable(baseline, input))[i];
      IsScorable(c, baseline, input) && rows[i] == RowOf(c, baseline, input)
  {
    if |feats| == 0 then []
    else
      var init, last := feats[..|feats| - 1], feats[|feats| - 1];
      assert feats == init + [last];
      FilterSnoc(init, last, Scorable(baseline, input));
      Rows(init, baseline, input) + (if IsScorable(last, baseline, input) then [RowOf(last, baseline, input)] else [])
  }

  /**
   * The loop over the features that builds the rows: unanswered questions
   * and features with a categorical baseline are skipped, the others get
   * their z-score and their percentile.
   */
  method AssembleRows(feats: seq<string>, baseline: map<string, FeatureBaseline>, input: Answers)
    returns (rows: seq<Row>)
    requires forall c :: c in feats ==> c in baseline
    ensures rows == Rows(feats, baseline, input)
  {
    rows := [];
    for k := 0 to |feats|
      invariant rows == Rows(feats[..k], baseline, input)
    {
      var c := feats[k];
      assert feats[..k + 1] == feats[..k] + [c];
      var info := baseline[c];
      if c in input && input[c].Num? {
        var v := input[c].v;
        if info.NumBaseline? {
          var z := ZScore(v, info.mean, Some(info.std));
          var pct := EmpiricalPercentile(v, info.quantiles);
          rows := rows + [Row(c, v, info.mean, info.std, z, pct)];
        }
      }
    }
    assert feats[..|feats|] == feats;
  }

  /**
   * Every row of a well-formed baseline has a z-score exactly when the
   * feature's spread is not zero, that z-score measures the answer's
   * distance from the mean in standard deviations, and the percentile is
   * always there and lies in [1, 99].
   */
  lemma RowFacts(c: string, baseline: map<string, FeatureBaseline>, input: Answers)
    requires IsScorable(c, baseline, input) && WellFormed(baseline)
    ensures var r := RowOf(c, baseline, input);
      && r.feature == c && r.value == input[c].v
      && (r.z.Some? <==> r.std != 0.0)
      && (r.z.Some? ==> r.z.value * r.std == r.value - r.mean)
      && (r.z.Some? ==> (r.z.value > 0.0 <==> r.value > r.mean))
      && r.percentile.Some? && 1.0 <= r.percentile.value <= 99.0
  {
    var b := baseline[c];
    assert FullTable(b.quantiles) && b.std >= 0.0;
    RowZ(c, baseline, input);
    RowPercentile(c, baseline, input);
  }

  /** A row's z-score, for a non-negative spread, fits the row's value, mean and spread. */
  lemma RowZ(c: string, baseline: map<string, FeatureBaseline>, input: Answers)
    requires IsScorable(c, baseline, input) && baseline[c].std >= 0.0
    ensures var r := RowOf(c, baseline, input); ZScoreFits(r.z, r.value, r.mean, r.std)
  {
    var r := RowOf(c, baseline, input);
    assert r.z == ZScore(r.value, r.mean, Some(r.std));
    ZScoreOfSpread(r.value, r.mean, r.std);
  }

  /** A row's percentile over a full table is present and lies in [1, 99]. */
  lemma RowPercentile(c: string, baseline: map<string, FeatureBaseline>, input: Answers)
    requires IsScorable(c, baseline, input) && FullTable(baseline[c].quantiles)
    ensures var r := RowOf(c, baseline, input);
      r.percentile.Some? && 1.0 <= r.percentile.value <= 99.0
  {
    var b := baseline[c];
    var v := input[c].v;
    assert RowOf(c, baseline, input).percentile == PercentileOf(v, b.quantiles);
    PercentileRange(v, b.quantiles);
  }

  /** The sort key of the ranking: |z|, and below every |z| for a missing z-score. */
  function RankKey(r: Row): real
  {
    if r.z.None? then -1.0 else Abs(r.z.value)
  }

  function Descending(r: Row): real
  {
    -RankKey(r)
  }

  /**
   * The ranked order: a row with a z-score never follows one without, and
   * among rows with z-scores |z| never increases.
   */
  predicate Ranked(s: seq<Row>)
  {
    forall i, j :: 0 <= i < j < |s| && s[j].z.Some? ==>
      s[i].z.Some? && Abs(s[i].z.value) >= Abs(s[j].z.value)
  }

  /** Being ranked is being sorted by the descending key. */
  lemma RankedIsSorted(s: seq<Row>)
    ensures Ranked(s) <==> SortedBy(s, Descending)
  {
    if Ranked(s) {
      forall i, j | 0 <= i < j < |s| ensures Descending(s[i]) <= Descending(s[j]) {
        if s[j].z.Some? {
          assert s[i].z.Some?;
        }
      }
    }
    if SortedBy(s, Descending) {
      forall i, j | 0 <= i < j < |s| && s[j].z.Some?
        ensures s[i].z.Some? && Abs(s[i].z.value) >= Abs(s[j].z.value)
      {
        assert Descending(s[i]) <= Descending(s[j]);
      }
    }
  }

  /**
   * The report table (`sort_values` on `z` by absolute value, descending,
   * missing values last): the same rows, ranked.
   */
  function Rank(rows: seq<Row>): (rep: seq<Row>)
    ensures multiset(rep) == multiset(rows) && |rep| == |rows|
    ensures Ranked(rep)
  {
    var rep := SortBy(rows, Descending);
    RankedIsSorted(rep);
    rep
  }

  predicate IsOutlier(r: Row)
  {
    r.z.Some? && Abs(r.z.value) >= OutlierThreshold
  }

  function OutlierRow(): Row -> bool
  {
    r => IsOutlier(r)
  }

  /**
   * The flagged rows (`abs_z >= 2`): exactly the rows of the report whose
   * z-score is at least 2 in size, in report order.
   */
  function Flagged(rep: seq<Row>): (f: seq<Row>)
    ensures forall r :: r in f <==> r in rep && IsOutlier(r)
    ensures forall r :: multiset(f)[r] == if IsOutlier(r) then multiset(rep)[r] else 0
    ensures IsSubsequence(f, rep)
  {
    var f := Filter(rep, OutlierRow());
    forall r ensures multiset(f)[r] == if IsOutlier(r) then multiset(rep)[r] else 0 {
      FilterCount(rep, OutlierRow(), r);
    }
    FilterIsSubsequence(rep, OutlierRow());
    FilterMembers(rep, OutlierRow());
    assert forall r :: r in rep && IsOutlier(r) ==> r in f by {
      forall r | r in rep && IsOutlier(r) ensures r in f {
        var i :| 0 <= i < |rep| && rep[i] == r;
      }
    }
    f
  }

  /** The flagged rows of a ranked report are ranked too, and none lacks a z-score. */
  lemma FlaggedRanked(rep: seq<Row>)
    requires Ranked(rep)
    ensures Ranked(Flagged(rep))
    ensures forall i :: 0 <= i < |Flagged(rep)| ==> Flagged(rep)[i].z.Some?
  {
    RankedIsSorted(rep);
    FilterSorted(rep, OutlierRow(), Descending);
    RankedIsSorted(Flagged(rep));
    forall i | 0 <= i < |Flagged(rep)| ensures Flagged(rep)[i].z.Some? {
      assert Flagged(rep)[i] in Flagged(rep);
    }
  }

  /**
   * Line 474 as written: `pd.DataFrame(rows)` of no rows has no `z` column,
   * so `sort_values("z", ...)` raises `KeyError`; `None` stands for that
   * exception. Any ranking it does produce is non-empty.
   */
  function RankAsWritten(rows: seq<Row>): (r: Option<seq<Row>>)
    ensures r.None? <==> rows == []
    ensures r.Some? ==> r.value == Rank(rows) && r.value != []
  {
    if rows == [] then None else Some(Rank(rows))
  }

  /**
   * As written, the ranking raises exactly when no feature is scorable, so
   * the message for an empty report (lines 476-477) is never shown.
   */
  lemma AsWrittenRaisesWithoutScorable(feats: seq<string>, baseline: map<string, FeatureBaseline>, input: Answers)
    ensures RankAsWritten(Rows(feats, baseline, input)).None? <==>
      forall i :: 0 <= i < |feats| ==> !IsScorable(feats[i], baseline, input)
  {
    FilterEmpty(feats, Scorable(baseline, input));
  }

  /** One categorical question answered: the report as written raises. */
  lemma AllCategoricalRaises()
    ensures RankAsWritten(Rows(["Q1"], map["Q1" := CatBaseline(["a"])], map["Q1" := Str("a")])) == None
  {
    AsWrittenRaisesWithoutScorable(["Q1"], map["Q1" := CatBaseline(["a"])], map["Q1" := Str("a")]);
  }

  /**
   * The whole report: the rows, ranked, and the outliers among them. With
   * no scorable feature the report is empty, which is the case the message
   * at lines 476-477 is written for.
   */
  method AssembleReport(feats: seq<string>, baseline: map<string, FeatureBaseline>, input: Answers)
    returns (rep: seq<Row>, flagged: seq<Row>)
    requires forall c :: c in feats ==> c in baseline
    ensures rep == Rank(Rows(feats, baseline, input))
    ensures flagged == Flagged(rep)
    ensures Ranked(rep) && Ranked(flagged)
    ensures rep == [] <==> forall i :: 0 <= i < |feats| ==> !IsScorable(feats[i], baseline, input)
  {
    var rows := AssembleRows(feats, baseline, input);
    rep := Rank(rows);
    flagged := Flagged(rep);
    FlaggedRanked(rep);
    FilterEmpty(feats, Scorable(baseline, input));
  }
}
