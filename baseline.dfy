/**
 * The baseline builder: per requested feature, the reference-population
 * statistics the respondent is positioned against (`compute_baseline`), the
 * split of the model's features into those with and without a baseline, and
 * the slider bounds taken from the same column (`numeric_bounds`).
 */
module Baseline {
  import opened Sequences
  import opened Stats

  /** One cell of the reference table: missing (`NaN`/`None`), a number, or text. */
  datatype Cell = Missing | Num(v: real) | Str(s: string)

  /** Whether pandas holds the column with a numeric dtype (`dtype.kind` in `"biufc"`). */
  datatype ColumnKind = NumericKind | OtherKind

  datatype Column = Column(kind: ColumnKind, cells: seq<Cell>)

  /** The reference population: column name to column. */
  type Table = map<string, Column>

  /** A dictionary's items never repeat a key. */
  predicate DistinctKeys(qs: seq<(int, real)>)
  {
    forall i, j :: 0 <= i < j < |qs| ==> qs[i].0 != qs[j].0
  }

  /** A quantile table: the items `(rank, value)` of a dictionary, in insertion order. */
  type QTable = qs: seq<(int, real)> | DistinctKeys(qs) witness []

  /** The table has exactly the ranks 1..99, in ascending order. */
  predicate FullTable(qs: seq<(int, real)>)
  {
    |qs| == 99 && forall i :: 0 <= i < 99 ==> qs[i].0 == i + 1
  }

  /** The table's values do not decrease along the items. */
  predicate NonDecreasing(qs: seq<(int, real)>)
  {
    forall i, j :: 0 <= i < j < |qs| ==> qs[i].1 <= qs[j].1
  }

  datatype FeatureBaseline =
    | NumBaseline(mean: real, std: real, quantiles: QTable)
    | CatBaseline(choices: seq<string>)

  /** The baselines `compute_baseline` builds: full quantile tables and a non-negative spread. */
  predicate WellFormed(baseline: map<string, FeatureBaseline>)
  {
    forall c :: c in baseline && baseline[c].NumBaseline? ==>
      FullTable(baseline[c].quantiles) && baseline[c].std >= 0.0
  }

  /** The upper bound on a categorical baseline's choices. */
  const MaxChoices := 50

  /**
   * The finite numbers of a column, in column order: what remains of
   * `pd.to_numeric(s, errors="coerce")` once the numpy `nan*` functions
   * skip its NaNs. A text cell never occurs in a numeric-dtype column and
   * counts as missing here.
   */
  function Present(cells: seq<Cell>): (xs: seq<real>)
    ensures |xs| <= |cells|
  {
    if |cells| == 0 then []
    else
      var last := cells[|cells| - 1];
      Present(cells[..|cells| - 1]) + (if last.Num? then [last.v] else [])
  }

  /** The present values are exactly the numbers of the column. */
  lemma {:induction false} PresentMembers(cells: seq<Cell>)
    ensures forall i :: 0 <= i < |Present(cells)| ==> Num(Present(cells)[i]) in cells
    ensures forall k :: 0 <= k < |cells| && cells[k].Num? ==> cells[k].v in Present(cells)
  {
    if |cells| > 0 {
      var init, last := cells[..|cells| - 1], cells[|cells| - 1];
      PresentMembers(init);
      assert cells == init + [last];
      var xs, xi := Present(cells), Present(init);
      forall i | 0 <= i < |xs| ensures Num(xs[i]) in cells {
        if i < |xi| {
          assert xs[i] == xi[i] && Num(xi[i]) in init;
        }
      }
      forall k | 0 <= k < |cells| && cells[k].Num? ensures cells[k].v in xs {
        if k < |init| {
          assert cells[k] == init[k];
          assert init[k].v in xi;
        }
      }
    }
  }

  /** Each number occurs among the present values exactly as often as the column holds it. */
  lemma {:induction false} PresentCounts(cells: seq<Cell>)
    ensures forall v :: multiset(Present(cells))[v] == multiset(cells)[Num(v)]
  {
    if |cells| > 0 {
      var init, last := cells[..|cells| - 1], cells[|cells| - 1];
      assert cells == init + [last];
      PresentCounts(init);
      assert multiset(cells) == multiset(init) + multiset{last};
    }
  }

  /** `sqrt` returns the non-negative square root of every non-negative number. */
  ghost predicate SqrtSpec(sqrt: real -> real)
  {
    forall v :: 0.0 <= v ==> 0.0 <= sqrt(v) && sqrt(v) * sqrt(v) == v
  }

  /** `{q: np.nanpercentile(x, q) for q in range(1, 100)}`, as items in insertion order. */
  function QuantileTable(xs: seq<real>): (qs: QTable)
    requires |xs| > 0
    ensures FullTable(qs)
    ensures forall i :: 0 <= i < 99 ==> qs[i].1 == Percentile(xs, i + 1)
  {
    var t := seq(99, i requires 0 <= i < 99 => (i + 1, Percentile(xs, i + 1)));
    assert DistinctKeys(t);
    t
  }

  /** The text form of a non-missing cell (`astype(str)`); a number's text is given by `show`. */
  function Form(c: Cell, show: real -> string): (r: string)
    requires !c.Missing?
    ensures c.Str? ==> r == c.s
    ensures c.Num? ==> r == show(c.v)
  {
    match c
    case Num(v) => show(v)
    case Str(s) => s
  }

  /** `s.dropna().astype(str)`: the text forms of the non-missing cells, in column order. */
  function StringForms(cells: seq<Cell>, show: real -> string): (ss: seq<string>)
    ensures |ss| <= |cells|
  {
    if |cells| == 0 then []
    else
      var last := cells[|cells| - 1];
      StringForms(cells[..|cells| - 1], show) + (if last.Missing? then [] else [Form(last, show)])
  }

  /** The non-missing cells whose text form is `v`, as a filter condition. */
  function HasForm(v: string, show: real -> string): Cell -> bool
  {
    (c: Cell) => !c.Missing? && Form(c, show) == v
  }

  /** A text form occurs among the forms exactly as often as there are non-missing cells with that form. */
  lemma {:induction false} StringFormsCounts(cells: seq<Cell>, show: real -> string, v: string)
    ensures Count(StringForms(cells, show), v) == |Filter(cells, HasForm(v, show))|
  {
    if |cells| > 0 {
      var init, last := cells[..|cells| - 1], cells[|cells| - 1];
      assert cells == init + [last];
      StringFormsCounts(init, show, v);
      FilterSnoc(init, last, HasForm(v, show));
      var si := StringForms(init, show);
      assert StringForms(cells, show) == si + (if last.Missing? then [] else [Form(last, show)]);
    }
  }

  /** `v` is the text form of one of the non-missing cells. */
  ghost predicate FormOfSomeCell(v: string, cells: seq<Cell>, show: real -> string)
  {
    exists k :: 0 <= k < |cells| && !cells[k].Missing? && v == Form(cells[k], show)
  }

  /** Every text form is that of a non-missing cell. */
  lemma {:induction false} StringFormsFromCells(cells: seq<Cell>, show: real -> string)
    ensures forall i :: 0 <= i < |StringForms(cells, show)| ==> FormOfSomeCell(StringForms(cells, show)[i], cells, show)
  {
    if |cells| > 0 {
      var init, last := cells[..|cells| - 1], cells[|cells| - 1];
      StringFormsFromCells(init, show);
      var ss, si := StringForms(cells, show), StringForms(init, show);
      assert ss == si + (if last.Missing? then [] else [Form(last, show)]);
      forall i | 0 <= i < |ss| ensures FormOfSomeCell(ss[i], cells, show) {
        if i < |si| {
          assert FormOfSomeCell(si[i], init, show);
          var k :| 0 <= k < |init| && !init[k].Missing? && si[i] == Form(init[k], show);
          assert cells[k] == init[k] && ss[i] == si[i];
        } else {
          assert ss[i] == Form(cells[|cells| - 1], show);
        }
      }
    }
  }

  /** Every non-missing cell has its text form among the forms. */
  lemma {:induction false} StringFormsCoverCells(cells: seq<Cell>, show: real -> string)
    ensures forall k :: 0 <= k < |cells| && !cells[k].Missing? ==> Form(cells[k], show) in StringForms(cells, show)
  {
    if |cells| > 0 {
      var init, last := cells[..|cells| - 1], cells[|cells| - 1];
      StringFormsCoverCells(init, show);
      var ss, si := StringForms(cells, show), StringForms(init, show);
      assert ss == si + (if last.Missing? then [] else [Form(last, show)]);
      forall k | 0 <= k < |cells| && !cells[k].Missing? ensures Form(cells[k], show) in ss {
        if k < |init| {
          assert cells[k] == init[k];
          assert Form(init[k], show) in si;
        }
      }
    }
  }

  /** The distinct elements of `ss`, in order of first occurrence. */
  function Distinct(ss: seq<string>): (r: seq<string>)
    ensures NoDup(r)
  {
    if |ss| == 0 then []
    else
      var init := Distinct(ss[..|ss| - 1]);
      var last := ss[|ss| - 1];
      if last in init then init else init + [last]
  }

  /** The distinct elements are exactly the elements. */
  lemma {:induction false} DistinctMembers(ss: seq<string>)
    ensures forall i :: 0 <= i < |Distinct(ss)| ==> Distinct(ss)[i] in ss
    ensures forall i :: 0 <= i < |ss| ==> ss[i] in Distinct(ss)
  {
    if |ss| > 0 {
      var init, last := ss[..|ss| - 1], ss[|ss| - 1];
      DistinctMembers(init);
      assert ss == init + [last];
      var r, ri := Distinct(ss), Distinct(init);
      assert r == if last in ri then ri else ri + [last];
      forall i | 0 <= i < |r| ensures r[i] in ss {
        if i < |ri| {
          assert r[i] == ri[i] && ri[i] in init;
        }
      }
      forall i | 0 <= i < |ss| ensures ss[i] in r {
        if i < |init| {
          assert ss[i] == init[i] && init[i] in ri;
        }
      }
    }
  }

  /** How often `v` occurs in `ss`. */
  function Count(ss: seq<string>, v: string): nat
  {
    multiset(ss)[v]
  }

  /** The sort key that puts more frequent values first. */
  function ByFrequency(ss: seq<string>): string -> real
  {
    v => -(Count(ss, v) as real)
  }

  /** `value_counts().index`: the distinct values, most frequent first (ties in no promised order). */
  function ValueCounts(ss: seq<string>): (r: seq<string>)
    ensures NoDup(r)
    ensures forall i, j :: 0 <= i < j < |r| ==> Count(ss, r[i]) >= Count(ss, r[j])
  {
    var d := Distinct(ss);
    var key := ByFrequency(ss);
    var r := SortBy(d, key);
    NoDupPermutation(d, r);
    assert forall i, j :: 0 <= i < j < |r| ==> key(r[i]) <= key(r[j]);
    r
  }

  /** A categorical baseline's choices: `value_counts().index.tolist()[:50]`. */
  function Choices(cells: seq<Cell>, show: real -> string): (r: seq<string>)
    ensures |r| <= MaxChoices && NoDup(r)
    ensures forall i, j :: 0 <= i < j < |r| ==>
      Count(StringForms(cells, show), r[i]) >= Count(StringForms(cells, show), r[j])
  {
    TopValues(StringForms(cells, show), MaxChoices);
    Take(ValueCounts(StringForms(cells, show)), MaxChoices)
  }

  /**
   * The baseline of one column (the body of the loop in `compute_baseline`).
   * `show` renders a number as text and `sqrt` takes the square root; a
   * numeric column must hold at least one number.
   */
  function BaselineOf(col: Column, show: real -> string, sqrt: real -> real): (b: FeatureBaseline)
    requires col.kind == NumericKind ==> |Present(col.cells)| > 0
    ensures b.NumBaseline? <==> col.kind == NumericKind
  {
    if col.kind == NumericKind then
      var xs := Present(col.cells);
      NumBaseline(Mean(xs), sqrt(Variance(xs)), QuantileTable(xs))
    else
      CatBaseline(Choices(col.cells, show))
  }

  /** Every requested numeric column that the table holds has at least one number. */
  predicate Buildable(df: Table, features: seq<string>)
  {
    forall c :: c in features && c in df && df[c].kind == NumericKind ==> |Present(df[c].cells)| > 0
  }

  /** Membership in a set of names, as a filter condition. */
  function InKeys(keys: set<string>): string -> bool
  {
    c => c in keys
  }

  /** Non-membership in a set of names, as a filter condition. */
  function NotInKeys(keys: set<string>): string -> bool
  {
    c => c !in keys
  }

  /**
   * `compute_baseline(df, features)`: a baseline for exactly the requested
   * features that are columns of `df`, each computed from its own column.
   */
  method ComputeBaseline(df: Table, features: seq<string>, show: real -> string, sqrt: real -> real)
    returns (base: map<string, FeatureBaseline>)
    requires Buildable(df, features)
    ensures base.Keys == set c | c in features && c in df
    ensures forall c :: c in base ==> c in df && base[c] == BaselineOf(df[c], show, sqrt)
    ensures SqrtSpec(sqrt) ==> WellFormed(base)
  {
    var present := Filter(features, InKeys(df.Keys));
    PresentListed(df, features);
    base := map[];
    for i := 0 to |present|
      invariant Listed(df, present[..i])
      invariant base == BaselineMap(df, present[..i], show, sqrt)
    {
      var c := present[i];
      BaselineMapSnoc(df, present, i, show, sqrt);
      base := base[c := BaselineOf(df[c], show, sqrt)];
    }
    assert present[..|present|] == present;
    BaselineOfPresent(df, features, show, sqrt);
    BaselineWellFormed(df, features, base, show, sqrt);
  }

  /** With a true square root, the baseline of the requested columns has full tables and non-negative spreads. */
  lemma BaselineWellFormed(df: Table, features: seq<string>, base: map<string, FeatureBaseline>,
                           show: real -> string, sqrt: real -> real)
    requires Buildable(df, features)
    requires base.Keys == set c | c in features && c in df
    requires forall c :: c in base ==> c in df && base[c] == BaselineOf(df[c], show, sqrt)
    ensures SqrtSpec(sqrt) ==> WellFormed(base)
  {
    if SqrtSpec(sqrt) {
      forall c | c in base && base[c].NumBaseline?
        ensures FullTable(base[c].quantiles) && base[c].std >= 0.0
      {
        assert c in features && c in df;
        NumericBaselineShape(df[c], show, sqrt);
      }
    }
  }

  /** The requested features that are columns are listed columns. */
  lemma PresentListed(df: Table, features: seq<string>)
    requires Buildable(df, features)
    ensures Listed(df, Filter(features, InKeys(df.Keys)))
  {
    PresentColumns(df, features);
  }

  /** A prefix of a listed sequence of names is listed. */
  lemma ListedPrefix(df: Table, names: seq<string>, i: int)
    requires Listed(df, names) && 0 <= i <= |names|
    ensures Listed(df, names[..i])
  {
    forall c | c in names[..i] ensures c in names {
      var k :| 0 <= k < i && names[..i][k] == c;
      assert names[k] == c;
    }
  }

  /** One more step of the loop adds the next name's baseline to the map. */
  lemma BaselineMapSnoc(df: Table, names: seq<string>, i: int, show: real -> string, sqrt: real -> real)
    requires Listed(df, names) && 0 <= i < |names|
    ensures Listed(df, names[..i]) && Listed(df, names[..i + 1]) && names[i] in df
    ensures BaselineMap(df, names[..i + 1], show, sqrt) ==
      BaselineMap(df, names[..i], show, sqrt)[names[i] := BaselineOf(df[names[i]], show, sqrt)]
  {
    ListedPrefix(df, names, i);
    ListedPrefix(df, names, i + 1);
    assert names[..i + 1][..i] == names[..i];
  }

  /** The map built over the requested features that are columns is the promised baseline. */
  lemma BaselineOfPresent(df: Table, features: seq<string>, show: real -> string, sqrt: real -> real)
    requires Buildable(df, features)
    ensures Listed(df, Filter(features, InKeys(df.Keys)))
    ensures var base := BaselineMap(df, Filter(features, InKeys(df.Keys)), show, sqrt);
      && base.Keys == (set c | c in features && c in df)
      && forall c :: c in base ==> c in df && base[c] == BaselineOf(df[c], show, sqrt)
  {
    var present := Filter(features, InKeys(df.Keys));
    PresentListed(df, features);
    PresentColumns(df, features);
    BaselineMapKeys(df, present, show, sqrt);
    BaselineMapValues(df, present, show, sqrt);
  }

  /** Every listed name is a column of the table, and a numeric one holds a number. */
  predicate Listed(df: Table, names: seq<string>)
  {
    forall c :: c in names ==> c in df && (df[c].kind == NumericKind ==> |Present(df[c].cells)| > 0)
  }

  /** The baselines of the listed columns, later entries overwriting earlier ones. */
  function BaselineMap(df: Table, names: seq<string>, show: real -> string, sqrt: real -> real): map<string, FeatureBaseline>
    requires Listed(df, names)
  {
    if |names| == 0 then map[]
    else
      var c := names[|names| - 1];
      assert c in names;
      BaselineMap(df, names[..|names| - 1], show, sqrt)[c := BaselineOf(df[c], show, sqrt)]
  }

  /** The map holds exactly the listed names. */
  lemma {:induction false} BaselineMapKeys(df: Table, names: seq<string>, show: real -> string, sqrt: real -> real)
    requires Listed(df, names)
    ensures BaselineMap(df, names, show, sqrt).Keys == set c | c in names
  {
    if |names| > 0 {
      var init, last := names[..|names| - 1], names[|names| - 1];
      assert names == init + [last];
      assert Listed(df, init);
      BaselineMapKeys(df, init, show, sqrt);
      var m, mi := BaselineMap(df, names, show, sqrt), BaselineMap(df, init, show, sqrt);
      assert m == mi[last := BaselineOf(df[last], show, sqrt)];
      assert m.Keys == mi.Keys + {last};
      assert (set c | c in names) == (set c | c in init) + {last};
    }
  }

  /** Every entry of the map is its own column's baseline. */
  lemma {:induction false} BaselineMapValues(df: Table, names: seq<string>, show: real -> string, sqrt: real -> real)
    requires Listed(df, names)
    ensures forall c :: c in names ==>
      c in BaselineMap(df, names, show, sqrt) && BaselineMap(df, names, show, sqrt)[c] == BaselineOf(df[c], show, sqrt)
  {
    if |names| > 0 {
      var init, last := names[..|names| - 1], names[|names| - 1];
      assert names == init + [last];
      BaselineMapValues(df, init, show, sqrt);
      assert Listed(df, init);
    }
  }

  /** The requested features that are columns, as a set. */
  lemma PresentColumns(df: Table, features: seq<string>)
    ensures var present := Filter(features, InKeys(df.Keys));
      && (set c | c in present) == (set c | c in features && c in df)
      && forall i :: 0 <= i < |present| ==> present[i] in features && present[i] in df
  {
    var present := Filter(features, InKeys(df.Keys));
    FilterMembers(features, InKeys(df.Keys));
    forall c | c in features && c in df ensures c in present {
      var k :| 0 <= k < |features| && features[k] == c;
      assert InKeys(df.Keys)(features[k]);
    }
  }

  /** Non-membership in a list of names, as a filter condition. */
  function NotListed(names: seq<string>): string -> bool
  {
    c => c !in names
  }

  /**
   * Lines 364-365: the model's features split into those with a baseline
   * (`feats_present`) and those not among them (`missing`), each list in
   * the features' own order; the second list holds exactly the features
   * without a baseline.
   */
  function Partition(features: seq<string>, keys: set<string>): (r: (seq<string>, seq<string>))
    ensures r.0 == Filter(features, InKeys(keys)) && r.1 == Filter(features, NotInKeys(keys))
    ensures multiset(r.0) + multiset(r.1) == multiset(features)
    ensures forall i :: 0 <= i < |r.0| ==> r.0[i] in features && r.0[i] in keys
    ensures forall i :: 0 <= i < |r.1| ==> r.1[i] in features && r.1[i] !in keys
    ensures forall i :: 0 <= i < |features| ==> (features[i] in r.0 <==> features[i] in keys)
    ensures forall i :: 0 <= i < |features| ==> (features[i] in r.1 <==> features[i] !in keys)
  {
    var p, q := InKeys(keys), NotInKeys(keys);
    var present := Filter(features, p);
    FilterSplit(features, p, q);
    FilterMembers(features, p);
    FilterMembers(features, q);
    forall i | 0 <= i < |features| ensures NotListed(present)(features[i]) == q(features[i]) {
      if features[i] in present {
        var j :| 0 <= j < |present| && present[j] == features[i];
      }
    }
    FilterAgree(features, NotListed(present), q);
    (present, Filter(features, NotListed(present)))
  }

  /** Filters that agree on every element of a sequence pick the same elements. */
  lemma {:induction false} FilterAgree(s: seq<string>, p: string -> bool, q: string -> bool)
    requires forall i :: 0 <= i < |s| ==> p(s[i]) == q(s[i])
    ensures Filter(s, p) == Filter(s, q)
  {
    if |s| > 0 {
      FilterAgree(s[..|s| - 1], p, q);
    }
  }

  /**
   * The features with a baseline are exactly the requested features that
   * are columns of the table, in request order; the rest are missing.
   */
  lemma PresentAreColumns(df: Table, features: seq<string>, base: map<string, FeatureBaseline>)
    requires base.Keys == set c | c in features && c in df
    ensures Partition(features, base.Keys).0 == Filter(features, InKeys(df.Keys))
    ensures Partition(features, base.Keys).1 == Filter(features, NotInKeys(df.Keys))
  {
    FilterAgree(features, InKeys(base.Keys), InKeys(df.Keys));
    FilterAgree(features, NotInKeys(base.Keys), NotInKeys(df.Keys));
  }

  /**
   * A numeric baseline: the mean of the column's numbers, a standard
   * deviation whose square is their population variance, and a table with
   * exactly the ranks 1..99 whose values do not decrease with the rank and
   * lie between the smallest and largest number.
   */
  lemma NumericBaselineShape(col: Column, show: real -> string, sqrt: real -> real)
    requires col.kind == NumericKind && |Present(col.cells)| > 0
    ensures var b, xs := BaselineOf(col, show, sqrt), Present(col.cells);
      && b.NumBaseline?
      && b.mean == Mean(xs)
      && (SqrtSpec(sqrt) ==> 0.0 <= b.std && b.std * b.std == Variance(xs))
      && FullTable(b.quantiles)
      && NonDecreasing(b.quantiles)
      && (forall i :: 0 <= i < 99 ==> Min(xs) <= b.quantiles[i].1 <= Max(xs))
  {
    var xs := Present(col.cells);
    QuantileTableNonDecreasing(xs);
    QuantileTableWithin(xs);
  }

  lemma QuantileTableNonDecreasing(xs: seq<real>)
    requires |xs| > 0
    ensures NonDecreasing(QuantileTable(xs))
  {
    var qs := QuantileTable(xs);
    forall i, j | 0 <= i < j < |qs| ensures qs[i].1 <= qs[j].1 {
      PercentileMonotone(xs, i + 1, j + 1);
    }
  }

  lemma QuantileTableWithin(xs: seq<real>)
    requires |xs| > 0
    ensures forall i :: 0 <= i < 99 ==> Min(xs) <= QuantileTable(xs)[i].1 <= Max(xs)
  {
  }

  /**
   * A categorical baseline: at most 50 distinct text forms of the column's
   * non-missing cells, none less frequent than the one after it; a form
   * left out occurs no more often than any kept one, and only when 50 are
   * kept.
   */
  lemma CategoricalBaselineShape(col: Column, show: real -> string, sqrt: real -> real)
    requires col.kind == OtherKind
    ensures var b, ss := BaselineOf(col, show, sqrt), StringForms(col.cells, show);
      && b.CatBaseline?
      && |b.choices| <= MaxChoices
      && NoDup(b.choices)
      && (forall i :: 0 <= i < |b.choices| ==> b.choices[i] in ss)
      && (forall i, j :: 0 <= i < j < |b.choices| ==> Count(ss, b.choices[i]) >= Count(ss, b.choices[j]))
      && (forall v :: v in ss && v !in b.choices ==>
            |b.choices| == MaxChoices &&
            forall i :: 0 <= i < |b.choices| ==> Count(ss, b.choices[i]) >= Count(ss, v))
  {
    var ss := StringForms(col.cells, show);
    TopValues(ss, MaxChoices);
  }

  /**
   * Every choice is the text of some non-missing cell, and when fewer than
   * 50 are kept no cell's text is left out.
   */
  lemma ChoicesFromCells(col: Column, show: real -> string, sqrt: real -> real)
    requires col.kind == OtherKind
    ensures var choices := BaselineOf(col, show, sqrt).choices;
      && (forall i :: 0 <= i < |choices| ==> FormOfSomeCell(choices[i], col.cells, show))
      && (|choices| < MaxChoices ==>
            forall k :: 0 <= k < |col.cells| && !col.cells[k].Missing? ==> Form(col.cells[k], show) in choices)
  {
    var choices := BaselineOf(col, show, sqrt).choices;
    var ss := StringForms(col.cells, show);
    CategoricalBaselineShape(col, show, sqrt);
    StringFormsFromCells(col.cells, show);
    StringFormsCoverCells(col.cells, show);
    forall i | 0 <= i < |choices| ensures FormOfSomeCell(choices[i], col.cells, show) {
      var j :| 0 <= j < |ss| && ss[j] == choices[i];
    }
  }

  /** The choices are ordered by how many of the column's cells have them as text, most first. */
  lemma ChoicesByCellCount(col: Column, show: real -> string, sqrt: real -> real)
    requires col.kind == OtherKind
    ensures var choices := BaselineOf(col, show, sqrt).choices;
      forall i, j :: 0 <= i < j < |choices| ==>
        |Filter(col.cells, HasForm(choices[i], show))| >= |Filter(col.cells, HasForm(choices[j], show))|
  {
    var choices := BaselineOf(col, show, sqrt).choices;
    forall i, j | 0 <= i < j < |choices|
      ensures |Filter(col.cells, HasForm(choices[i], show))| >= |Filter(col.cells, HasForm(choices[j], show))|
    {
      StringFormsCounts(col.cells, show, choices[i]);
      StringFormsCounts(col.cells, show, choices[j]);
    }
  }

  /** The first `n` of `ValueCounts(ss)`: distinct values of `ss`, most frequent first, none left out more frequent. */
  lemma TopValues(ss: seq<string>, n: nat)
    ensures var r := Take(ValueCounts(ss), n);
      && |r| <= n
      && NoDup(r)
      && (forall i :: 0 <= i < |r| ==> r[i] in ss)
      && (forall i, j :: 0 <= i < j < |r| ==> Count(ss, r[i]) >= Count(ss, r[j]))
      && (forall v :: v in ss && v !in r ==>
            |r| == n && forall i :: 0 <= i < |r| ==> Count(ss, r[i]) >= Count(ss, v))
  {
    var ranked := ValueCounts(ss);
    var r := Take(ranked, n);
    ValueCountsShape(ss);
    forall v | v in ss && v !in r
      ensures |r| == n && forall i :: 0 <= i < |r| ==> Count(ss, r[i]) >= Count(ss, v)
    {
      var k :| 0 <= k < |ranked| && ranked[k] == v;
      assert k >= |r|;
      assert forall i :: 0 <= i < |r| ==> r[i] == ranked[i];
    }
  }

  /** `ValueCounts(ss)` lists every value of `ss` once, most frequent first. */
  lemma ValueCountsShape(ss: seq<string>)
    ensures var ranked := ValueCounts(ss);
      && NoDup(ranked)
      && (forall i :: 0 <= i < |ranked| ==> ranked[i] in ss)
      && (forall v :: v in ss ==> v in ranked)
      && (forall i, j :: 0 <= i < j < |ranked| ==> Count(ss, ranked[i]) >= Count(ss, ranked[j]))
  {
    var d := Distinct(ss);
    var key := ByFrequency(ss);
    var ranked := SortBy(d, key);
    DistinctMembers(ss);
    NoDupPermutation(d, ranked);
    forall i | 0 <= i < |ranked| ensures ranked[i] in ss {
      assert ranked[i] in multiset(d);
    }
    forall v | v in ss ensures v in ranked {
      assert v in d;
      assert v in multiset(ranked);
    }
    forall i, j | 0 <= i < j < |ranked| ensures Count(ss, ranked[i]) >= Count(ss, ranked[j]) {
      assert key(ranked[i]) <= key(ranked[j]);
    }
  }

  /** The slider range and starting value (`numeric_bounds`). */
  datatype Bounds = Bounds(lo: real, hi: real, initial: real)

  /**
   * `numeric_bounds(s)`: with no finite value, the fixed (0, 1, 0.5);
   * otherwise the 1st and 99th percentiles when they differ and the minimum
   * and maximum when they do not, so that always `lo <= hi` within the
   * observed range, and the mean as the starting value.
   */
  function NumericBounds(cells: seq<Cell>): (b: Bounds)
    ensures |Present(cells)| == 0 ==> b == Bounds(0.0, 1.0, 0.5)
    ensures |Present(cells)| > 0 ==>
      var xs := Present(cells);
      && b.lo <= b.hi
      && Min(xs) <= b.lo && b.hi <= Max(xs)
      && b.initial == Mean(xs)
      && (if Percentile(xs, 1) < Percentile(xs, 99)
          then b.lo == Percentile(xs, 1) && b.hi == Percentile(xs, 99)
          else b.lo == Min(xs) && b.hi == Max(xs))
  {
    var xs := Present(cells);
    if |xs| == 0 then Bounds(0.0, 1.0, 0.5)
    else
      var lo, hi := Percentile(xs, 1), Percentile(xs, 99);
      if lo >= hi then Bounds(Min(xs), Max(xs), Mean(xs)) else Bounds(lo, hi, Mean(xs))
  }
}
