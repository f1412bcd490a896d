# Baseline statistics and scoring engine of the questionnaire risk app

This project models, in Dafny, the computational core of `app_V3.py`, a
Streamlit app that scores one respondent's answers to a behaviour
questionnaire against a reference population:

- **Baseline builder** (`Baseline`): `compute_baseline` keeps the requested
  features that are columns of the reference table, in request order, and
  gives each one a baseline. A numeric column gets the mean, the population
  standard deviation and a table of the percentiles 1..99 (numpy's linear
  estimator). Any other column gets up to 50 distinct text values, most
  frequent first. The module also covers the split of the model's features
  into `feats_present` and `missing`, and the slider bounds `numeric_bounds`.
- **Statistics** (`Stats`): sum, mean, population variance, minimum,
  maximum, and numpy's default percentile (Hyndman and Fan's definition 7),
  all over exact reals.
- **Positional scorer** (`Scoring`): `zscore`, and `empirical_percentile`.
  The percentile walks the rank-sorted quantile table up to the first value
  above `x`, interpolates between the bracketing ranks and clips to [1, 99].
  It is written as a method with the source's loop and `break`, and proved
  against the function `PercentileOf`.
- **Risk fusion and verdict** (`Fusion`): a weighted average of the
  behaviour and text probabilities, or the behaviour probability alone; then
  the three tiers at 0.3 and 0.6.
- **Deviation report** (`Report`): a loop builds one row per numeric feature
  with an answer. The rows are ranked by |z|, descending, with missing
  z-scores last, and the rows with |z| >= 2 are flagged.
- **Format sniffing** (`FileFormat`) and **question labels** (`Labels`):
  `_detect_file_format` / `detect_file_format` over the file's bytes, and
  `label_for`.

`Sequences` holds the list operations these are built from: filtering (the
source's list comprehensions), insertion sort by a real key (`sorted`,
`sort_values`, `value_counts`), distinctness and `s[:n]`. `Wrappers` holds
`Option`, which stands for Python's `None` and for the `NaN` results that
mean "undefined".

Modelling choices:

- Numbers are Dafny `real`s, so float rounding, infinities and NaN
  propagation do not arise.
- A reference-table cell is `Missing`, `Num(v)` or `Str(s)`. A column carries
  its pandas kind, numeric or other.
- `np.sqrt` is the parameter `sqrt`. The lemmas about the standard deviation
  assume only `SqrtSpec(sqrt)`, which says `sqrt(v) >= 0` and
  `sqrt(v) * sqrt(v) == v`.
- `str()` of a number in a text column is the parameter `show`.
- A quantile table is the item list of a Python dict: pairs `(rank, value)`
  with distinct ranks, in insertion order. `qs.get` is a lookup over these
  pairs. `empirical_percentile` sorts the items by rank, as the source does.
- The respondent's answers form a map from feature to cell; an absent key is
  an unanswered question.

Three points where the model takes care to do what the code does:

- pandas' `value_counts` promises no order among values with equal counts,
  so the model promises none either.
- A numeric column with no number has no guard in the code
  (app_V3.py:354-356), which would store NaN statistics for it. The model
  requires every numeric column to hold at least one number.
- `compute_baseline` skips only NaN entries. Over reals every number is
  finite, so skipping NaN and skipping non-finite entries come to the same.

## Model

| member | source | states |
|---|---|---|
| Sequences.Filter | app_V3.py:349 | every kept element satisfies the condition, and no more elements are kept than given |
| Sequences.FilterMembers | app_V3.py:349 | the kept elements come from the list, and every element that satisfies the condition is kept |
| Sequences.FilterSplit | app_V3.py:364-365 | a condition and its negation split a list into two parts whose multisets add up to the list's |
| Sequences.FilterCount | app_V3.py:492 | a filter keeps each value exactly as often as the list holds it when the value satisfies the condition, and never otherwise |
| Sequences.FilterEmpty | app_V3.py:476 | a filter keeps nothing exactly when no element satisfies the condition |
| Sequences.FilterIsSubsequence | app_V3.py:349 | filtering keeps the kept elements in their original relative order |
| Sequences.FilterSorted | app_V3.py:492 | selecting rows of a sorted table leaves it sorted |
| Sequences.Insert | app_V3.py:322 | inserting into a sorted list gives a sorted list with exactly one more element, the inserted one |
| Sequences.SortBy | app_V3.py:322 | sorting by a key gives a permutation of the input that is non-decreasing in the key |
| Sequences.SortBySorted | app_V3.py:322 | a list already sorted by the key is left unchanged |
| Sequences.NoDupPermutation | app_V3.py:359 | reordering distinct values keeps them distinct |
| Sequences.Take | app_V3.py:360 | `s[:n]` has min(n, len(s)) elements, the first ones of `s` |
| Stats.Min | app_V3.py:292 | `x.min()` is one of the values and no larger than any of them |
| Stats.Max | app_V3.py:292 | `x.max()` is one of the values and no smaller than any of them |
| Stats.Mean | app_V3.py:355 | `np.nanmean` of the numbers lies in [min, max] |
| Stats.SumBounds | app_V3.py:355 | a sum of n values in [lo, hi] lies in [n * lo, n * hi] |
| Stats.MeanBounds | app_V3.py:355 | a total in [n * lo, n * hi] divided by n > 0 lies in [lo, hi] |
| Stats.SquaredDeviations | app_V3.py:355 | a sum of squared deviations is never negative |
| Stats.Variance | app_V3.py:355 | the population variance is never negative |
| Stats.Ascending | app_V3.py:356 | the values sorted ascending: a permutation, in order |
| Stats.AscendingEnds | app_V3.py:356 | the sorted values start at the minimum and end at the maximum |
| Stats.SortedEnds | app_V3.py:356 | any ascending permutation of the values starts at their minimum and ends at their maximum |
| Stats.QuantileOfSorted | app_V3.py:356 | numpy's linear percentile of sorted values is the value at the rank when the rank is whole, the first value at q = 0 and the last at q = 100 |
| Stats.Percentile | app_V3.py:356 | `np.nanpercentile(x, q)` lies in [min, max], and is the minimum at q = 0 and the maximum at q = 100 |
| Stats.QuantileBracket | app_V3.py:356 | the linear percentile of sorted values lies between the two neighbours at its rank |
| Stats.QuantileWithin | app_V3.py:356 | the linear percentile of sorted values lies between the first and the last |
| Stats.QuantileMonotone | app_V3.py:356 | the linear percentile of sorted values does not decrease as `q` grows |
| Stats.PercentileMonotone | app_V3.py:288 | `np.nanpercentile(x, q)` does not decrease as `q` grows |
| Baseline.Present | app_V3.py:354 | the numbers of a column are at most as many as its cells |
| Baseline.PresentMembers | app_V3.py:354 | as sets, the numbers kept are exactly the numeric cells of the column |
| Baseline.PresentCounts | app_V3.py:354 | each number is kept exactly as often as the column holds it |
| Baseline.QuantileTable | app_V3.py:356 | the table has the ranks 1..99 in order, and rank q holds the q-th percentile of the numbers |
| Baseline.Form | app_V3.py:359 | `astype(str)` of a text cell is its text and of a number its rendering by `show` |
| Baseline.StringForms | app_V3.py:359 | `dropna().astype(str)` has at most as many entries as there are cells |
| Baseline.StringFormsCounts | app_V3.py:359 | each text form occurs exactly as often as there are non-missing cells with that form |
| Baseline.StringFormsFromCells | app_V3.py:359 | every text form is the form of some non-missing cell |
| Baseline.StringFormsCoverCells | app_V3.py:359 | the form of every non-missing cell is among the text forms |
| Baseline.Distinct | app_V3.py:359 | the distinct values hold no value twice |
| Baseline.DistinctMembers | app_V3.py:359 | the distinct values are exactly the values of the list |
| Baseline.ValueCounts | app_V3.py:359 | `value_counts().index` holds no value twice and lists the values by non-increasing count |
| Baseline.Choices | app_V3.py:359-360 | at most 50 choices, no value twice, by non-increasing count among the text forms |
| Baseline.BaselineOf | app_V3.py:352-360 | a column gets a numeric baseline exactly when its kind is numeric |
| Baseline.ComputeBaseline | app_V3.py:348-361 | the loop produces a baseline for exactly the requested features that are columns, each computed from its own column; with a true square root every numeric baseline has a full quantile table and a non-negative spread |
| Baseline.BaselineWellFormed | app_V3.py:348-361 | with a true square root, the baselines of the requested columns have full quantile tables and non-negative spreads |
| Baseline.PresentListed | app_V3.py:349-353 | every requested feature that is a column is in the table, and a numeric one holds a number |
| Baseline.ListedPrefix | app_V3.py:351 | the features the loop has visited so far are columns of the table |
| Baseline.BaselineMapSnoc | app_V3.py:351-360 | each turn of the loop adds the next feature's baseline to the dict |
| Baseline.BaselineOfPresent | app_V3.py:349-361 | the dict built over `feats_present` has exactly the requested features that are columns as keys, each with its own column's baseline |
| Baseline.BaselineMapKeys | app_V3.py:350-357 | the dict built over a list of names has exactly those names as keys |
| Baseline.BaselineMapValues | app_V3.py:350-360 | every listed name maps to its own column's baseline, whatever the repetitions |
| Baseline.PresentColumns | app_V3.py:349 | `feats_present` holds exactly the requested features that are columns of the table |
| Baseline.Partition | app_V3.py:364-365 | `feats_present` and `missing` keep the features' order, split them with multiplicity, and a feature is in the first exactly when it has a baseline and in the second exactly when it has none |
| Baseline.FilterAgree | app_V3.py:364 | conditions that agree on the list select the same elements |
| Baseline.PresentAreColumns | app_V3.py:363-365 | over the baseline `compute_baseline` returns, `feats_present` is the requested features that are columns and `missing` the rest |
| Baseline.NumericBaselineShape | app_V3.py:353-357 | a numeric baseline has the mean of the numbers, a spread whose square is their variance, and ranks 1..99 whose values do not decrease and lie in [min, max] |
| Baseline.QuantileTableNonDecreasing | app_V3.py:356 | the percentile table's values do not decrease with the rank |
| Baseline.QuantileTableWithin | app_V3.py:356 | every entry of the percentile table lies between the smallest and the largest number |
| Baseline.CategoricalBaselineShape | app_V3.py:358-360 | a text baseline has at most 50 distinct values of the column, none less frequent than the next; a value is left out only when 50 are kept, and is then no more frequent than any kept one |
| Baseline.ChoicesFromCells | app_V3.py:359-360 | every choice is the text of a non-missing cell, and with fewer than 50 choices every non-missing cell's text is a choice |
| Baseline.ChoicesByCellCount | app_V3.py:359-360 | the choices are ordered by how many of the column's non-missing cells have them as text, most first |
| Baseline.TopValues | app_V3.py:359-360 | the first n of `value_counts().index`: distinct values of the list, by non-increasing count, none left out more frequent than a kept one |
| Baseline.ValueCountsShape | app_V3.py:359 | `value_counts().index` lists every value once, most frequent first |
| Baseline.NumericBounds | app_V3.py:283-295 | with no number, (0, 1, 0.5); otherwise the 1st and 99th percentiles when they differ, else min and max, so lo <= hi within [min, max], with the mean as the starting value |
| Scoring.ZScore | app_V3.py:314-317 | z is undefined exactly when there is no spread or it is 0; otherwise `z * sd == x - mu` |
| Scoring.ZScoreOfSpread | app_V3.py:314-317 | with a non-negative spread, z exists exactly when the spread is not 0, and then `z * sd == x - mu` and z > 0 exactly when x > mu |
| Scoring.ZScoreSign | app_V3.py:314-317 | with a positive spread, z has the sign of `x - mu` and is 0 exactly at the mean |
| Scoring.Lookup | app_V3.py:330-331 | a value found by `qs.get(k)` is stored under `k`, and nothing is found only when no item has the key `k` |
| Scoring.LookupFinds | app_V3.py:330-331 | `qs.get(k)` gives the value stored under the key `k` |
| Scoring.LookupMisses | app_V3.py:330-331 | `qs.get(k)` gives None for a key the dict does not hold |
| Scoring.FirstAbove | app_V3.py:324-329 | the walk stops at the first item whose value exceeds `x`, after items whose values are all at most `x` |
| Scoring.Clip | app_V3.py:335 | `np.clip(v, lo, hi)` lies in [lo, hi] when lo <= hi, and is `v` when `v` already lies there |
| Scoring.Interpolate | app_V3.py:330-335 | with equal bracketing ranks the result is that rank, and with a lower rank in [1, 99] the result lies in [1, 99] |
| Scoring.PercentileOf | app_V3.py:319-335 | the percentile is undefined exactly when the table is empty |
| Scoring.EmpiricalPercentile | app_V3.py:319-335 | the loop with its `break` computes exactly `PercentileOf` |
| Scoring.FullTableSorted | app_V3.py:322 | sorting a full table by rank leaves it as it is |
| Scoring.FullTableLookup | app_V3.py:330-331 | in a full table rank k holds the k-th value, and any other key holds nothing |
| Scoring.FractionWithin | app_V3.py:334 | between two bracketing values the fraction lies in [0, 1) |
| Scoring.FractionMonotone | app_V3.py:334 | the fraction grows with `x` |
| Scoring.FullTablePercentile | app_V3.py:322-335 | over a full table: 1 below every value, 99 at or above every value, otherwise rank j plus the fraction of the way from the j-th value to the next, within [j, j + 1) |
| Scoring.EdgePercentile | app_V3.py:323-333 | when the walk stops before the first item the result is exactly 1, and when it passes every item exactly 99 |
| Scoring.InterpolateSameRank | app_V3.py:332-333 | with both bracketing ranks equal, the result is that rank |
| Scoring.InterpolateBetween | app_V3.py:332-335 | between neighbouring ranks with distinct values the clip does not act, and the result is the lower rank plus the fraction |
| Scoring.PercentileWalk | app_V3.py:322-331 | over a full table the bracketing ranks are j and j + 1, or 1 and 99 at the ends |
| Scoring.InnerPercentile | app_V3.py:330-335 | strictly inside a full table the percentile is the rank reached plus the fraction to the next value |
| Scoring.InnerInterpolate | app_V3.py:330-335 | interpolating between ranks j and j + 1 of a full table adds the fraction to j |
| Scoring.PercentileRange | app_V3.py:319-335 | over a full table the percentile is always defined and lies in [1, 99] |
| Scoring.PercentileEmpty | app_V3.py:320-321 | the empty table gives NaN |
| Scoring.PercentileBelowFirst | app_V3.py:323-333 | below the rank-1 value the percentile is exactly 1 |
| Scoring.PercentileAtTop | app_V3.py:323-333 | at or above the rank-99 value of a non-decreasing table the percentile is exactly 99 |
| Scoring.PercentileBracket | app_V3.py:322-335 | in a non-decreasing table, with `qs[k] <= x < qs[k+1]`, the result is `k + (x - qs[k]) / (qs[k+1] - qs[k])` and lies in [k, k + 1) |
| Scoring.FirstAboveAt | app_V3.py:324-329 | in a non-decreasing table the walk stops exactly at the first value above `x` |
| Scoring.FirstAboveMonotone | app_V3.py:324-329 | a larger `x` never stops the walk earlier |
| Scoring.PercentileBetweenRanks | app_V3.py:322-335 | over a full table the percentile lies between the rank where the walk stopped and the next rank |
| Scoring.PercentileMonotone | app_V3.py:319-335 | over a full table a larger value never gets a smaller percentile |
| Scoring.SameBracketMonotone | app_V3.py:330-335 | two values that stop the walk at the same inner rank get percentiles in the same order |
| Fusion.Fuse | app_V3.py:426-431 | without a text probability the fused value is the behaviour probability; with one and a weight in [0, 1] it lies between the two, and it is their common value when they agree |
| Fusion.WeightedAverageBetween | app_V3.py:427-428 | a weighted average with weights in [0, 1] lies between the two values, and averaging a value with itself gives the value |
| Fusion.FuseIsProbability | app_V3.py:426-431 | two probabilities fused with a weight in [0, 1], the range of the slider at line 400, give a probability |
| Fusion.TierOf | app_V3.py:434-439 | High exactly when fused >= 0.6, Elevated exactly when 0.3 <= fused < 0.6, Low exactly when fused < 0.3 |
| Fusion.TierMonotone | app_V3.py:434-439 | a larger fused probability never gets a milder verdict |
| Fusion.TierBoundaries | app_V3.py:434-439 | 0.6 is High, 0.59999 is Elevated, 0.3 is Elevated, 0.29999 is Low |
| Fusion.FusionExample | app_V3.py:426-439 | behaviour 0.8 and text 0.2 at weight 0.7 fuse to 0.62, which is High |
| Report.Abs | app_V3.py:474 | abs(z) is non-negative and equals z or -z |
| Report.RowOf | app_V3.py:470-473 | a row holds the feature, the answer, the baseline's mean and spread, a z-score exactly when the spread is not 0, and a percentile exactly when the quantile table is not empty |
| Report.Rows | app_V3.py:463-473 | one row per feature that has a numeric baseline and a numeric answer, in feature order, each with its own values |
| Report.AssembleRows | app_V3.py:463-473 | the loop that skips unanswered and categorical features appends exactly `Rows` |
| Report.RowFacts | app_V3.py:469-473 | given a well-formed baseline (one `compute_baseline` builds with a true square root), a row's z exists exactly when its std is nonzero, measures the answer's distance from the mean in std units with the right sign, and its percentile lies in [1, 99] |
| Report.RowZ | app_V3.py:471 | with a non-negative spread, a row's z exists exactly when its spread is not 0, and then measures the answer's distance from the mean in spread units, with its sign |
| Report.RowPercentile | app_V3.py:472 | over a full quantile table a row's percentile exists and lies in [1, 99] |
| Report.RankedIsSorted | app_V3.py:474 | being ranked is being sorted by descending abs(z), with missing z below all |
| Report.Rank | app_V3.py:474 | the ranked report is a permutation of the rows, no row with a z after one without, and abs(z) non-increasing |
| Report.Flagged | app_V3.py:491-492 | the flagged rows are exactly the report rows with abs(z) >= 2, each as often as in the report, in report order |
| Report.FlaggedRanked | app_V3.py:491-492 | the flagged rows of a ranked report are ranked and all have a z |
| Report.AssembleReport | app_V3.py:463-492 | the report is the ranked rows and the flagged table its outliers, both ranked; the report is empty exactly when no feature has a numeric baseline and a numeric answer |
| Report.RankAsWritten | app_V3.py:474 | `sort_values("z")` as written raises exactly for no rows, and otherwise gives a non-empty ranking |
| Report.AsWrittenRaisesWithoutScorable | app_V3.py:463-477 | as written, the ranking raises exactly when no feature is scorable, so the empty-report message is never reached |
| Report.AllCategoricalRaises | app_V3.py:463-477 | one answered categorical question and nothing else makes the ranking raise |
| FileFormat.Head | app_V3.py:20 | `f.read(4096)` is the first min(4096, size) bytes |
| FileFormat.FirstLine | app_V3.py:27 | the first line is the prefix before the first line break, which holds no line break |
| FileFormat.DetectFileFormat | app_V3.py:17-32 | xlsx exactly for the ZIP signature; xls exactly for the OLE2 signature without it; csv exactly when neither and a comma or tab comes before any line break in the first 4096 bytes; otherwise None |
| FileFormat.SignatureInHead | app_V3.py:20-24 | the head starts with a signature exactly when the file does |
| FileFormat.SeparatorInFirstLine | app_V3.py:25-29 | the head's first line holds a comma or tab exactly when one precedes any line break within the head |
| FileFormat.SeparatorFromFirstLine | app_V3.py:27-28 | a separator on the head's first line stands before every line break of the file |
| FileFormat.SeparatorToFirstLine | app_V3.py:27-28 | a separator in the head before any line break is on the head's first line |
| FileFormat.ZipWins | app_V3.py:21-22 | a ZIP signature followed by a comma is still xlsx |
| FileFormat.CsvExamples | app_V3.py:25-32 | `a,b` on the first line is csv; a comma only on the second line is not |
| Labels.LabelFor | app_V3.py:181-183 | the bare code exactly when there is no non-empty question text; otherwise the text, the opening bracket, the code and the closing bracket, each recoverable |
| Labels.LabelsDistinguishCodes | app_V3.py:181-183 | codes that hold no opening bracket never share a label |
| Labels.SuffixAfterLast | app_V3.py:183 | two bracketed labels that are equal have equal codes when the codes hold no opening bracket |

The same format sniffing is written twice in the source, at
app_V3.py:17-32 and app_V3.py:231-248. `FileFormat.DetectFileFormat`
models both.

## Findings

| source | as written | input that shows it | evidently intended | confidence | as-written member | corrected member |
|---|---|---|---|---|---|---|
| app_V3.py:474 | `pd.DataFrame(rows)` of no rows has no `z` column, so `sort_values("z")` raises `KeyError` and the `rep.empty` branch at lines 476-477 is unreachable | every present feature categorical or unanswered, e.g. one categorical question `Q1` answered `a` | no scorable feature gives an empty report and the message at lines 476-477 | not executed | Report.RankAsWritten | Report.AssembleReport |

`Report.AsWrittenRaisesWithoutScorable` and `Report.AllCategoricalRaises`
show the discrepancy for `Report.RankAsWritten`. The rest of the model ranks
through `Report.Rank`, which gives the empty report for no rows, and
`Report.AssembleReport` proves that the report is empty exactly when no
feature is scorable.

## Left out

- The Streamlit user interface: sidebar, tabs, sliders, select boxes, captions, warnings, and the `st.error` and `st.stop` control flow. It is presentation only. The answers and the slider weight are inputs to the model.
- The Plotly gauge, bar charts and histograms, including taking the top 15 rows for the charts. They are rendering only.
- Reading files and models: `load_dataset`, the module-level read block, `load_meta`, `load_model`, and loading the text model. Format sniffing is modelled on the file's bytes, which are given.
- Classifier inference (`predict_proba`): the behaviour and text probabilities are inputs.
- CSV export of the report, which is pandas serialisation, and the `abs_z` helper column, which only holds |z| as `Abs` computes it.
- IEEE-754 arithmetic: infinities, NaN propagation and rounding at the tier thresholds. Numbers are exact reals, and "undefined" is `None`.
- Scoring.ZScore: does not model the `not np.isfinite(sd)` branch, because a real spread is always finite.
- Baseline.NumericBounds: does not model the `np.nanmedian` fallback or the midpoint fallback for a non-finite mean or percentile, because over reals these cases cannot occur.
- Report.Rows: skips an answer that is `NaN`, and in this model such an answer cannot occur because the answers are reals. A text answer to a feature with a numeric baseline is also skipped, whereas the source would call `float()` on it. The interface gives such features a slider, which only produces numbers.
- Baseline.BaselineOf: requires a numeric column to hold at least one number, because the code does not guard the all-missing case (app_V3.py:354-356).
- Baseline.ComputeBaseline: requires, through `Buildable`, that every requested numeric column holds at least one number, for the same reason.
- `np.sqrt` and `str()` of a number are parameters, `sqrt` and `show`. The lemmas about the spread assume `SqrtSpec(sqrt)`.
- Baseline.ValueCounts and Report.Rank: the order among values with equal counts, and among rows with equal |z|, is this model's insertion sort. The contracts promise no order among ties, just as pandas promises none.
- FileFormat.FirstLine: breaks lines only at the ASCII characters `str.splitlines` uses, so U+0085, U+2028 and U+2029 are not line breaks here. It also does not model `decode("utf-8", errors="ignore")` dropping invalid bytes. Both matter only for non-ASCII heads.
- The first definition of `compute_baseline` (app_V3.py:297-312) is shadowed by the one at app_V3.py:348-361 before it is ever called, so only the later one is modelled.
