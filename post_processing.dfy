/**
  The comparator's post-processing of its result table, in its fixed order:
  splitting the metric name into dimension columns, the cumulative-volume cut
  on the rounded point forecast, the status and deviation filter, rendering
  the deviation as text, and dropping the metric column.
*/
module PostProcessing {
  import opened Tables
  import opened Text
  import opened Numbers
  import opened Ranking

  /** The comparator's post-processing switches. */
  datatype Options = Options(
    dimensionNames: Option<seq<string>>,
    cumulativeThreshold: Option<real>,
    onlyAnomalies: bool,
    minDeviation: real,
    formatDeviation: bool)

  /** Python's truth value of the dimension list: given and non-empty. */
  predicate HasDimensions(o: Options)
  {
    o.dimensionNames.Some? && o.dimensionNames.value != []
  }

  // ---------------------------------------------------------- dimensions

  /** `str.split('_')` of a metric cell; no parts for a cell that is no text. */
  function MetricParts(c: Cell): Option<seq<string>>
  {
    if c.Str? then Some(Split(c.s, '_')) else None
  }

  /** Part `i` of the split, or None when the metric has fewer parts. */
  function Part(parts: Option<seq<string>>, i: nat): Cell
  {
    if parts.Some? && i < |parts.value| then Str(parts.value[i]) else Null
  }

  /** Column `i` of `str.split('_', expand=True)` over the metric column. */
  function DimensionColumn(t: Table, i: nat): (d: seq<Cell>)
    ensures |d| == |t.rows|
  {
    seq(|t.rows|, k requires 0 <= k < |t.rows| => Part(MetricParts(Get(t.rows[k], "metric")), i))
  }

  /** `t` once the first `m` dimension columns are assigned. */
  function WithDimensions(t: Table, dims: seq<string>, m: nat): (r: Table)
    requires m <= |dims|
    ensures |r.rows| == |t.rows|
    ensures forall c :: c in r.columns <==> c in t.columns || c in dims[..m]
    ensures forall k :: 0 <= k < |t.rows| ==> r.rows[k].index == t.rows[k].index
  {
    if m == 0 then t
    else
      var prev := WithDimensions(t, dims, m - 1);
      assert forall c :: c in dims[..m] <==> c in dims[..m - 1] || c == dims[m - 1];
      AssignColumn(prev, dims[m - 1], DimensionColumn(t, m - 1))
  }

  /** No dimension after `i` and before `m` has the name of dimension `i`. */
  predicate LastAssigned(dims: seq<string>, i: nat, m: nat)
    requires i < m <= |dims|
  {
    forall j :: i < j < m ==> dims[j] != dims[i]
  }

  /** None of the first `m` dimensions is named `c`. */
  predicate NotAssigned(dims: seq<string>, c: string, m: nat)
    requires m <= |dims|
  {
    forall j :: 0 <= j < m ==> dims[j] != c
  }

  /** Row `k` once the first `m` dimension columns are assigned. */
  function DimensionsRow(t: Table, dims: seq<string>, m: nat, k: nat): Row
    requires m <= |dims| && k < |t.rows|
  {
    if m == 0 then t.rows[k]
    else
      var prev := DimensionsRow(t, dims, m - 1, k);
      Row(prev.index, prev.cells[dims[m - 1] := Part(MetricParts(Get(t.rows[k], "metric")), m - 1)])
  }

  lemma {:induction false} WithDimensionsRow(t: Table, dims: seq<string>, m: nat, k: nat)
    requires m <= |dims| && k < |t.rows|
    ensures WithDimensions(t, dims, m).rows[k] == DimensionsRow(t, dims, m, k)
  {
    if m == 0 {
      NoDimensions(t, dims);
    } else {
      WithDimensionsRow(t, dims, m - 1, k);
      var prev := WithDimensions(t, dims, m - 1);
      assert WithDimensions(t, dims, m) == AssignColumn(prev, dims[m - 1], DimensionColumn(t, m - 1));
    }
  }

  lemma NoDimensions(t: Table, dims: seq<string>)
    ensures WithDimensions(t, dims, 0) == t
  {
  }

  /** In each row, dimension column `i` holds part `i` of the original metric
      unless a later dimension has the same name, and every other column is
      unchanged. */
  lemma WithDimensionsCells(t: Table, dims: seq<string>, m: nat, k: nat)
    requires m <= |dims| && k < |t.rows|
    ensures forall i :: 0 <= i < m && LastAssigned(dims, i, m) ==>
      Get(WithDimensions(t, dims, m).rows[k], dims[i]) == Part(MetricParts(Get(t.rows[k], "metric")), i)
    ensures forall c :: NotAssigned(dims, c, m) ==> Get(WithDimensions(t, dims, m).rows[k], c) == Get(t.rows[k], c)
  {
    WithDimensionsRow(t, dims, m, k);
    forall i | 0 <= i < m && LastAssigned(dims, i, m)
      ensures Get(DimensionsRow(t, dims, m, k), dims[i]) == Part(MetricParts(Get(t.rows[k], "metric")), i)
    {
      DimensionCell(t, dims, m, k, i);
    }
    forall c | NotAssigned(dims, c, m) ensures Get(DimensionsRow(t, dims, m, k), c) == Get(t.rows[k], c) {
      OtherCell(t, dims, m, k, c);
    }
  }

  lemma {:induction false} DimensionCell(t: Table, dims: seq<string>, m: nat, k: nat, i: nat)
    requires i < m <= |dims| && k < |t.rows| && LastAssigned(dims, i, m)
    ensures Get(DimensionsRow(t, dims, m, k), dims[i]) == Part(MetricParts(Get(t.rows[k], "metric")), i)
  {
    if i < m - 1 {
      assert dims[m - 1] != dims[i];
      assert LastAssigned(dims, i, m - 1);
      DimensionCell(t, dims, m - 1, k, i);
    }
  }

  lemma {:induction false} OtherCell(t: Table, dims: seq<string>, m: nat, k: nat, c: string)
    requires m <= |dims| && k < |t.rows| && NotAssigned(dims, c, m)
    ensures Get(DimensionsRow(t, dims, m, k), c) == Get(t.rows[k], c)
  {
    if m > 0 {
      assert dims[m - 1] != c;
      assert NotAssigned(dims, c, m - 1);
      OtherCell(t, dims, m - 1, k, c);
    }
  }

  /** `_split_metric_to_dimensions`. */
  method SplitMetricToDimensions(t: Table, dims: seq<string>) returns (r: Table)
    ensures r == if "metric" !in t.columns || dims == [] then t else WithDimensions(t, dims, |dims|)
  {
    if "metric" !in t.columns || dims == [] {
      return t;
    }
    r := t;
    var i := 0;
    while i < |dims|
      invariant 0 <= i <= |dims|
      invariant r == WithDimensions(t, dims, i)
    {
      r := AssignColumn(r, dims[i], DimensionColumn(t, i));
      i := i + 1;
    }
  }

  /** A metric named by joining one value per dimension with `_` (no value
      holding `_`) splits back into those values, one per dimension column. */
  lemma DimensionsRoundTrip(t: Table, dims: seq<string>, k: nat, values: seq<string>)
    requires 0 <= k < |t.rows| && |values| == |dims| >= 1
    requires forall i, j :: 0 <= i < j < |dims| ==> dims[i] != dims[j]
    requires forall i :: 0 <= i < |values| ==> '_' !in values[i]
    requires Get(t.rows[k], "metric") == Str(Join(values, '_'))
    ensures var r := WithDimensions(t, dims, |dims|);
      forall i :: 0 <= i < |dims| ==> Get(r.rows[k], dims[i]) == Str(values[i])
  {
    SplitJoin(values, '_');
    WithDimensionsCells(t, dims, |dims|, k);
    var parts := MetricParts(Get(t.rows[k], "metric"));
    assert parts == Some(values);
    forall i | 0 <= i < |dims| ensures Get(WithDimensions(t, dims, |dims|).rows[k], dims[i]) == Str(values[i]) {
      assert LastAssigned(dims, i, |dims|);
      assert Part(parts, i) == Str(values[i]);
    }
  }

  // ------------------------------------------------------- cumulative cut

  /** A cell read as a number; the rounded forecast column always holds numbers. */
  function Amount(c: Cell): real
  {
    if c.Num? then c.x else 0.0
  }

  /** Each row paired with its value in `column`, in table order. */
  function Entries(rows: seq<Row>, column: string): (e: seq<(Row, real)>)
    ensures |e| == |rows|
    ensures forall i :: 0 <= i < |rows| ==> e[i] == (rows[i], Amount(Get(rows[i], column)))
  {
    if rows == [] then [] else [(rows[0], Amount(Get(rows[0], column)))] + Entries(rows[1..], column)
  }

  /** The first rank from `k` on whose cumulative share reaches the threshold. */
  function FirstReaching<T>(sorted: seq<(T, real)>, total: real, threshold: real, k: nat): (r: Option<nat>)
    requires total != 0.0
    ensures r.Some? ==> k <= r.value < |sorted| && Share(sorted, r.value, total) >= threshold
    ensures r.Some? ==> forall j :: k <= j < r.value ==> Share(sorted, j, total) < threshold
    ensures r.None? ==> forall j :: k <= j < |sorted| ==> Share(sorted, j, total) < threshold
    decreases |sorted| - k
  {
    if k >= |sorted| then None
    else if Share(sorted, k, total) >= threshold then Some(k)
    else FirstReaching(sorted, total, threshold, k + 1)
  }

  /** The smallest value kept: the minimum of the ranking up to the first rank
      reaching the threshold, or of the whole ranking when none does. */
  function CutValue<T>(sorted: seq<(T, real)>, total: real, threshold: real): real
    requires |sorted| >= 1 && total != 0.0
  {
    match FirstReaching(sorted, total, threshold, 0)
    case Some(k) => Minimum(sorted[..k + 1])
    case None => Minimum(sorted)
  }

  /** `_filter_cumulative_threshold(t, column, threshold)`. */
  function CumulativeCut(t: Table, column: string, threshold: real): (r: Table)
    ensures r.columns == t.columns
    ensures |r.rows| <= |t.rows|
    ensures forall row :: row in r.rows ==> row in t.rows
  {
    if IsEmpty(t) then t
    else
      var total := Total(Entries(t.rows, column));
      if total == 0.0 then t
      else
        var sorted := SortDescending(Entries(t.rows, column));
        var v := CutValue(sorted, total, threshold);
        Where(t, row => Amount(Get(row, column)) >= v)
  }

  /** An empty table, or one whose values sum to zero, passes unchanged. */
  lemma CutUnchanged(t: Table, column: string, threshold: real)
    requires IsEmpty(t) || Total(Entries(t.rows, column)) == 0.0
    ensures CumulativeCut(t, column, threshold) == t
  {
  }

  /** What the cut keeps is closed upwards: a row is kept together with every
      row of at least its value, and the cut keeps rows in their order. */
  lemma CutIsTopSet(t: Table, column: string, threshold: real, kept: Row, other: Row)
    requires kept in CumulativeCut(t, column, threshold).rows
    requires other in t.rows && Amount(Get(other, column)) >= Amount(Get(kept, column))
    ensures other in CumulativeCut(t, column, threshold).rows
    ensures IsSubsequence(CumulativeCut(t, column, threshold).rows, t.rows)
  {
    var total := Total(Entries(t.rows, column));
    if !IsEmpty(t) && total != 0.0 {
      var v := CutValue(SortDescending(Entries(t.rows, column)), total, threshold);
      WhereIsSubsequence(t, row => Amount(Get(row, column)) >= v);
    } else {
      SubsequenceReflexive(t.rows);
    }
  }

  /** The cut keeps a row of the largest value, so a non-empty table stays non-empty. */
  lemma CutKeepsLargest(t: Table, column: string, threshold: real, top: Row)
    requires top in t.rows
    requires forall row :: row in t.rows ==> Amount(Get(row, column)) <= Amount(Get(top, column))
    ensures top in CumulativeCut(t, column, threshold).rows
  {
    var entries := Entries(t.rows, column);
    var total := Total(entries);
    if !IsEmpty(t) && total != 0.0 {
      var sorted := SortDescending(entries);
      var v := CutValue(sorted, total, threshold);
      assert sorted[0] in multiset(entries);
      var i :| 0 <= i < |entries| && entries[i] == sorted[0];
      assert sorted[0].1 <= Amount(Get(top, column));
      assert v <= sorted[0].1;
    }
  }

  lemma {:induction false} EntriesWhere(rows: seq<Row>, column: string, v: real, p: Row -> bool)
    requires forall row :: p(row) == (Amount(Get(row, column)) >= v)
    ensures Entries(Filter(rows, p), column) == AtLeast(Entries(rows, column), v)
  {
    if rows != [] {
      EntriesWhere(rows[1..], column, v, p);
      var head := if p(rows[0]) then [rows[0]] else [];
      EntriesAppend(head, Filter(rows[1..], p), column);
      assert Entries(rows, column) == [(rows[0], Amount(Get(rows[0], column)))] + Entries(rows[1..], column);
    }
  }

  lemma {:induction false} EntriesAppend(a: seq<Row>, b: seq<Row>, column: string)
    ensures Entries(a + b, column) == Entries(a, column) + Entries(b, column)
  {
  }

  /** In a ranking of non-negative values summing to a positive total, the
      entries at or above the cut value hold at least the threshold's share. */
  lemma RankingShare(sorted: seq<(Row, real)>, total: real, threshold: real)
    requires |sorted| >= 1 && Descending(sorted)
    requires forall i :: 0 <= i < |sorted| ==> sorted[i].1 >= 0.0
    requires Total(sorted) == total && total > 0.0 && 0.0 < threshold <= 1.0
    ensures Total(AtLeast(sorted, CutValue(sorted, total, threshold))) >= threshold * total
  {
    match FirstReaching(sorted, total, threshold, 0)
    case Some(k) => ReachedShare(sorted, total, threshold, k);
    case None =>
      WholeRanking(sorted);
      ScaleBelow(total, threshold);
  }

  lemma ReachedShare(sorted: seq<(Row, real)>, total: real, threshold: real, k: nat)
    requires k < |sorted| && Descending(sorted)
    requires forall i :: 0 <= i < |sorted| ==> sorted[i].1 >= 0.0
    requires total > 0.0 && Share(sorted, k, total) >= threshold
    ensures Total(AtLeast(sorted, Minimum(sorted[..k + 1]))) >= threshold * total
  {
    var v := Minimum(sorted[..k + 1]);
    AtLeastPrefix(sorted, v);
    var m := |AtLeast(sorted, v)|;
    MinimumDescending(sorted[..k + 1]);
    assert sorted[k].1 == v;
    assert k < m;
    TotalPrefixMonotone(sorted, k + 1, m);
    ScaleShare(Total(sorted[..k + 1]), total, threshold);
  }

  /** Cutting a ranking at its last value keeps all of it. */
  lemma WholeRanking(sorted: seq<(Row, real)>)
    requires |sorted| >= 1 && Descending(sorted)
    ensures AtLeast(sorted, Minimum(sorted)) == sorted
  {
    var v := Minimum(sorted);
    AtLeastPrefix(sorted, v);
    MinimumDescending(sorted);
    assert |AtLeast(sorted, v)| == |sorted|;
    assert sorted[..|sorted|] == sorted;
  }

  lemma ScaleShare(part: real, total: real, threshold: real)
    requires total > 0.0 && part / total >= threshold
    ensures part >= threshold * total
  {
  }

  lemma ScaleBelow(total: real, threshold: real)
    requires total >= 0.0 && threshold <= 1.0
    ensures threshold * total <= total
  {
  }

  /** The kept rows sum to what lies at or above the cut value in the ranking. */
  lemma CutTotal(t: Table, column: string, threshold: real)
    requires !IsEmpty(t) && Total(Entries(t.rows, column)) != 0.0
    ensures var sorted := SortDescending(Entries(t.rows, column));
      Total(Entries(CumulativeCut(t, column, threshold).rows, column))
        == Total(AtLeast(sorted, CutValue(sorted, Total(Entries(t.rows, column)), threshold)))
  {
    var entries := Entries(t.rows, column);
    var v := CutValue(SortDescending(entries), Total(entries), threshold);
    EntriesWhere(t.rows, column, v, row => Amount(Get(row, column)) >= v);
    TotalAtLeastSort(entries, v);
  }

  /** On a table with a non-zero total, a row is kept exactly when it is a
      row of the table whose value reaches the cut value. */
  lemma {:induction false} CutKeepsIff(t: Table, column: string, threshold: real, row: Row)
    requires !IsEmpty(t) && Total(Entries(t.rows, column)) != 0.0
    ensures var entries := Entries(t.rows, column);
      var v := CutValue(SortDescending(entries), Total(entries), threshold);
      row in CumulativeCut(t, column, threshold).rows <==> row in t.rows && Amount(Get(row, column)) >= v
  {
  }

  /** For non-negative values and a threshold in (0, 1], the kept rows hold at
      least the threshold's share of the total. */
  lemma CutShare(t: Table, column: string, threshold: real, kept: real, total: real)
    requires 0.0 < threshold <= 1.0
    requires forall row :: row in t.rows ==> Amount(Get(row, column)) >= 0.0
    requires kept == Total(Entries(CumulativeCut(t, column, threshold).rows, column))
    requires total == Total(Entries(t.rows, column))
    ensures kept >= threshold * total
  {
    var entries := Entries(t.rows, column);
    EntriesNonNegative(t, column);
    TotalNonNegative(entries);
    if !IsEmpty(t) && total != 0.0 {
      var sorted := SortDescending(entries);
      RankingNonNegative(entries);
      TotalSort(entries);
      RankingShare(sorted, total, threshold);
      CutTotal(t, column, threshold);
    } else {
      ScaleBelow(total, threshold);
    }
  }

  lemma EntriesNonNegative(t: Table, column: string)
    requires forall row :: row in t.rows ==> Amount(Get(row, column)) >= 0.0
    ensures forall i :: 0 <= i < |t.rows| ==> Entries(t.rows, column)[i].1 >= 0.0
  {
    forall i | 0 <= i < |t.rows| ensures Entries(t.rows, column)[i].1 >= 0.0 {
      assert t.rows[i] in t.rows;
    }
  }

  lemma RankingNonNegative(entries: seq<(Row, real)>)
    requires forall i :: 0 <= i < |entries| ==> entries[i].1 >= 0.0
    ensures forall i :: 0 <= i < |entries| ==> SortDescending(entries)[i].1 >= 0.0
  {
    var sorted := SortDescending(entries);
    forall i | 0 <= i < |sorted| ensures sorted[i].1 >= 0.0 {
      assert sorted[i] in multiset(entries);
    }
  }

  // ------------------------------------------------ status and deviation

  /** The row's status label is `name`. */
  predicate StatusIs(row: Row, name: string)
  {
    Get(row, "status") == Str(name)
  }

  predicate IsAnomaly(row: Row)
  {
    StatusIs(row, "BELOW_P10") || StatusIs(row, "ABOVE_P90")
  }

  /** `deviation_pct >= minimum` on a numeric cell; a missing value compares false. */
  predicate DeviationAtLeast(row: Row, minimum: real)
  {
    Get(row, "deviation_pct").Num? && Get(row, "deviation_pct").x >= minimum
  }

  /** A deviation cell `>=` cannot compare with a number. */
  predicate Incomparable(row: Row)
  {
    Get(row, "deviation_pct").Str? || Get(row, "deviation_pct").Time?
  }

  /** `_filter_anomalies`. */
  function FilterAnomalies(t: Table, onlyAnomalies: bool, minDeviation: real): (r: Table)
    ensures r.columns == t.columns
  {
    if IsEmpty(t) then t
    else
      var a := if onlyAnomalies then Where(t, IsAnomaly) else t;
      if minDeviation > 0.0 then Where(a, row => StatusIs(row, "IN_RANGE") || DeviationAtLeast(row, minDeviation))
      else a
  }

  /** The status filter keeps exactly the anomalies when asked to, and the
      deviation filter exactly the in-range rows and those deviating enough. */
  lemma FilterAnomaliesKeeps(t: Table, onlyAnomalies: bool, minDeviation: real, row: Row)
    requires !IsEmpty(t)
    ensures row in FilterAnomalies(t, onlyAnomalies, minDeviation).rows <==>
      row in t.rows &&
      (onlyAnomalies ==> IsAnomaly(row)) &&
      (minDeviation > 0.0 ==> StatusIs(row, "IN_RANGE") || DeviationAtLeast(row, minDeviation))
  {
  }

  // ------------------------------------------------------------ rendering

  /** `str(round(x, 1)) + '%'` for a number, `'nan%'` for a missing value. */
  function PercentText(c: Cell, places: nat): (d: Cell)
    ensures d.Str? && |d.s| >= 1 && d.s[|d.s| - 1] == '%'
  {
    if c.Num? then Str(ShowRounded(c.x, places) + "%") else Str("nan%")
  }

  /** A rendered deviation parses back, without its `%`, to the rounded deviation. */
  lemma PercentTextParses(x: real, places: nat)
    ensures var s := PercentText(Num(x), places).s;
      ParseDecimal(s[..|s| - 1]) == Some(RoundTo(x, places))
  {
    var s := PercentText(Num(x), places).s;
    assert s[..|s| - 1] == ShowRounded(x, places);
    ShowRoundedRoundTrip(x, places);
  }

  // ------------------------------------------------------ whole sequence

  /** Everything after the split, in order. */
  function AfterSplit(o: Options, t: Table): Table
  {
    var cut := if o.cumulativeThreshold.Some? then CumulativeCut(t, "forecast", o.cumulativeThreshold.value) else t;
    var filtered := if o.onlyAnomalies || o.minDeviation > 0.0 then FilterAnomalies(cut, o.onlyAnomalies, o.minDeviation) else cut;
    var formatted := if o.formatDeviation && !IsEmpty(filtered)
      then SetColumn(filtered, "deviation_pct", row => PercentText(Get(row, "deviation_pct"), 1))
      else filtered;
    if HasDimensions(o) && "metric" in formatted.columns then DropColumn(formatted, "metric") else formatted
  }

  function Dimensioned(o: Options, t: Table): Table
  {
    if HasDimensions(o) && "metric" in t.columns then WithDimensions(t, o.dimensionNames.value, |o.dimensionNames.value|)
    else t
  }

  /** `_post_process_results`. */
  function PostProcessed(o: Options, t: Table): Table
  {
    AfterSplit(o, Dimensioned(o, t))
  }

  method PostProcessResults(o: Options, t: Table) returns (r: Table)
    ensures r == PostProcessed(o, t)
  {
    r := t;
    if HasDimensions(o) {
      r := SplitMetricToDimensions(r, o.dimensionNames.value);
    }
    r := AfterSplit(o, r);
  }

  /** Post-processing invents no row, and once the dimensions are split the
      metric column is gone. */
  lemma PostProcessedRows(o: Options, t: Table)
    ensures |PostProcessed(o, t).rows| <= |t.rows|
    ensures HasDimensions(o) ==> "metric" !in PostProcessed(o, t).columns
  {
  }
}
