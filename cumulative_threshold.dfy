/**
  The cumulative-threshold pre-filter: it ranks the forecast's metric columns
  by their summed point forecast, keeps the metrics whose cumulative share of
  the total stays within the threshold, narrows the forecast to those columns
  and the raw actual rows to the rows of those metrics.

  Its rule is not the comparator's cumulative cut: here a metric is kept when
  the running share up to and including it is at most the threshold, and the
  top metric alone when none is.
*/
module CumulativeThreshold {
  import opened Tables
  import opened Text
  import opened Ranking
  import PostProcessing

  datatype ThresholdFilter = ThresholdFilter(transformerColumns: ColumnSpec, threshold: real, exclude: seq<string>)

  /** `CumulativeThresholdFilter(transformer, threshold_pct, exclude_columns)`:
      the threshold must lie in (0, 1]; the excluded columns default to `date`. */
  function NewThresholdFilter(columns: ColumnSpec, threshold: real, exclude: Option<seq<string>>)
    : (r: Result<ThresholdFilter>)
    ensures r.Err? <==> !(0.0 < threshold <= 1.0)
    ensures r.Err? ==> r.error.ValueError?
    ensures r.Ok? ==> r.value.threshold == threshold && r.value.transformerColumns == columns
    ensures r.Ok? ==> r.value.exclude == (if exclude.None? || exclude.value == [] then ["date"] else exclude.value)
  {
    if !(0.0 < threshold <= 1.0) then Err(ValueError("threshold_pct must be between 0 and 1"))
    else Ok(ThresholdFilter(columns, threshold, if exclude.None? || exclude.value == [] then ["date"] else exclude.value))
  }

  // ---------------------------------------------------------------- volumes

  /** `float(str(x).split('|')[0])` for one cell; a missing value adds nothing
      to the sum, a timestamp's text is no number. */
  function PointVolume(c: Cell): (v: Option<real>)
    ensures c.Num? ==> v == Some(c.x)
    ensures c.Null? ==> v == Some(0.0)
    ensures c.Time? ==> v == None
    ensures c.Str? ==> v == ParseDecimal(Split(c.s, '|')[0])
  {
    match c
    case Num(x) => Some(x)
    case Null => Some(0.0)
    case Time(_) => None
    case Str(s) => ParseDecimal(Split(s, '|')[0])
  }

  /** The sum of a column's point volumes, or None when a cell fails to parse. */
  function ColumnSum(rows: seq<Row>, column: string): (r: Option<real>)
    ensures r.None? <==> exists i :: 0 <= i < |rows| && PointVolume(Get(rows[i], column)).None?
  {
    if rows == [] then Some(0.0)
    else
      var rest := ColumnSum(rows[1..], column);
      assert forall i :: 1 <= i < |rows| ==> rows[i] == rows[1..][i - 1];
      match (PointVolume(Get(rows[0], column)), rest)
      case (Some(a), Some(b)) => Some(a + b)
      case _ => None
  }

  /** A metric's volume: the sum of its point forecasts, or 0.0 when any fails to parse. */
  function Volume(t: Table, column: string): real
  {
    match ColumnSum(t.rows, column)
    case Some(v) => v
    case None => 0.0
  }

  /** The metric columns among the first `n` columns, each with its volume, in
      column order. */
  function VolumesUpTo(t: Table, exclude: seq<string>, n: nat): (v: seq<(string, real)>)
    requires n <= |t.columns|
    ensures |v| <= n
  {
    if n == 0 then []
    else
      var prev := VolumesUpTo(t, exclude, n - 1);
      var c := t.columns[n - 1];
      prev + (if c !in exclude then [(c, Volume(t, c))] else [])
  }

  /** Exactly the non-excluded columns among the first `n` appear, each with its volume. */
  lemma {:induction false} VolumesMembers(t: Table, exclude: seq<string>, n: nat)
    requires n <= |t.columns|
    ensures var v := VolumesUpTo(t, exclude, n);
      (forall i :: 0 <= i < |v| ==> v[i].0 in t.columns[..n] && v[i].0 !in exclude && v[i].1 == Volume(t, v[i].0)) &&
      (forall k :: 0 <= k < n && t.columns[k] !in exclude ==> (t.columns[k], Volume(t, t.columns[k])) in v)
  {
    if n > 0 {
      VolumesMembers(t, exclude, n - 1);
      var prev := VolumesUpTo(t, exclude, n - 1);
      var c := t.columns[n - 1];
      var v := VolumesUpTo(t, exclude, n);
      assert t.columns[..n] == t.columns[..n - 1] + [c];
      assert v == prev + (if c !in exclude then [(c, Volume(t, c))] else []);
      forall i | 0 <= i < |v|
        ensures v[i].0 in t.columns[..n] && v[i].0 !in exclude && v[i].1 == Volume(t, v[i].0)
      {
        if i < |prev| {
          assert v[i] == prev[i];
        }
      }
      forall k | 0 <= k < n && t.columns[k] !in exclude
        ensures (t.columns[k], Volume(t, t.columns[k])) in v
      {
        if k < n - 1 {
          assert (t.columns[k], Volume(t, t.columns[k])) in prev;
        } else {
          assert v[|v| - 1] == (c, Volume(t, c));
        }
      }
    }
  }

  lemma VolumesKeep(t: Table, exclude: seq<string>, i: nat)
    requires i < |t.columns| && t.columns[i] !in exclude
    ensures VolumesUpTo(t, exclude, i + 1) == VolumesUpTo(t, exclude, i) + [(t.columns[i], Volume(t, t.columns[i]))]
  {
  }

  lemma VolumesSkip(t: Table, exclude: seq<string>, i: nat)
    requires i < |t.columns| && t.columns[i] in exclude
    ensures VolumesUpTo(t, exclude, i + 1) == VolumesUpTo(t, exclude, i)
  {
  }

  /** The loop that fills `forecast_values`. */
  method MetricVolumes(t: Table, exclude: seq<string>) returns (v: seq<(string, real)>)
    ensures v == VolumesUpTo(t, exclude, |t.columns|)
  {
    v := [];
    var i := 0;
    while i < |t.columns|
      invariant 0 <= i <= |t.columns|
      invariant v == VolumesUpTo(t, exclude, i)
    {
      var c := t.columns[i];
      if c !in exclude {
        VolumesKeep(t, exclude, i);
        var s := ColumnSum(t.rows, c);
        var volume := if s.Some? then s.value else 0.0;
        assert volume == Volume(t, c);
        v := v + [(c, volume)];
      } else {
        VolumesSkip(t, exclude, i);
      }
      i := i + 1;
    }
  }

  // -------------------------------------------------------------- selection

  /** The names of the ranked entries from rank `k` on whose cumulative share
      is at most the threshold, in rank order. */
  function WithinShare(ranked: seq<(string, real)>, total: real, threshold: real, k: nat): (r: seq<string>)
    requires total != 0.0
    ensures forall i :: k <= i < |ranked| && Share(ranked, i, total) <= threshold ==> ranked[i].0 in r
    ensures forall m :: m in r ==> exists i :: k <= i < |ranked| && ranked[i].0 == m && Share(ranked, i, total) <= threshold
    decreases |ranked| - k
  {
    if k >= |ranked| then []
    else
      var head := if Share(ranked, k, total) <= threshold then [ranked[k].0] else [];
      head + WithinShare(ranked, total, threshold, k + 1)
  }

  /** What the pre-filter decides: leave both tables alone, or keep these metrics. */
  datatype Selection = Unchanged | Keep(metrics: seq<string>)

  /** The metrics to keep: within the threshold, or the top one alone; nothing
      to decide without metrics or with a zero total. */
  function Selected(volumes: seq<(string, real)>, threshold: real): (s: Selection)
    ensures s.Unchanged? <==> volumes == [] || Total(volumes) == 0.0
    ensures s.Keep? ==> |s.metrics| >= 1
  {
    if volumes == [] then Unchanged
    else
      var ranked := SortDescending(volumes);
      TotalSort(volumes);
      var total := Total(ranked);
      if total == 0.0 then Unchanged
      else
        var kept := WithinShare(ranked, total, threshold, 0);
        Keep(if kept == [] then [ranked[0].0] else kept)
  }

  /** Over non-negative values the running share never decreases along the ranking. */
  lemma ShareMonotone(ranked: seq<(string, real)>, total: real, i: nat, j: nat)
    requires i <= j < |ranked| && total > 0.0
    requires forall k :: 0 <= k < |ranked| ==> ranked[k].1 >= 0.0
    ensures Share(ranked, i, total) <= Share(ranked, j, total)
  {
    TotalPrefixMonotone(ranked, i + 1, j + 1);
    DivideMonotone(Total(ranked[..i + 1]), Total(ranked[..j + 1]), total);
  }

  lemma DivideMonotone(a: real, b: real, q: real)
    requires a <= b && q > 0.0
    ensures a / q <= b / q
  {
  }

  /** The names of the ranked entries from rank `k` to rank `m`. */
  function Names(ranked: seq<(string, real)>, k: nat, m: nat): (r: seq<string>)
    requires k <= m <= |ranked|
    ensures |r| == m - k
    ensures forall i :: 0 <= i < |r| ==> r[i] == ranked[k + i].0
    decreases m - k
  {
    if k == m then [] else [ranked[k].0] + Names(ranked, k + 1, m)
  }

  /** Over non-negative volumes the kept metrics are a prefix of the ranking:
      from rank `k` on, those within the threshold are the ranks `k` to `m`. */
  lemma {:induction false} WithinSharePrefix(ranked: seq<(string, real)>, total: real, threshold: real, k: nat)
    returns (m: nat)
    requires total > 0.0 && k <= |ranked|
    requires forall i :: 0 <= i < |ranked| ==> ranked[i].1 >= 0.0
    ensures k <= m <= |ranked|
    ensures WithinShare(ranked, total, threshold, k) == Names(ranked, k, m)
    ensures forall i :: k <= i < m ==> Share(ranked, i, total) <= threshold
    ensures m < |ranked| ==> Share(ranked, m, total) > threshold
    decreases |ranked| - k
  {
    if k == |ranked| {
      m := k;
    } else if Share(ranked, k, total) <= threshold {
      m := WithinSharePrefix(ranked, total, threshold, k + 1);
      WithinShareStep(ranked, total, threshold, k);
      NamesStep(ranked, k, m);
    } else {
      NoneBeyond(ranked, total, threshold, k);
      m := k;
    }
  }

  lemma WithinShareStep(ranked: seq<(string, real)>, total: real, threshold: real, k: nat)
    requires total != 0.0 && k < |ranked| && Share(ranked, k, total) <= threshold
    ensures WithinShare(ranked, total, threshold, k) == [ranked[k].0] + WithinShare(ranked, total, threshold, k + 1)
  {
  }

  lemma NamesStep(ranked: seq<(string, real)>, k: nat, m: nat)
    requires k < m <= |ranked| || k + 1 == m <= |ranked|
    ensures Names(ranked, k, m) == [ranked[k].0] + Names(ranked, k + 1, m)
  {
  }

  /** Past a rank whose share exceeds the threshold, no rank is kept. */
  lemma NoneBeyond(ranked: seq<(string, real)>, total: real, threshold: real, k: nat)
    requires total > 0.0 && k < |ranked| && Share(ranked, k, total) > threshold
    requires forall i :: 0 <= i < |ranked| ==> ranked[i].1 >= 0.0
    ensures WithinShare(ranked, total, threshold, k) == []
  {
    forall i | k <= i < |ranked| ensures Share(ranked, i, total) > threshold {
      ShareMonotone(ranked, total, k, i);
    }
    NoneWithin(ranked, total, threshold, k);
  }

  lemma {:induction false} NoneWithin(ranked: seq<(string, real)>, total: real, threshold: real, k: nat)
    requires total != 0.0
    requires forall i :: k <= i < |ranked| ==> Share(ranked, i, total) > threshold
    ensures WithinShare(ranked, total, threshold, k) == []
    decreases |ranked| - k
  {
    if k < |ranked| {
      NoneWithin(ranked, total, threshold, k + 1);
    }
  }

  /** Over non-negative volumes the kept metrics are the longest prefix of the
      ranking whose running share stays within the threshold, or the top
      metric alone when even it exceeds the threshold; the top metric is
      always kept. */
  lemma SelectedPrefix(volumes: seq<(string, real)>, threshold: real)
    requires forall i :: 0 <= i < |volumes| ==> volumes[i].1 >= 0.0
    requires Selected(volumes, threshold).Keep?
    ensures var ranked := SortDescending(volumes);
      RankPrefix(ranked, Total(ranked), threshold, Selected(volumes, threshold).metrics)
  {
    var ranked := SortDescending(volumes);
    RankedNonNegative(volumes);
    TotalSort(volumes);
    TotalNonNegative(ranked);
    KeptPrefix(ranked, Total(ranked), threshold);
  }

  /** `ms` names the longest prefix of the ranking whose running share stays
      within the threshold, or the top entry alone when even it exceeds it. */
  predicate RankPrefix(ranked: seq<(string, real)>, total: real, threshold: real, ms: seq<string>)
    requires total != 0.0
  {
    1 <= |ms| <= |ranked| && ms == Names(ranked, 0, |ms|) && ms[0] == ranked[0].0 &&
    (|ms| > 1 || Share(ranked, 0, total) <= threshold ==>
      forall i :: 0 <= i < |ms| ==> Share(ranked, i, total) <= threshold) &&
    (|ms| < |ranked| ==> Share(ranked, |ms|, total) > threshold)
  }

  lemma RankedNonNegative(volumes: seq<(string, real)>)
    requires forall i :: 0 <= i < |volumes| ==> volumes[i].1 >= 0.0
    ensures var ranked := SortDescending(volumes);
      forall i :: 0 <= i < |ranked| ==> ranked[i].1 >= 0.0
  {
    var ranked := SortDescending(volumes);
    forall i | 0 <= i < |ranked| ensures ranked[i].1 >= 0.0 {
      assert ranked[i] in multiset(volumes);
    }
  }

  /** The kept names over a non-empty ranking with a positive total. */
  lemma KeptPrefix(ranked: seq<(string, real)>, total: real, threshold: real)
    requires ranked != [] && total > 0.0
    requires forall i :: 0 <= i < |ranked| ==> ranked[i].1 >= 0.0
    ensures var kept := WithinShare(ranked, total, threshold, 0);
      RankPrefix(ranked, total, threshold, if kept == [] then [ranked[0].0] else kept)
  {
    var m := WithinSharePrefix(ranked, total, threshold, 0);
    if m == 0 {
      assert Names(ranked, 0, 1) == [ranked[0].0];
    }
  }

  // ------------------------------------------------------------ projection

  /** `[col for col in exclude + metrics if col in forecast.columns]`. */
  function KeptColumns(t: Table, exclude: seq<string>, metrics: seq<string>): (cols: seq<string>)
    ensures forall c :: c in cols <==> c in t.columns && (c in exclude || c in metrics)
  {
    Filter(exclude + metrics, c => c in t.columns)
  }

  /** The narrowed forecast holds the excluded columns first, then the kept
      metrics, each only when the forecast has it. */
  lemma KeptColumnsOrder(t: Table, exclude: seq<string>, metrics: seq<string>)
    ensures KeptColumns(t, exclude, metrics) == Filter(exclude, c => c in t.columns) + Filter(metrics, c => c in t.columns)
  {
    FilterAppend(exclude, metrics, c => c in t.columns);
  }

  // -------------------------------------------------------- actual rows

  /** The mask after comparing the first `n` dimension columns with the
      metric's parts; a dimension the table lacks leaves the mask alone. */
  function MaskAfter(actual: Table, dims: seq<string>, parts: seq<string>, n: nat): (m: seq<bool>)
    requires n <= |dims| == |parts|
    ensures |m| == |actual.rows|
    ensures forall k :: 0 <= k < |m| ==>
      (m[k] <==> forall i :: 0 <= i < n && dims[i] in actual.columns ==> Get(actual.rows[k], dims[i]) == Str(parts[i]))
  {
    if n == 0 then seq(|actual.rows|, k => true)
    else
      var prev := MaskAfter(actual, dims, parts, n - 1);
      if dims[n - 1] in actual.columns then
        seq(|actual.rows|, k requires 0 <= k < |actual.rows| =>
          prev[k] && Get(actual.rows[k], dims[n - 1]) == Str(parts[n - 1]))
      else prev
  }

  /** `df[mask]`: the rows whose mask entry is set, in order. */
  function Masked(rows: seq<Row>, mask: seq<bool>): (r: seq<Row>)
    requires |mask| == |rows|
    ensures forall k :: 0 <= k < |rows| && mask[k] ==> rows[k] in r
    ensures forall x :: x in r ==> exists k :: 0 <= k < |rows| && mask[k] && rows[k] == x
  {
    if rows == [] then []
    else
      var rest := Masked(rows[1..], mask[1..]);
      assert forall k :: 1 <= k < |rows| ==> rows[k] == rows[1..][k - 1] && mask[k] == mask[1..][k - 1];
      (if mask[0] then [rows[0]] else []) + rest
  }

  /** The rows of one metric, or nothing when its `_`-split does not have one
      part per dimension. */
  function MetricRows(actual: Table, dims: seq<string>, metric: string): Option<seq<Row>>
  {
    var parts := Split(metric, '_');
    if |parts| != |dims| then None
    else Some(Masked(actual.rows, MaskAfter(actual, dims, parts, |dims|)))
  }

  /** `row` is a row of `metric`: the part count fits and every dimension the
      table has equals its part. */
  predicate RowOfMetric(actual: Table, dims: seq<string>, metric: string, row: Row)
  {
    var parts := Split(metric, '_');
    |parts| == |dims| &&
    forall i :: 0 <= i < |dims| && dims[i] in actual.columns ==> Get(row, dims[i]) == Str(parts[i])
  }

  lemma MetricRowsMembers(actual: Table, dims: seq<string>, metric: string, row: Row)
    requires MetricRows(actual, dims, metric).Some?
    ensures row in MetricRows(actual, dims, metric).value <==> row in actual.rows && RowOfMetric(actual, dims, metric, row)
  {
    var parts := Split(metric, '_');
    var mask := MaskAfter(actual, dims, parts, |dims|);
    if row in actual.rows && RowOfMetric(actual, dims, metric, row) {
      var k :| 0 <= k < |actual.rows| && actual.rows[k] == row;
      assert mask[k];
    }
  }

  /** The list `filtered_rows` after the first `n` metrics. */
  function Frames(actual: Table, dims: seq<string>, metrics: seq<string>, n: nat): (f: seq<seq<Row>>)
    requires n <= |metrics|
    ensures |f| <= n
  {
    if n == 0 then []
    else
      var prev := Frames(actual, dims, metrics, n - 1);
      match MetricRows(actual, dims, metrics[n - 1])
      case Some(rows) => prev + [rows]
      case None => prev
  }

  function Flatten(frames: seq<seq<Row>>): seq<Row>
  {
    if frames == [] then [] else Flatten(frames[..|frames| - 1]) + frames[|frames| - 1]
  }

  lemma {:induction false} FramesMembers(actual: Table, dims: seq<string>, metrics: seq<string>, n: nat, x: Row)
    requires n <= |metrics|
    ensures x in Flatten(Frames(actual, dims, metrics, n)) <==>
      x in actual.rows && exists j :: 0 <= j < n && RowOfMetric(actual, dims, metrics[j], x)
  {
    if n > 0 {
      FramesMembers(actual, dims, metrics, n - 1, x);
      var prev := Frames(actual, dims, metrics, n - 1);
      match MetricRows(actual, dims, metrics[n - 1])
      case Some(rows) =>
        assert Frames(actual, dims, metrics, n) == prev + [rows];
        FlattenSnoc(prev, rows);
        MetricRowsMembers(actual, dims, metrics[n - 1], x);
      case None =>
        assert Frames(actual, dims, metrics, n) == prev;
        assert !RowOfMetric(actual, dims, metrics[n - 1], x);
    }
  }

  lemma FlattenSnoc(frames: seq<seq<Row>>, rows: seq<Row>)
    ensures Flatten(frames + [rows]) == Flatten(frames) + rows
  {
    assert (frames + [rows])[..|frames|] == frames;
  }

  /** `drop_duplicates()`: the first row of each distinct content, labels kept. */
  function DropDuplicates(rows: seq<Row>): (r: seq<Row>)
    ensures forall i, j :: 0 <= i < j < |r| ==> r[i].cells != r[j].cells
    ensures forall x :: x in r ==> x in rows
    ensures forall x :: x in rows ==> Holds(r, x.cells)
  {
    if rows == [] then []
    else
      var init := rows[..|rows| - 1];
      var prev := DropDuplicates(init);
      var last := rows[|rows| - 1];
      assert rows == init + [last];
      if Holds(prev, last.cells) then prev
      else
        AppendDistinct(prev, last);
        AppendHolds(init, prev, last);
        prev + [last]
  }

  /** Appending a row whose contents are new keeps the contents distinct. */
  lemma AppendDistinct(prev: seq<Row>, last: Row)
    requires forall i, j :: 0 <= i < j < |prev| ==> prev[i].cells != prev[j].cells
    requires !Holds(prev, last.cells)
    ensures var r := prev + [last];
      forall i, j :: 0 <= i < j < |r| ==> r[i].cells != r[j].cells
  {
    var r := prev + [last];
    forall i, j | 0 <= i < j < |r| ensures r[i].cells != r[j].cells {
      assert r[i] == prev[i] && r[i] in prev;
      if j < |prev| {
        assert r[j] == prev[j];
      }
    }
  }

  /** Contents held before an append are held after it. */
  lemma AppendHolds(init: seq<Row>, prev: seq<Row>, last: Row)
    requires forall x :: x in init ==> Holds(prev, x.cells)
    ensures forall x :: x in init + [last] ==> Holds(prev + [last], x.cells)
  {
    var r := prev + [last];
    forall x | x in init + [last] ensures Holds(r, x.cells) {
      if x == last {
        assert last in r;
      } else {
        assert x in init;
        var y :| y in prev && y.cells == x.cells;
        assert y in r;
      }
    }
  }

  /** `_filter_actual_by_metrics(actual, metrics)`. */
  function FilteredActual(actual: Table, dims: seq<string>, metrics: seq<string>): (r: Table)
    ensures r.columns == actual.columns
  {
    if IsEmpty(actual) then actual
    else
      var frames := Frames(actual, dims, metrics, |metrics|);
      if frames == [] then Table(actual.columns, [])
      else Table(actual.columns, DropDuplicates(Renumber(Flatten(frames))))
  }

  /** The mask of one metric, one dimension column after another. */
  method MetricMask(actual: Table, dims: seq<string>, parts: seq<string>) returns (mask: seq<bool>)
    requires |dims| == |parts|
    ensures mask == MaskAfter(actual, dims, parts, |dims|)
  {
    mask := seq(|actual.rows|, k => true);
    var i := 0;
    while i < |dims|
      invariant 0 <= i <= |dims|
      invariant mask == MaskAfter(actual, dims, parts, i)
    {
      if dims[i] in actual.columns {
        mask := seq(|actual.rows|, k requires 0 <= k < |actual.rows| =>
          mask[k] && Get(actual.rows[k], dims[i]) == Str(parts[i]));
      }
      i := i + 1;
    }
  }

  method FilterActualByMetrics(actual: Table, dims: seq<string>, metrics: seq<string>) returns (r: Table)
    ensures r == FilteredActual(actual, dims, metrics)
  {
    if IsEmpty(actual) {
      return actual;
    }
    var frames: seq<seq<Row>> := [];
    var n := 0;
    while n < |metrics|
      invariant 0 <= n <= |metrics|
      invariant frames == Frames(actual, dims, metrics, n)
    {
      var parts := Split(metrics[n], '_');
      if |parts| == |dims| {
        var mask := MetricMask(actual, dims, parts);
        FramesKeep(actual, dims, metrics, n);
        frames := frames + [Masked(actual.rows, mask)];
      } else {
        FramesSkip(actual, dims, metrics, n);
      }
      n := n + 1;
    }
    if frames == [] {
      return Table(actual.columns, []);
    }
    r := Table(actual.columns, DropDuplicates(Renumber(Flatten(frames))));
  }

  lemma FramesKeep(actual: Table, dims: seq<string>, metrics: seq<string>, n: nat)
    requires n < |metrics| && |Split(metrics[n], '_')| == |dims|
    ensures Frames(actual, dims, metrics, n + 1) == Frames(actual, dims, metrics, n)
      + [Masked(actual.rows, MaskAfter(actual, dims, Split(metrics[n], '_'), |dims|))]
  {
  }

  lemma FramesSkip(actual: Table, dims: seq<string>, metrics: seq<string>, n: nat)
    requires n < |metrics| && |Split(metrics[n], '_')| != |dims|
    ensures Frames(actual, dims, metrics, n + 1) == Frames(actual, dims, metrics, n)
  {
  }

  /** Some actual row of a kept metric has these cells. */
  predicate FromKeptMetric(actual: Table, dims: seq<string>, metrics: seq<string>, cells: map<string, Cell>)
  {
    exists x, m :: x in actual.rows && x.cells == cells && m in metrics && RowOfMetric(actual, dims, m, x)
  }

  /** The filtered actual table holds, once each, the contents of exactly the
      actual rows that belong to a kept metric, renumbered from zero. */
  lemma FilteredActualMembers(actual: Table, dims: seq<string>, metrics: seq<string>)
    requires !IsEmpty(actual)
    ensures var r := FilteredActual(actual, dims, metrics);
      (forall i, j :: 0 <= i < j < |r.rows| ==> r.rows[i].cells != r.rows[j].cells) &&
      (forall y :: y in r.rows ==> FromKeptMetric(actual, dims, metrics, y.cells)) &&
      (forall x, m :: x in actual.rows && m in metrics && RowOfMetric(actual, dims, m, x) ==>
        Holds(r.rows, x.cells))
  {
    var frames := Frames(actual, dims, metrics, |metrics|);
    var flat := Flatten(frames);
    var r := FilteredActual(actual, dims, metrics);
    forall y | y in r.rows
      ensures FromKeptMetric(actual, dims, metrics, y.cells)
    {
      var renumbered := Renumber(flat);
      assert frames != [];
      assert y in renumbered;
      var i :| 0 <= i < |renumbered| && renumbered[i] == y;
      FramesMembers(actual, dims, metrics, |metrics|, flat[i]);
      var j :| 0 <= j < |metrics| && RowOfMetric(actual, dims, metrics[j], flat[i]);
      assert flat[i] in actual.rows && flat[i].cells == y.cells;
    }
    forall x, m | x in actual.rows && m in metrics && RowOfMetric(actual, dims, m, x)
      ensures Holds(r.rows, x.cells)
    {
      var j :| 0 <= j < |metrics| && metrics[j] == m;
      FramesMembers(actual, dims, metrics, |metrics|, x);
      var k :| 0 <= k < |flat| && flat[k] == x;
      var renumbered := Renumber(flat);
      assert renumbered[k] in renumbered && renumbered[k].cells == x.cells;
    }
  }

  // ------------------------------------------------------------ the filter

  /** `filter(forecast, actual)`. */
  function Filtered(f: ThresholdFilter, forecast: Table, actual: Table): (Table, Table)
  {
    if IsEmpty(forecast) || IsEmpty(actual) then (forecast, actual)
    else
      match Selected(VolumesUpTo(forecast, f.exclude, |forecast.columns|), f.threshold)
      case Unchanged => (forecast, actual)
      case Keep(metrics) =>
        (Select(forecast, KeptColumns(forecast, f.exclude, metrics)),
         if f.transformerColumns.Unexposed? then actual
         else FilteredActual(actual, ExposedColumns(f.transformerColumns), metrics))
  }

  method FilterTables(f: ThresholdFilter, forecast: Table, actual: Table) returns (fc: Table, ac: Table)
    ensures (fc, ac) == Filtered(f, forecast, actual)
  {
    if IsEmpty(forecast) || IsEmpty(actual) {
      return forecast, actual;
    }
    var volumes := MetricVolumes(forecast, f.exclude);
    var selection := Selected(volumes, f.threshold);
    if selection.Unchanged? {
      return forecast, actual;
    }
    fc := Select(forecast, KeptColumns(forecast, f.exclude, selection.metrics));
    if f.transformerColumns.Unexposed? {
      ac := actual;
    } else {
      ac := FilterActualByMetrics(actual, ExposedColumns(f.transformerColumns), selection.metrics);
    }
  }

  /** Both tables pass unchanged when either is empty, when the forecast has no
      metric column, or when the metric volumes sum to zero. */
  lemma FilteredUnchanged(f: ThresholdFilter, forecast: Table, actual: Table)
    requires IsEmpty(forecast) || IsEmpty(actual)
      || (forall c :: c in forecast.columns ==> c in f.exclude)
      || Total(VolumesUpTo(forecast, f.exclude, |forecast.columns|)) == 0.0
    ensures Filtered(f, forecast, actual) == (forecast, actual)
  {
    var v := VolumesUpTo(forecast, f.exclude, |forecast.columns|);
    if v != [] {
      VolumesMembers(forecast, f.exclude, |forecast.columns|);
      assert v[0].0 in forecast.columns[..|forecast.columns|];
    }
  }

  /** Four metric volumes, already ranked, summing to 8150. */
  const SampleVolumes: seq<(string, real)> := [("a", 5000.0), ("b", 3000.0), ("c", 100.0), ("d", 50.0)]

  /** Their running shares are about 61%, 98%, 99% and 100%. */
  lemma SampleShares()
    ensures Total(SampleVolumes) == 8150.0
    ensures Share(SampleVolumes, 0, 8150.0) == 5000.0 / 8150.0
    ensures Share(SampleVolumes, 1, 8150.0) == 8000.0 / 8150.0
    ensures Share(SampleVolumes, 2, 8150.0) == 8100.0 / 8150.0
    ensures Share(SampleVolumes, 3, 8150.0) == 1.0
  {
    var v := SampleVolumes;
    assert v[..1] == [v[0]];
    assert v[..2] == [v[0], v[1]];
    assert v[..3] == [v[0], v[1], v[2]];
    assert v[..4] == v;
  }

  lemma SampleWithin()
    ensures WithinShare(SampleVolumes, 8150.0, 0.95, 0) == ["a"]
  {
    var v := SampleVolumes;
    SampleShares();
    var w3 := WithinShare(v, 8150.0, 0.95, 3);
    assert w3 == [] by {
      assert WithinShare(v, 8150.0, 0.95, 4) == [];
    }
    var w2 := WithinShare(v, 8150.0, 0.95, 2);
    assert w2 == [] + w3;
    var w1 := WithinShare(v, 8150.0, 0.95, 1);
    assert w1 == [] + w2;
  }

  /** At a threshold of 95% the pre-filter keeps only the first metric ... */
  lemma SampleSelection()
    ensures Selected(SampleVolumes, 0.95) == Keep(["a"])
  {
    SampleShares();
    SampleWithin();
    SelectedRanked(SampleVolumes, 0.95);
  }

  /** On volumes already ranked, the selection is what lies within the share. */
  lemma SelectedRanked(volumes: seq<(string, real)>, threshold: real)
    requires Descending(volumes) && Total(volumes) != 0.0
    requires WithinShare(volumes, Total(volumes), threshold, 0) != []
    ensures Selected(volumes, threshold) == Keep(WithinShare(volumes, Total(volumes), threshold, 0))
  {
    SortDescendingRanked(volumes);
  }

  /** ... while the comparator's cumulative cut on the same ranking keeps every
      value down to the first one whose running share reaches 95%, 3000: two
      metrics. */
  lemma SampleCut()
    ensures PostProcessing.CutValue(SampleVolumes, Total(SampleVolumes), 0.95) == 3000.0
  {
    var v := SampleVolumes;
    SampleShares();
    assert PostProcessing.FirstReaching(v, 8150.0, 0.95, 0) == Some(1);
    assert v[..2] == [v[0], v[1]];
  }
}
