/**
  The forecast-versus-actual comparator: its configuration and the checks its
  constructor makes, the comparison of every forecast row with the pivoted
  actual row of the same label, metric by metric, the result table, and the
  filtering shortcut kept for older callers.
*/
module Comparator {
  import opened Tables
  import opened Text
  import opened MetricComparison
  import opened Alignment
  import opened PostProcessing

  /** A configured comparator. The pivot is the transformer's `pivot_table`. */
  datatype Comparator = Comparator(
    pivot: Table -> Pivot,
    transformerColumns: ColumnSpec,
    dateColumn: string,
    exclude: seq<string>,
    options: Options)

  /** `ForecastActualComparator(...)`: the excluded columns default to the date
      column (an empty list counting as none), and given dimension names must
      equal the transformer's columns, order included. */
  function NewComparator(pivot: Table -> Pivot, columns: ColumnSpec, dateColumn: string,
                         exclude: Option<seq<string>>, options: Options): (r: Result<Comparator>)
    ensures r.Err? <==> options.dimensionNames.Some? && !columns.Unexposed?
                         && options.dimensionNames.value != ExposedColumns(columns)
    ensures r.Err? ==> r.error.ValueError?
    ensures r.Ok? ==> r.value.exclude == (if exclude.None? || exclude.value == [] then [dateColumn] else exclude.value)
    ensures r.Ok? ==> r.value.dateColumn == dateColumn && r.value.options == options
  {
    var excluded := if exclude.None? || exclude.value == [] then [dateColumn] else exclude.value;
    if options.dimensionNames.Some? && !columns.Unexposed? && options.dimensionNames.value != ExposedColumns(columns)
    then Err(ValueError("dimension_names must match transformer.columns in the same order."))
    else Ok(Comparator(pivot, columns, dateColumn, excluded, options))
  }

  /** Validation looks at `is not None`, not at truthiness: an empty list of
      dimension names is rejected by a transformer that exposes a column. */
  lemma EmptyDimensionsRejected(pivot: Table -> Pivot, name: string, options: Options)
    requires options.dimensionNames == Some([])
    ensures NewComparator(pivot, One(name), "date", None, options).Err?
  {
  }

  // ------------------------------------------------------------ comparisons

  /** The date passed to each comparison of a forecast row: its date cell when
      the forecast has a date column, none otherwise. */
  function DateOf(forecast: Table, dateColumn: string, row: Row): (d: Option<Cell>)
    ensures d.Some? <==> dateColumn in forecast.columns
  {
    if dateColumn in forecast.columns then Some(Get(row, dateColumn)) else None
  }

  /** The comparison of one metric (`_compare_metric`): the column, the
      forecast cell, the actual cell and the date give one record. The loop
      below is stated for any such comparison; detection uses `CompareMetric`. */
  type MetricCompare = (string, Cell, Cell, Option<Cell>) -> map<string, Cell>

  /** The comparison of a forecast row with an actual row at one column. */
  function Record(compare: MetricCompare, forecast: Table, dateColumn: string, frow: Row, arow: Row, column: string)
    : map<string, Cell>
  {
    compare(column, Get(frow, column), Get(arow, column), DateOf(forecast, dateColumn, frow))
  }

  /** A forecast row against an actual row: one record per column, in column order. */
  function Block(compare: MetricCompare, forecast: Table, dateColumn: string, frow: Row, arow: Row,
                 columns: seq<string>): (r: seq<map<string, Cell>>)
    ensures |r| == |columns|
    ensures forall j :: 0 <= j < |columns| ==> r[j] == Record(compare, forecast, dateColumn, frow, arow, columns[j])
  {
    seq(|columns|, j requires 0 <= j < |columns| => Record(compare, forecast, dateColumn, frow, arow, columns[j]))
  }

  /** The records of forecast row `i`: one per column, compared with the actual
      row carrying the same label; none when no actual row carries it. */
  function RowRecords(compare: MetricCompare, forecast: Table, actual: Table, columns: seq<string>,
                      dateColumn: string, i: nat): (r: seq<map<string, Cell>>)
    requires i < |forecast.rows|
    ensures Lookup(actual.rows, forecast.rows[i].index).None? ==> r == []
    ensures Lookup(actual.rows, forecast.rows[i].index).Some? ==> (|r| == |columns| &&
      forall j :: 0 <= j < |columns| ==>
        r[j] == Record(compare, forecast, dateColumn, forecast.rows[i], Lookup(actual.rows, forecast.rows[i].index).value, columns[j]))
  {
    var frow := forecast.rows[i];
    match Lookup(actual.rows, frow.index)
    case None => []
    case Some(arow) => Block(compare, forecast, dateColumn, frow, arow, columns)
  }

  /** The records of forecast row `k`, and nothing past the last row. */
  function RowRecordsAt(compare: MetricCompare, forecast: Table, actual: Table, columns: seq<string>,
                        dateColumn: string): nat -> seq<map<string, Cell>>
  {
    (k: nat) => if k < |forecast.rows| then RowRecords(compare, forecast, actual, columns, dateColumn, k) else []
  }

  /** The records of the first `n` forecast rows, in row order and column order
      within a row. */
  function Comparisons(compare: MetricCompare, forecast: Table, actual: Table, columns: seq<string>,
                       dateColumn: string, n: nat): seq<map<string, Cell>>
    requires n <= |forecast.rows|
  {
    Blocks(RowRecordsAt(compare, forecast, actual, columns, dateColumn), n)
  }

  /** `_compare_all_metrics`. */
  method CompareAllMetrics(compare: MetricCompare, forecast: Table, actual: Table, columns: seq<string>,
                           dateColumn: string) returns (records: seq<map<string, Cell>>)
    ensures records == Comparisons(compare, forecast, actual, columns, dateColumn, |forecast.rows|)
  {
    records := [];
    var i := 0;
    while i < |forecast.rows|
      invariant 0 <= i <= |forecast.rows|
      invariant records == Comparisons(compare, forecast, actual, columns, dateColumn, i)
    {
      var frow := forecast.rows[i];
      var found := Lookup(actual.rows, frow.index);
      if found.Some? {
        var block := CompareRow(compare, forecast, dateColumn, frow, found.value, columns);
        assert block == RowRecords(compare, forecast, actual, columns, dateColumn, i);
        records := records + block;
      } else {
        assert RowRecords(compare, forecast, actual, columns, dateColumn, i) == [];
      }
      i := i + 1;
    }
  }

  /** The inner loop of `_compare_all_metrics`: one forecast row against its
      actual row, column by column. */
  method CompareRow(compare: MetricCompare, forecast: Table, dateColumn: string, frow: Row, arow: Row,
                    columns: seq<string>) returns (block: seq<map<string, Cell>>)
    ensures block == Block(compare, forecast, dateColumn, frow, arow, columns)
  {
    block := [];
    var j := 0;
    while j < |columns|
      invariant 0 <= j <= |columns| && |block| == j
      invariant forall k :: 0 <= k < j ==> block[k] == Record(compare, forecast, dateColumn, frow, arow, columns[k])
    {
      block := block + [Record(compare, forecast, dateColumn, frow, arow, columns[j])];
      j := j + 1;
    }
  }

  /** Rows indexed by their positions 0, 1, ..., n-1. */
  predicate Positional(rows: seq<Row>)
  {
    forall i :: 0 <= i < |rows| ==> rows[i].index == Num(i as real)
  }

  lemma {:induction false} LookupPositional(rows: seq<Row>, k: nat)
    requires Positional(rows)
    ensures Lookup(rows, Num(k as real)) == if k < |rows| then Some(rows[k]) else None
  {
    if k < |rows| {
      LookupFirst(rows, k);
    } else {
      assert forall i :: 0 <= i < |rows| ==> rows[i].index != Num(k as real);
      LookupFound(rows, Num(k as real));
    }
  }

  function Min(a: nat, b: nat): nat
  {
    if a <= b then a else b
  }

  /** Forecast row `k` against actual row `k`, while both exist. */
  function PairAt(compare: MetricCompare, forecast: Table, actual: Table, columns: seq<string>,
                  dateColumn: string): nat -> seq<map<string, Cell>>
  {
    (k: nat) => if k < |forecast.rows| && k < |actual.rows|
         then Block(compare, forecast, dateColumn, forecast.rows[k], actual.rows[k], columns)
         else []
  }

  /** Forecast row `i` against actual row `i`, for the first `m` rows, each at
      every column in turn. */
  function Aligned(compare: MetricCompare, forecast: Table, actual: Table, columns: seq<string>,
                   dateColumn: string, m: nat): seq<map<string, Cell>>
    requires m <= |forecast.rows| && m <= |actual.rows|
  {
    Blocks(PairAt(compare, forecast, actual, columns, dateColumn), m)
  }

  /** With both tables indexed by position, forecast row `i` meets actual row
      `i`: the records are those of the first `min(n, |actual|)` row pairs, in
      row order and then column order. */
  lemma ComparisonsAligned(compare: MetricCompare, forecast: Table, actual: Table,
                           columns: seq<string>, dateColumn: string, n: nat)
    requires n <= |forecast.rows|
    requires Positional(forecast.rows) && Positional(actual.rows)
    ensures Comparisons(compare, forecast, actual, columns, dateColumn, n)
      == Aligned(compare, forecast, actual, columns, dateColumn, Min(n, |actual.rows|))
  {
    var f := RowRecordsAt(compare, forecast, actual, columns, dateColumn);
    var g := PairAt(compare, forecast, actual, columns, dateColumn);
    forall k | 0 <= k < |forecast.rows|
      ensures f(k) == g(k)
      ensures k >= |actual.rows| ==> f(k) == []
    {
      PairedRow(compare, forecast, actual, columns, dateColumn, k);
    }
    if n <= |actual.rows| {
      BlocksSame(f, g, n);
    } else {
      BlocksEmptyTail(f, |actual.rows|, n);
      BlocksSame(f, g, |actual.rows|);
    }
  }

  /** Forecast row `k` meets actual row `k` when there is one, and nothing
      otherwise. */
  lemma PairedRow(compare: MetricCompare, forecast: Table, actual: Table, columns: seq<string>,
                  dateColumn: string, k: nat)
    requires k < |forecast.rows|
    requires Positional(forecast.rows) && Positional(actual.rows)
    ensures k < |actual.rows| ==> (RowRecords(compare, forecast, actual, columns, dateColumn, k)
      == Block(compare, forecast, dateColumn, forecast.rows[k], actual.rows[k], columns))
    ensures k >= |actual.rows| ==> RowRecords(compare, forecast, actual, columns, dateColumn, k) == []
  {
    assert forecast.rows[k].index == Num(k as real);
    LookupPositional(actual.rows, k);
  }

  // ------------------------------------------------------------- detection

  /** `pd.DataFrame(results)` with the default index: the date column first
      when the records carry one, then the record's own keys. */
  function ResultTable(records: seq<map<string, Cell>>, hasDate: bool): (t: Table)
    ensures |t.rows| == |records| && Positional(t.rows)
    ensures forall i :: 0 <= i < |records| ==> t.rows[i].cells == records[i]
    ensures forall c :: c in t.columns <==> c in ResultKeys || (hasDate && c == "date")
  {
    Table((if hasDate then ["date"] else []) + ResultKeys,
          seq(|records|, i requires 0 <= i < |records| => Row(Num(i as real), records[i])))
  }

  /** The records `detect` collects before post-processing, once the data is prepared. */
  function Records(c: Comparator, forecast: Table, actual: Table): seq<map<string, Cell>>
    requires Preparation(c.pivot, c.exclude, forecast, actual).Ok?
  {
    var p := Preparation(c.pivot, c.exclude, forecast, actual).value;
    Comparisons(CompareMetric, p.forecast, p.actual, p.columns, c.dateColumn, |p.forecast.rows|)
  }

  /** `detect(forecast, actual)`. */
  function Detection(c: Comparator, forecast: Table, actual: Table): (r: Result<Table>)
    ensures IsEmpty(forecast) ==> r == Err(ValueError("Forecast DataFrame is empty"))
    ensures !IsEmpty(forecast) && IsEmpty(actual) ==> r == Err(ValueError("Actual DataFrame is empty"))
    ensures !IsEmpty(forecast) && !IsEmpty(actual) ==>
      (r.Ok? <==> Preparation(c.pivot, c.exclude, forecast, actual).Ok?)
    ensures r.Err? ==> r.error.ValueError?
    ensures (!IsEmpty(forecast) && !IsEmpty(actual) && Preparation(c.pivot, c.exclude, forecast, actual).Ok? &&
             Records(c, forecast, actual) == []) ==> r == Ok(EmptyTable)
  {
    if IsEmpty(forecast) then Err(ValueError("Forecast DataFrame is empty"))
    else if IsEmpty(actual) then Err(ValueError("Actual DataFrame is empty"))
    else
      match Preparation(c.pivot, c.exclude, forecast, actual)
      case Err(e) => Err(e)
      case Ok(p) =>
        var records := Records(c, forecast, actual);
        if records == [] then Ok(EmptyTable)
        else Ok(PostProcessed(c.options, ResultTable(records, c.dateColumn in p.forecast.columns)))
  }

  method Detect(c: Comparator, forecast: Table, actual: Table) returns (r: Result<Table>)
    ensures r == Detection(c, forecast, actual)
  {
    if IsEmpty(forecast) {
      return Err(ValueError("Forecast DataFrame is empty"));
    }
    if IsEmpty(actual) {
      return Err(ValueError("Actual DataFrame is empty"));
    }
    var prepared := PrepareData(c.pivot, c.exclude, forecast, actual);
    if prepared.Err? {
      return Err(prepared.error);
    }
    var p := prepared.value;
    var records := CompareAllMetrics(CompareMetric, p.forecast, p.actual, p.columns, c.dateColumn);
    if records == [] {
      return Ok(EmptyTable);
    }
    var t := PostProcessResults(c.options, ResultTable(records, c.dateColumn in p.forecast.columns));
    return Ok(t);
  }

  /** No post-processing switch set. */
  predicate Plain(o: Options)
  {
    o.dimensionNames.None? && o.cumulativeThreshold.None? && !o.onlyAnomalies
      && o.minDeviation <= 0.0 && !o.formatDeviation
  }

  /** Without post-processing switches, post-processing keeps the table. */
  lemma PlainPostProcessing(o: Options, t: Table)
    requires Plain(o)
    ensures PostProcessed(o, t) == t
  {
  }

  /** Without post-processing, and with a forecast indexed by position, the
      result lists, row by row of the forecast that the pivoted actuals reach,
      the comparison of forecast row `i` with pivoted actual row `i` at every
      compared column, numbered from zero. */
  lemma DetectionPlain(c: Comparator, forecast: Table, actual: Table)
    requires Plain(c.options) && !IsEmpty(forecast) && !IsEmpty(actual)
    requires Positional(forecast.rows)
    requires Preparation(c.pivot, c.exclude, forecast, actual).Ok?
    requires Records(c, forecast, actual) != []
    ensures var p := Preparation(c.pivot, c.exclude, forecast, actual).value;
      Detection(c, forecast, actual) == Ok(ResultTable(
        Aligned(CompareMetric, p.forecast, p.actual, p.columns, c.dateColumn, Min(|forecast.rows|, |p.actual.rows|)),
        c.dateColumn in p.forecast.columns))
  {
    var p := Preparation(c.pivot, c.exclude, forecast, actual).value;
    PreparationComplete(c.pivot, c.exclude, forecast, actual);
    assert Positional(p.forecast.rows);
    ComparisonsAligned(CompareMetric, p.forecast, p.actual, p.columns, c.dateColumn, |p.forecast.rows|);
    PlainPostProcessing(c.options, ResultTable(Records(c, forecast, actual), c.dateColumn in p.forecast.columns));
  }

  // ---------------------------------------------------------- legacy filter

  /** The two masks of `detect_with_filter`, once the columns are known to exist. */
  function LegacyMasks(t: Table, minDeviation: real, excludeNoForecast: bool): (r: Result<Table>)
    ensures r.Ok? ==> forall row :: row in r.value.rows <==>
      row in t.rows && (excludeNoForecast ==> !StatusIs(row, "NO_FORECAST")) &&
      (StatusIs(row, "IN_RANGE") || DeviationAtLeast(row, minDeviation))
    ensures r.Err? ==> r.error.TypeError?
  {
    var kept := if excludeNoForecast then Where(t, row => !StatusIs(row, "NO_FORECAST")) else t;
    if exists row :: row in kept.rows && Incomparable(row)
    then Err(TypeError("'>=' not supported between instances of 'str' and 'float'"))
    else Ok(Where(kept, row => StatusIs(row, "IN_RANGE") || DeviationAtLeast(row, minDeviation)))
  }

  /** `detect_with_filter` as written: it indexes the `status` column of
      whatever `detect` returns, including the column-less empty frame. */
  function DetectWithFilterAsWritten(c: Comparator, forecast: Table, actual: Table,
                                     minDeviation: real, excludeNoForecast: bool): (r: Result<Table>)
    ensures Detection(c, forecast, actual).Ok? && Detection(c, forecast, actual).value == EmptyTable
      ==> r == Err(KeyError("status"))
  {
    match Detection(c, forecast, actual)
    case Err(e) => Err(e)
    case Ok(t) =>
      if "status" !in t.columns then Err(KeyError("status"))
      else if "deviation_pct" !in t.columns then Err(KeyError("deviation_pct"))
      else LegacyMasks(t, minDeviation, excludeNoForecast)
  }

  /** `detect_with_filter` with the empty result passed through: a detection
      without comparisons has nothing to filter. */
  function DetectWithFilter(c: Comparator, forecast: Table, actual: Table,
                            minDeviation: real, excludeNoForecast: bool): (r: Result<Table>)
    ensures Detection(c, forecast, actual).Ok? && Detection(c, forecast, actual).value == EmptyTable
      ==> r == Ok(EmptyTable)
    ensures Detection(c, forecast, actual).Err? ==> r == Detection(c, forecast, actual)
    ensures r.Err? ==> Detection(c, forecast, actual).Err? || r.error.TypeError? || r.error.KeyError?
  {
    match Detection(c, forecast, actual)
    case Err(e) => Err(e)
    case Ok(t) =>
      if t == EmptyTable then Ok(t)
      else if "status" !in t.columns then Err(KeyError("status"))
      else if "deviation_pct" !in t.columns then Err(KeyError("deviation_pct"))
      else LegacyMasks(t, minDeviation, excludeNoForecast)
  }

  lemma ComparisonsWithoutColumns(compare: MetricCompare, forecast: Table, actual: Table,
                                  dateColumn: string, n: nat)
    requires n <= |forecast.rows|
    ensures Comparisons(compare, forecast, actual, [], dateColumn, n) == []
  {
    var f := RowRecordsAt(compare, forecast, actual, [], dateColumn);
    forall k | 0 <= k < n
      ensures f(k) == []
    {
      assert |RowRecords(compare, forecast, actual, [], dateColumn, k)| == 0;
    }
    BlocksEmptyTail(f, 0, n);
  }

  /** A forecast holding only the date column, and an actual table of one date. */
  const DateOnly := Table(["date"], [Row(Num(0.0), map["date" := Time(0)])])

  /** A pivot that moves the date column into an index named `date` and has
      no metric column. */
  function DateIndexed(t: Table): Pivot
  {
    Pivot(Some("date"), Table([], seq(|t.rows|, i requires 0 <= i < |t.rows| => Row(Get(t.rows[i], "date"), map[]))))
  }

  const Plainly := Comparator(DateIndexed, Unexposed, "date", ["date"],
                              Options(None, None, false, 0.0, false))

  /** When every column of the forecast and of the reset pivot, its index
      column included, is excluded, there is nothing to compare: `detect`
      returns the empty frame and the legacy filter, as written, raises
      `KeyError('status')` on it, where the corrected filter returns it. */
  lemma LegacyFilterOnNoComparisons()
    ensures Detection(Plainly, DateOnly, DateOnly) == Ok(EmptyTable)
    ensures DetectWithFilterAsWritten(Plainly, DateOnly, DateOnly, 5.0, true) == Err(KeyError("status"))
    ensures DetectWithFilter(Plainly, DateOnly, DateOnly, 5.0, true) == Ok(EmptyTable)
  {
    var pivoted := Pivoted(Plainly.pivot, DateOnly).value;
    assert pivoted.columns == ["date"];
    var p := Preparation(Plainly.pivot, Plainly.exclude, DateOnly, DateOnly).value;
    assert p.columns == [] by {
      assert forall c :: c in p.columns <==> (c in DateOnly.columns || c in pivoted.columns) && c !in ["date"];
    }
    assert Records(Plainly, DateOnly, DateOnly) == [] by {
      ComparisonsWithoutColumns(CompareMetric, p.forecast, p.actual, "date", |p.forecast.rows|);
    }
  }

  /** The corrected legacy filter keeps exactly the rows of the detection that
      pass both masks, unless a deviation is text (formatted), when it raises
      the `TypeError` of comparing text with a number. */
  lemma DetectWithFilterKeeps(c: Comparator, forecast: Table, actual: Table, minDeviation: real,
                              excludeNoForecast: bool, row: Row)
    requires Detection(c, forecast, actual).Ok?
    requires var t := Detection(c, forecast, actual).value;
      t != EmptyTable && "status" in t.columns && "deviation_pct" in t.columns
    requires DetectWithFilter(c, forecast, actual, minDeviation, excludeNoForecast).Ok?
    ensures row in DetectWithFilter(c, forecast, actual, minDeviation, excludeNoForecast).value.rows <==>
      row in Detection(c, forecast, actual).value.rows &&
      (excludeNoForecast ==> !StatusIs(row, "NO_FORECAST")) &&
      (StatusIs(row, "IN_RANGE") || DeviationAtLeast(row, minDeviation))
  {
  }
}
