/**
  Aligning the forecast table with the pivoted actual table before the
  comparison: the sorted union of their metric columns, and the
  standardisation that makes every one of those columns exist in both tables
  with no missing cell.
*/
module Alignment {
  import opened Tables
  import opened Text
  import MetricComparison

  /** The fill for a forecast cell: ten zero quantiles. */
  const ForecastFill: Cell := Str(MetricComparison.ForecastFill)

  /** The fill for an actual cell. */
  const ActualFill: Cell := Num(0.0)

  /** A cell after `fillna(fill).replace('None', fill)`. */
  function Filled(c: Cell, fill: Cell): Cell
  {
    if c == Null || c == Str("None") then fill else c
  }

  /** `df[column] = df[column].fillna(fill).replace('None', fill)`, the column
      being appended first when the table lacks it. */
  function FillColumn(t: Table, column: string, fill: Cell): Table
  {
    SetColumn(t, column, r => Filled(Get(r, column), fill))
  }

  /** Every listed column present, each missing or `'None'` cell of a listed
      column replaced by the fill, everything else untouched. */
  function Standardized(t: Table, columns: seq<string>, fill: Cell): (r: Table)
    ensures |r.rows| == |t.rows|
    ensures |r.columns| >= |t.columns| && r.columns[..|t.columns|] == t.columns
    ensures forall c :: c in r.columns <==> c in t.columns || c in columns
    ensures forall i :: 0 <= i < |t.rows| ==> r.rows[i].index == t.rows[i].index
    ensures forall i, c :: 0 <= i < |t.rows| && c in columns ==>
      Get(r.rows[i], c) == Filled(Get(t.rows[i], c), fill)
    ensures forall i, c :: 0 <= i < |t.rows| && c !in columns ==>
      Get(r.rows[i], c) == Get(t.rows[i], c)
    decreases |columns|
  {
    if columns == [] then t
    else
      var next := FillColumn(t, columns[0], fill);
      var r := Standardized(next, columns[1..], fill);
      assert forall c :: c in columns <==> c == columns[0] || c in columns[1..];
      assert r.columns[..|t.columns|] == t.columns by {
        assert next.columns[..|t.columns|] == t.columns;
        assert r.columns[..|next.columns|] == next.columns;
      }
      assert forall i, c :: 0 <= i < |t.rows| && c in columns ==>
        Get(r.rows[i], c) == Filled(Get(t.rows[i], c), fill) by {
        forall i, c | 0 <= i < |t.rows| && c in columns
          ensures Get(r.rows[i], c) == Filled(Get(t.rows[i], c), fill)
        {
          assert |next.rows| == |t.rows|;
          if c in columns[1..] {
            assert Get(r.rows[i], c) == Filled(Get(next.rows[i], c), fill);
          } else {
            assert Get(r.rows[i], c) == Get(next.rows[i], c);
          }
          if c == columns[0] {
            assert Get(next.rows[i], c) == Filled(Get(t.rows[i], c), fill);
          } else {
            assert Get(next.rows[i], c) == Get(t.rows[i], c);
          }
        }
      }
      r
  }

  /** `_standardize_columns`: the listed columns are assigned one after another. */
  method StandardizeColumns(t: Table, columns: seq<string>, fill: Cell) returns (r: Table)
    ensures r == Standardized(t, columns, fill)
  {
    r := t;
    var i := 0;
    while i < |columns|
      invariant 0 <= i <= |columns|
      invariant Standardized(r, columns[i..], fill) == Standardized(t, columns, fill)
    {
      assert columns[i..][1..] == columns[i + 1..];
      r := FillColumn(r, columns[i], fill);
      i := i + 1;
    }
  }

  /** `sorted(set(forecast.columns) - exclude | set(pivoted.columns) - exclude)`. */
  function ComparisonColumns(forecast: Table, pivoted: Table, exclude: seq<string>): (cols: seq<string>)
    ensures StrictlySorted(cols)
    ensures forall c :: c in cols <==> (c in forecast.columns || c in pivoted.columns) && c !in exclude
  {
    SortedSet(Filter(forecast.columns + pivoted.columns, c => c !in exclude))
  }

  /** The two tables ready to compare, and the columns to compare on. */
  datatype Prepared = Prepared(forecast: Table, actual: Table, columns: seq<string>)

  /** What the transformer's `pivot_table` returns: the pivoted table and the
      name of its index, when the index has one. */
  datatype Pivot = Pivot(indexName: Option<string>, table: Table)

  /** The column `reset_index` inserts: the index's name, or `index` when it
      has none (`level_0` when the table already has an `index` column). */
  function IndexColumn(p: Pivot): string
  {
    if p.indexName.Some? then p.indexName.value
    else if "index" in p.table.columns then "level_0" else "index"
  }

  /** `pivot_table(actual).reset_index()`: the index labels become a new first
      column and the rows are numbered from zero; inserting a column whose
      name the table already has raises `ValueError`. */
  function Pivoted(pivot: Table -> Pivot, actual: Table): (r: Result<Table>)
    ensures var pv := pivot(actual); var name := IndexColumn(pv);
      (r.Err? <==> name in pv.table.columns) && (r.Err? ==> r.error.ValueError?)
    ensures var pv := pivot(actual); var name := IndexColumn(pv);
      r.Ok? ==> r.value.columns == [name] + pv.table.columns && |r.value.rows| == |pv.table.rows|
    ensures var pv := pivot(actual); var name := IndexColumn(pv);
      r.Ok? ==> forall i :: 0 <= i < |pv.table.rows| ==>
        r.value.rows[i].index == Num(i as real) && Get(r.value.rows[i], name) == pv.table.rows[i].index &&
        forall c :: c in pv.table.columns ==> Get(r.value.rows[i], c) == Get(pv.table.rows[i], c)
  {
    var pv := pivot(actual);
    var name := IndexColumn(pv);
    if name in pv.table.columns then Err(ValueError("cannot insert " + name + ", already exists"))
    else
      var rows := pv.table.rows;
      Ok(Table([name] + pv.table.columns,
               seq(|rows|, i requires 0 <= i < |rows| => Row(Num(i as real), rows[i].cells[name := rows[i].index]))))
  }

  /** The comparison columns of the forecast and the reset pivot, and both
      tables standardised on them. */
  function Prepare(exclude: seq<string>, forecast: Table, pivoted: Table): Prepared
  {
    var columns := ComparisonColumns(forecast, pivoted, exclude);
    Prepared(Standardized(forecast, columns, ForecastFill), Standardized(pivoted, columns, ActualFill), columns)
  }

  function Preparation(pivot: Table -> Pivot, exclude: seq<string>, forecast: Table, actual: Table): Result<Prepared>
  {
    match Pivoted(pivot, actual)
    case Err(e) => Err(e)
    case Ok(pivoted) => Ok(Prepare(exclude, forecast, pivoted))
  }

  /** After preparation every compared column exists in both tables and holds
      no missing cell, and the actual table is indexed 0, 1, ..., n-1. */
  lemma PreparationComplete(pivot: Table -> Pivot, exclude: seq<string>, forecast: Table, actual: Table)
    ensures Preparation(pivot, exclude, forecast, actual).Ok? ==>
      var p := Preparation(pivot, exclude, forecast, actual).value;
      (forall c :: c in p.columns ==> c in p.forecast.columns && c in p.actual.columns) &&
      (forall i, c :: 0 <= i < |p.forecast.rows| && c in p.columns ==>
        Get(p.forecast.rows[i], c) != Null && Get(p.forecast.rows[i], c) != Str("None")) &&
      (forall i, c :: 0 <= i < |p.actual.rows| && c in p.columns ==>
        Get(p.actual.rows[i], c) != Null && Get(p.actual.rows[i], c) != Str("None")) &&
      (forall i :: 0 <= i < |p.actual.rows| ==> p.actual.rows[i].index == Num(i as real))
  {
  }

  /** The index column that `reset_index` inserts is compared like a metric
      unless it is excluded; before the fills, its actual cells are the
      pivot's index labels. */
  lemma IndexColumnCompared(pivot: Table -> Pivot, exclude: seq<string>, forecast: Table, actual: Table)
    requires Preparation(pivot, exclude, forecast, actual).Ok?
    ensures var p := Preparation(pivot, exclude, forecast, actual).value;
      var pv := pivot(actual); var name := IndexColumn(pv);
      (name in p.columns <==> name !in exclude) &&
      |p.actual.rows| == |pv.table.rows| &&
      (name in p.columns ==> forall i :: 0 <= i < |pv.table.rows| ==>
        Get(p.actual.rows[i], name) == Filled(pv.table.rows[i].index, ActualFill))
  {
    var pivoted := Pivoted(pivot, actual).value;
    assert IndexColumn(pivot(actual)) in pivoted.columns;
  }

  /** `_prepare_data`. */
  method PrepareData(pivot: Table -> Pivot, exclude: seq<string>, forecast: Table, actual: Table)
    returns (p: Result<Prepared>)
    ensures p == Preparation(pivot, exclude, forecast, actual)
  {
    var reset := Pivoted(pivot, actual);
    if reset.Err? {
      return Err(reset.error);
    }
    var pivoted := reset.value;
    var columns := ComparisonColumns(forecast, pivoted, exclude);
    var f := StandardizeColumns(forecast, columns, ForecastFill);
    var a := StandardizeColumns(pivoted, columns, ActualFill);
    p := Ok(Prepared(f, a, columns));
  }
}
