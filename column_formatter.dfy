/**
  The column formatter: a function per column, applied to every value of the
  column, in the order the columns were registered; and its ready-made
  percentage formatting.
*/
module ColumnFormatting {
  import opened Tables
  import opened Text
  import opened Numbers

  /** A formatting function on one value; it may raise. */
  type CellFormat = Cell -> Result<Cell>

  /** `ColumnFormatter(formatters)`: the formatters in registration order, one
      per column name. */
  datatype ColumnFormatter = ColumnFormatter(formatters: seq<(string, CellFormat)>)

  /** The names of the formatters. */
  function Names(formatters: seq<(string, CellFormat)>): (names: seq<string>)
    ensures |names| == |formatters|
    ensures forall k :: 0 <= k < |formatters| ==> names[k] == formatters[k].0
  {
    if formatters == [] then [] else [formatters[0].0] + Names(formatters[1..])
  }

  predicate Distinct(names: seq<string>)
  {
    forall i, j :: 0 <= i < j < |names| ==> names[i] != names[j]
  }

  /** A dictionary has no empty constructor here: no formatter is a `ValueError`. */
  function NewColumnFormatter(formatters: seq<(string, CellFormat)>): (r: Result<ColumnFormatter>)
    requires Distinct(Names(formatters))
    ensures r.Err? <==> formatters == []
    ensures r.Err? ==> r.error.ValueError?
    ensures r.Ok? ==> r.value.formatters == formatters
  {
    if formatters == [] then Err(ValueError("formatters dictionary cannot be empty"))
    else Ok(ColumnFormatter(formatters))
  }

  // --------------------------------------------------------- percentage

  /** A column name or a list of column names. */
  datatype ColumnNames = Column(name: string) | Columns(names: seq<string>)

  /** The names without repeats, each at its first position (a dictionary
      built from the list). */
  function Dedup(names: seq<string>): (r: seq<string>)
    ensures Distinct(r)
    ensures forall c :: c in r <==> c in names
    ensures |r| <= |names|
  {
    if names == [] then []
    else
      var prev := Dedup(names[..|names| - 1]);
      var last := names[|names| - 1];
      assert forall c :: c in names <==> c in names[..|names| - 1] || c == last by {
        assert names == names[..|names| - 1] + [last];
      }
      if last in prev then prev else prev + [last]
  }

  /** `format_percentage(value)`: the value, times 100 when asked, in fixed
      notation with the given decimals and a `%`. A missing value prints
      `nan%`; text does not accept the `f` format; a timestamp cannot be
      multiplied, and formats `.{decimals}f` through `strftime`. */
  function FormatPercentage(decimals: nat, multiply: bool, c: Cell): (r: Result<Cell>)
    ensures r.Ok? ==> r.value.Str? && |r.value.s| >= 1 && r.value.s[|r.value.s| - 1] == '%'
    ensures r.Err? <==> c.Str? || (c.Time? && multiply)
    ensures c.Str? ==> r.Err? && r.error.ValueError?
    ensures c.Time? && multiply ==> r.Err? && r.error.TypeError?
  {
    match c
    case Null => Ok(Str("nan%"))
    case Num(x) => Ok(Str(ShowFixed(if multiply then x * 100.0 else x, decimals) + "%"))
    case Str(_) => Err(ValueError("Unknown format code 'f' for object of type 'str'"))
    case Time(_) =>
      if multiply then Err(TypeError("unsupported operand type(s) for *: 'Timestamp' and 'int'"))
      else Ok(Str("." + ShowNat(decimals) + "f%"))
  }

  /** A formatted number reads back, without its `%`, as the number (times
      100 when asked) rounded to the decimals. */
  lemma FormatPercentageRoundTrip(decimals: nat, multiply: bool, x: real)
    ensures var s := FormatPercentage(decimals, multiply, Num(x)).value.s;
      ParseDecimal(s[..|s| - 1]) == Some(RoundTo(if multiply then x * 100.0 else x, decimals))
  {
    var v := if multiply then x * 100.0 else x;
    var t := ShowFixed(v, decimals);
    assert FormatPercentage(decimals, multiply, Num(x)) == Ok(Str(t + "%"));
    DropLast(t, '%');
    ShowFixedRoundTrip(v, decimals);
  }

  lemma DropLast(t: string, c: char)
    ensures (t + [c])[..|t + [c]| - 1] == t
  {
  }

  /** `ColumnFormatter.percentage(columns, decimal_places, multiply_by_100)`. */
  function Percentage(columns: ColumnNames, decimals: int, multiply: bool): (r: Result<ColumnFormatter>)
    ensures decimals < 0 ==> r == Err(ValueError("decimal_places must be non-negative"))
    ensures decimals >= 0 && columns.Columns? && columns.names == [] ==> r.Err? && r.error.ValueError?
    ensures decimals >= 0 && (columns.Column? || columns.names != []) ==> r.Ok?
    ensures r.Ok? ==> (
      decimals >= 0 && Distinct(Names(r.value.formatters)) &&
      (forall c :: c in Names(r.value.formatters) <==> (if columns.Column? then c == columns.name else c in columns.names)) &&
      (forall k, v :: 0 <= k < |r.value.formatters| ==> r.value.formatters[k].1(v) == FormatPercentage(decimals, multiply, v)))
  {
    if decimals < 0 then Err(ValueError("decimal_places must be non-negative"))
    else
      var names := Dedup(if columns.Column? then [columns.name] else columns.names);
      var formatters := seq(|names|, k requires 0 <= k < |names| => (names[k], v => FormatPercentage(decimals, multiply, v)));
      assert Names(formatters) == names;
      assert columns.Column? ==> columns.name in names;
      assert columns.Columns? && columns.names != [] ==> columns.names[0] in names;
      NewColumnFormatter(formatters)
  }

  // ------------------------------------------------------------ format

  /** `series.apply(fn)`: the values of the column in row order, or the
      first error. */
  function MapColumn(rows: seq<Row>, column: string, fn: CellFormat): (r: Result<seq<Cell>>)
    ensures r.Ok? ==> |r.value| == |rows| && forall i :: 0 <= i < |rows| ==> fn(Get(rows[i], column)) == Ok(r.value[i])
    ensures r.Err? ==> exists i :: (0 <= i < |rows| && fn(Get(rows[i], column)) == Err(r.error) &&
      forall j :: 0 <= j < i ==> fn(Get(rows[j], column)).Ok?)
  {
    if rows == [] then Ok([])
    else
      match fn(Get(rows[0], column))
      case Err(e) => Err(e)
      case Ok(v) =>
        match MapColumn(rows[1..], column, fn)
        case Err(e) =>
          assert forall i :: 1 <= i < |rows| ==> rows[i] == rows[1..][i - 1];
          Err(e)
        case Ok(vs) =>
          assert forall i :: 1 <= i < |rows| ==> rows[i] == rows[1..][i - 1];
          Ok([v] + vs)
  }

  /** `result[column] = result[column].apply(fn)`. */
  function ApplyColumn(t: Table, column: string, fn: CellFormat): (r: Result<Table>)
    requires column in t.columns
    ensures r.Ok? ==> r.value.columns == t.columns && |r.value.rows| == |t.rows|
    ensures r.Ok? ==> forall i :: 0 <= i < |t.rows| ==>
      r.value.rows[i].index == t.rows[i].index &&
      fn(Get(t.rows[i], column)) == Ok(Get(r.value.rows[i], column)) &&
      forall c :: c != column ==> Get(r.value.rows[i], c) == Get(t.rows[i], c)
    ensures r.Err? <==> exists i :: 0 <= i < |t.rows| && fn(Get(t.rows[i], column)).Err?
  {
    match MapColumn(t.rows, column, fn)
    case Err(e) => Err(e)
    case Ok(vs) => Ok(SetColumn(t, column, row => if row in t.rows then fn(Get(row, column)).value else Null))
  }

  /** The table after the first `n` formatters, or the first error. */
  function FormattedUpTo(f: ColumnFormatter, t: Table, n: nat): (r: Result<Table>)
    requires n <= |f.formatters|
    ensures r.Ok? ==> r.value.columns == t.columns && |r.value.rows| == |t.rows|
  {
    if n == 0 then Ok(t)
    else
      match FormattedUpTo(f, t, n - 1)
      case Err(e) => Err(e)
      case Ok(prev) =>
        var (column, fn) := f.formatters[n - 1];
        if column in prev.columns then ApplyColumn(prev, column, fn) else Ok(prev)
  }

  /** `ColumnFormatter.format(df)`: an empty table is returned as it is. */
  function Formatted(f: ColumnFormatter, t: Table): (r: Result<Table>)
    ensures IsEmpty(t) ==> r == Ok(t)
    ensures r.Ok? ==> r.value.columns == t.columns && |r.value.rows| == |t.rows|
  {
    if IsEmpty(t) then Ok(t) else FormattedUpTo(f, t, |f.formatters|)
  }

  method Format(f: ColumnFormatter, t: Table) returns (r: Result<Table>)
    ensures r == Formatted(f, t)
  {
    if IsEmpty(t) {
      return Ok(t);
    }
    var result := t;
    var n := 0;
    while n < |f.formatters|
      invariant 0 <= n <= |f.formatters|
      invariant FormattedUpTo(f, t, n) == Ok(result)
    {
      var (column, fn) := f.formatters[n];
      if column in result.columns {
        var applied := ApplyColumn(result, column, fn);
        if applied.Err? {
          ErrorStops(f, t, n + 1, |f.formatters|);
          return Err(applied.error);
        }
        result := applied.value;
      }
      n := n + 1;
    }
    return Ok(result);
  }

  /** The first error is the result. */
  lemma {:induction false} ErrorStops(f: ColumnFormatter, t: Table, n: nat, m: nat)
    requires n <= m <= |f.formatters|
    requires FormattedUpTo(f, t, n).Err?
    ensures FormattedUpTo(f, t, m) == FormattedUpTo(f, t, n)
    decreases m - n
  {
    if n < m {
      ErrorStops(f, t, n + 1, m);
    }
  }

  /** With one formatter per column, a successful format leaves the labels and
      every other column alone, and holds in each formatted column the value
      its function gives for the original value. */
  lemma {:induction false} FormattedCells(f: ColumnFormatter, t: Table, n: nat)
    requires n <= |f.formatters| && Distinct(Names(f.formatters))
    requires FormattedUpTo(f, t, n).Ok?
    ensures var r := FormattedUpTo(f, t, n).value;
      forall i :: 0 <= i < |t.rows| ==>
        r.rows[i].index == t.rows[i].index &&
        (forall k :: 0 <= k < n && f.formatters[k].0 in t.columns ==>
          f.formatters[k].1(Get(t.rows[i], f.formatters[k].0)) == Ok(Get(r.rows[i], f.formatters[k].0))) &&
        (forall c :: c !in Names(f.formatters)[..n] ==> Get(r.rows[i], c) == Get(t.rows[i], c))
  {
    if n > 0 {
      FormattedCells(f, t, n - 1);
      var prev := FormattedUpTo(f, t, n - 1).value;
      var (column, fn) := f.formatters[n - 1];
      var names := Names(f.formatters);
      assert names[..n] == names[..n - 1] + [column];
      assert forall k :: 0 <= k < n - 1 ==> names[k] != column;
    }
  }

  /** A formatter for no present column, or an empty table, changes nothing. */
  lemma FormattedAbsent(f: ColumnFormatter, t: Table)
    requires forall k :: 0 <= k < |f.formatters| ==> f.formatters[k].0 !in t.columns
    ensures Formatted(f, t) == Ok(t)
  {
    if !IsEmpty(t) {
      AbsentUpTo(f, t, |f.formatters|);
    }
  }

  lemma {:induction false} AbsentUpTo(f: ColumnFormatter, t: Table, n: nat)
    requires n <= |f.formatters|
    requires forall k :: 0 <= k < |f.formatters| ==> f.formatters[k].0 !in t.columns
    ensures FormattedUpTo(f, t, n) == Ok(t)
  {
    if n > 0 {
      AbsentUpTo(f, t, n - 1);
    }
  }
}
