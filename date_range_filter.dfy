/**
  The date-range filter: rows whose date (a column, or the index) lies
  between an optional start and an optional end, both inclusive.

  Timestamps are nanoseconds since 1970-01-01 00:00, as a pandas timestamp
  stores them; a missing timestamp (NaT) is `None` and compares false with
  every bound. Dates are read from `YYYY-MM-DD` text on the proleptic
  Gregorian calendar.
*/
module DateRange {
  import opened Tables
  import opened Text

  // ----------------------------------------------------------- calendar

  predicate IsLeap(y: int)
  {
    y % 4 == 0 && (y % 100 != 0 || y % 400 == 0)
  }

  function DaysInMonth(y: int, m: int): (n: int)
    requires 1 <= m <= 12
    ensures 28 <= n <= 31
  {
    if m == 2 then (if IsLeap(y) then 29 else 28)
    else if m == 4 || m == 6 || m == 9 || m == 11 then 30
    else 31
  }

  /** The days of the months before month `m` of year `y`. */
  function DaysBeforeMonth(y: int, m: int): (n: int)
    requires 1 <= m <= 13
    ensures n >= 0
  {
    var leap := if IsLeap(y) && m > 2 then 1 else 0;
    [0, 31, 59, 90, 120, 151, 181, 212, 243, 273, 304, 334, 365][m - 1] + leap
  }

  /** Each month starts where the one before it ends, and the months fill the year. */
  lemma MonthStep(y: int, m: int)
    requires 1 <= m <= 12
    ensures DaysBeforeMonth(y, m + 1) == DaysBeforeMonth(y, m) + DaysInMonth(y, m)
    ensures DaysBeforeMonth(y, 13) == if IsLeap(y) then 366 else 365
  {
  }

  /** The leap years among 1, ..., y. */
  function LeapsThrough(y: nat): int
  {
    y / 4 - y / 100 + y / 400
  }

  lemma QuotientStep4(y: nat)
    requires y >= 1
    ensures y / 4 - (y - 1) / 4 == if y % 4 == 0 then 1 else 0
  {
  }

  lemma QuotientStep100(y: nat)
    requires y >= 1
    ensures y / 100 - (y - 1) / 100 == if y % 100 == 0 then 1 else 0
  {
  }

  lemma QuotientStep400(y: nat)
    requires y >= 1
    ensures y / 400 - (y - 1) / 400 == if y % 400 == 0 then 1 else 0
  {
  }

  lemma LeapStep(y: nat)
    requires y >= 1
    ensures LeapsThrough(y) - LeapsThrough(y - 1) == if IsLeap(y) then 1 else 0
  {
    QuotientStep4(y);
    QuotientStep100(y);
    QuotientStep400(y);
    DivisorChain(y);
    CountStep(y / 4 - (y - 1) / 4, y / 100 - (y - 1) / 100, y / 400 - (y - 1) / 400,
      y % 4 == 0, y % 100 == 0, y % 400 == 0);
  }

  /** A multiple of 400 is one of 100, and a multiple of 100 one of 4. */
  lemma DivisorChain(y: nat)
    ensures y % 400 == 0 ==> y % 100 == 0
    ensures y % 100 == 0 ==> y % 4 == 0
  {
    if y % 400 == 0 {
      assert y == 100 * (4 * (y / 400));
    }
    if y % 100 == 0 {
      assert y == 4 * (25 * (y / 100));
    }
  }

  lemma CountStep(d4: int, d100: int, d400: int, b4: bool, b100: bool, b400: bool)
    requires d4 == (if b4 then 1 else 0) && d100 == (if b100 then 1 else 0) && d400 == (if b400 then 1 else 0)
    requires (b400 ==> b100) && (b100 ==> b4)
    ensures d4 - d100 + d400 == if b4 && (!b100 || b400) then 1 else 0
  {
  }

  predicate ValidDate(y: int, m: int, d: int)
  {
    1 <= y && 1 <= m <= 12 && 1 <= d <= DaysInMonth(y, m)
  }

  /** Days from 1970-01-01 to the date. */
  function DayNumber(y: int, m: int, d: int): int
    requires ValidDate(y, m, d)
  {
    365 * (y - 1) + LeapsThrough(y - 1) + DaysBeforeMonth(y, m) + (d - 1) - 719162
  }

  predicate DateBefore(y: int, m: int, d: int, y': int, m': int, d': int)
  {
    y < y' || (y == y' && (m < m' || (m == m' && d < d')))
  }

  lemma YearEnd(y: int, m: int, d: int)
    requires ValidDate(y, m, d)
    ensures DayNumber(y, m, d) < DayNumber(y + 1, 1, 1)
  {
    MonthStep(y, m);
    LeapStep(y);
    assert DaysBeforeMonth(y, m + 1) <= DaysBeforeMonth(y, 13);
  }

  /** Later dates have larger day numbers. */
  lemma {:induction false} DayNumberMonotone(y: int, m: int, d: int, y': int, m': int, d': int)
    requires ValidDate(y, m, d) && ValidDate(y', m', d')
    requires DateBefore(y, m, d, y', m', d')
    ensures DayNumber(y, m, d) < DayNumber(y', m', d')
    decreases y' - y
  {
    if y == y' {
      if m < m' {
        MonthStep(y, m);
        assert DaysBeforeMonth(y, m + 1) <= DaysBeforeMonth(y, m');
      }
    } else {
      YearEnd(y, m, d);
      if y + 1 < y' {
        DayNumberMonotone(y + 1, 1, 1, y', m', d');
      }
    }
  }

  /** Day numbers compare as the dates do. */
  lemma DayNumberOrder(y: int, m: int, d: int, y': int, m': int, d': int)
    requires ValidDate(y, m, d) && ValidDate(y', m', d')
    ensures DayNumber(y, m, d) <= DayNumber(y', m', d') <==> !DateBefore(y', m', d', y, m, d)
    ensures DayNumber(y, m, d) == DayNumber(y', m', d') <==> y == y' && m == m' && d == d'
  {
    if DateBefore(y', m', d', y, m, d) {
      DayNumberMonotone(y', m', d', y, m, d);
    } else if DateBefore(y, m, d, y', m', d') {
      DayNumberMonotone(y, m, d, y', m', d');
    }
  }

  // --------------------------------------------------------- timestamps

  const NanosPerDay := 86_400_000_000_000

  /** The dates a nanosecond timestamp can hold: 1677-09-22 to 2262-04-11. */
  predicate InTimestampRange(y: int, m: int, d: int)
  {
    !DateBefore(y, m, d, 1677, 9, 22) && !DateBefore(2262, 4, 11, y, m, d)
  }

  /** `pd.to_datetime` of `YYYY-MM-DD` text: midnight of that date, or None for
      any other text, an impossible date, or a date out of range. */
  function ParseDate(s: string): (r: Option<int>)
    ensures r.Some? ==> exists y, m, d :: (ValidDate(y, m, d) && InTimestampRange(y, m, d) &&
      r.value == DayNumber(y, m, d) * NanosPerDay)
  {
    if |s| == 10 && s[4] == '-' && s[7] == '-' && AllDigits(s[..4]) && AllDigits(s[5..7]) && AllDigits(s[8..]) then
      var y, m, d := ParseNat(s[..4]), ParseNat(s[5..7]), ParseNat(s[8..]);
      if ValidDate(y, m, d) && InTimestampRange(y, m, d) then Some(DayNumber(y, m, d) * NanosPerDay) else None
    else None
  }

  /** `n` in exactly `width` digits, with leading zeros. */
  function Padded(n: nat, width: nat): (s: string)
    requires 1 <= width && n < Pow10(width)
    ensures |s| == width && AllDigits(s) && ParseNat(s) == n
  {
    ShowNatLength(n, width);
    var digits := ShowNat(n);
    LeadingZeros(width - |digits|, digits);
    ParseShowNat(n);
    Zeros(width - |digits|) + digits
  }

  lemma {:induction false} ShowNatLength(n: nat, width: nat)
    requires 1 <= width && n < Pow10(width)
    ensures |ShowNat(n)| <= width
  {
    if n >= 10 {
      assert Pow10(width) == 10 * Pow10(width - 1);
      assert width >= 2;
      ShowNatLength(n / 10, width - 1);
    } else {
      assert ShowNat(n) == [DigitChar(n % 10)];
    }
  }

  /** The date as `YYYY-MM-DD`. */
  function ShowDate(y: nat, m: nat, d: nat): (s: string)
    requires y < 10000 && m < 100 && d < 100
    ensures |s| == 10
  {
    Padded(y, 4) + "-" + Padded(m, 2) + "-" + Padded(d, 2)
  }

  /** A rendered date in range parses back to its own midnight. */
  lemma ParseShowDate(y: nat, m: nat, d: nat)
    requires y < 10000 && ValidDate(y, m, d) && InTimestampRange(y, m, d)
    ensures ParseDate(ShowDate(y, m, d)) == Some(DayNumber(y, m, d) * NanosPerDay)
  {
    var s := ShowDate(y, m, d);
    assert s[..4] == Padded(y, 4);
    assert s[5..7] == Padded(m, 2);
    assert s[8..] == Padded(d, 2);
  }

  /** `pd.to_datetime` of one cell: a timestamp stays, a number counts
      nanoseconds (truncated toward zero), a missing value is NaT, and text
      must be a date. */
  function ToTimestamp(c: Cell): (r: Result<Option<int>>)
    ensures r.Err? <==> c.Str? && ParseDate(c.s).None?
    ensures r.Err? ==> r.error.ValueError?
    ensures c.Time? ==> r == Ok(Some(c.t))
    ensures c.Null? ==> r == Ok(None)
  {
    match c
    case Null => Ok(None)
    case Time(t) => Ok(Some(t))
    case Num(x) => Ok(Some(if x >= 0.0 then x.Floor else -((-x).Floor)))
    case Str(s) =>
      match ParseDate(s)
      case Some(t) => Ok(Some(t))
      case None => Err(ValueError("Unknown datetime string format"))
  }

  // ------------------------------------------------------------- filter

  /** A bound as given: date text or a timestamp. */
  datatype DateInput = DateText(text: string) | Stamp(ns: int)

  function ToBound(b: DateInput): (r: Result<int>)
    ensures r.Err? <==> b.DateText? && ParseDate(b.text).None?
    ensures r.Err? ==> r.error.ValueError?
  {
    match b
    case Stamp(t) => Ok(t)
    case DateText(s) => if ParseDate(s).Some? then Ok(ParseDate(s).value) else Err(ValueError("Unknown datetime string format"))
  }

  datatype DateRangeFilter = DateRangeFilter(start: Option<int>, end: Option<int>, column: Option<string>)

  /** `DateRangeFilter(start_date, end_date, date_column)`: at least one bound,
      each readable as a date, the start not after the end. */
  function NewDateRangeFilter(start: Option<DateInput>, end: Option<DateInput>, column: Option<string>)
    : (r: Result<DateRangeFilter>)
    ensures r.Err? <==>
      (start.None? && end.None?) ||
      (start.Some? && ToBound(start.value).Err?) ||
      (end.Some? && ToBound(end.value).Err?) ||
      (start.Some? && end.Some? && ToBound(start.value).value > ToBound(end.value).value)
    ensures r.Err? ==> r.error.ValueError?
    ensures r.Ok? ==> (r.value.column == column &&
      r.value.start == (if start.Some? then Some(ToBound(start.value).value) else None) &&
      r.value.end == (if end.Some? then Some(ToBound(end.value).value) else None))
  {
    if start.None? && end.None? then Err(ValueError("At least one of 'start_date' or 'end_date' must be specified"))
    else if start.Some? && ToBound(start.value).Err? then Err(ToBound(start.value).error)
    else if end.Some? && ToBound(end.value).Err? then Err(ToBound(end.value).error)
    else
      var s := if start.Some? then Some(ToBound(start.value).value) else None;
      var e := if end.Some? then Some(ToBound(end.value).value) else None;
      if s.Some? && e.Some? && s.value > e.value then Err(ValueError("start_date must be before or equal to end_date"))
      else Ok(DateRangeFilter(s, e, column))
  }

  /** `date >= start` when there is a start; NaT compares false. */
  predicate AfterStart(start: Option<int>, d: Option<int>)
  {
    start.None? || (d.Some? && d.value >= start.value)
  }

  /** `date <= end` when there is an end; NaT compares false. */
  predicate BeforeEnd(end: Option<int>, d: Option<int>)
  {
    end.None? || (d.Some? && d.value <= end.value)
  }

  predicate InRange(f: DateRangeFilter, d: Option<int>)
  {
    AfterStart(f.start, d) && BeforeEnd(f.end, d)
  }

  /** The converted date of a row's cell (None when it is NaT or does not convert). */
  function StampOf(c: Cell): Option<int>
  {
    if ToTimestamp(c).Ok? then ToTimestamp(c).value else None
  }

  /** The two masks of the filter, the start's and then the end's, each
      applied only when its bound is set, on the dates `stamp` reads off a row. */
  function Bounded(f: DateRangeFilter, t: Table, stamp: Row -> Option<int>): (r: Table)
    ensures r.columns == t.columns && |r.rows| <= |t.rows|
    ensures forall x :: x in r.rows <==> x in t.rows && InRange(f, stamp(x))
  {
    var a := if f.start.Some? then Where(t, row => AfterStart(f.start, stamp(row))) else t;
    if f.end.Some? then Where(a, row => BeforeEnd(f.end, stamp(row))) else a
  }

  /** Filtering on a column: both masks, then the default index. */
  function ByColumn(f: DateRangeFilter, t: Table, column: string): (r: Result<Table>)
    ensures r.Err? <==> column !in t.columns || exists row :: row in t.rows && ToTimestamp(Get(row, column)).Err?
    ensures r.Err? ==> r.error.ValueError?
    ensures r.Ok? ==> (r.value.columns == t.columns && |r.value.rows| <= |t.rows| &&
      (forall i :: 0 <= i < |r.value.rows| ==> r.value.rows[i].index == Num(i as real)) &&
      (forall y :: y in r.value.rows ==>
        exists x :: x in t.rows && x.cells == y.cells && InRange(f, StampOf(Get(x, column)))) &&
      (forall x :: x in t.rows && InRange(f, StampOf(Get(x, column))) ==> Holds(r.value.rows, x.cells)))
  {
    if column !in t.columns then Err(ValueError("Column not found in DataFrame"))
    else if exists row :: row in t.rows && ToTimestamp(Get(row, column)).Err? then
      Err(ValueError("Unknown datetime string format"))
    else
      var b := Bounded(f, t, row => StampOf(Get(row, column)));
      RenumberCells(b.rows);
      Ok(Table(b.columns, Renumber(b.rows)))
  }

  /** The label a converted index holds: the timestamp, or missing for NaT. */
  function Label(stamp: Option<int>): Cell
  {
    match stamp
    case Some(v) => Time(v)
    case None => Null
  }

  /** The index converted to timestamps, or the `ValueError` of an index that
      does not convert. A datetime index converts to itself. */
  function Relabelled(t: Table): (r: Result<Table>)
    ensures r.Err? <==> exists row :: row in t.rows && ToTimestamp(row.index).Err?
    ensures r.Err? ==> r.error.ValueError?
    ensures r.Ok? ==> (r.value.columns == t.columns && |r.value.rows| == |t.rows| &&
      forall i :: 0 <= i < |t.rows| ==>
        r.value.rows[i].cells == t.rows[i].cells && r.value.rows[i].index == Label(StampOf(t.rows[i].index)))
  {
    if exists row :: row in t.rows && ToTimestamp(row.index).Err? then
      Err(ValueError("DataFrame index cannot be converted to datetime"))
    else
      Ok(Table(t.columns, seq(|t.rows|, i requires 0 <= i < |t.rows| =>
        Row(Label(StampOf(t.rows[i].index)), t.rows[i].cells))))
  }

  /** Filtering on the index: both masks on the converted labels, which the
      result keeps. */
  function ByIndex(f: DateRangeFilter, t: Table): (r: Result<Table>)
    ensures r.Err? <==> exists row :: row in t.rows && ToTimestamp(row.index).Err?
    ensures r.Err? ==> r.error.ValueError?
    ensures r.Ok? ==> (r.value.columns == t.columns && |r.value.rows| <= |t.rows| &&
      forall y :: y in r.value.rows <==> y in Relabelled(t).value.rows && InRange(f, StampOf(y.index)))
  {
    match Relabelled(t)
    case Err(e) => Err(e)
    case Ok(rel) => Ok(Bounded(f, rel, (row: Row) => StampOf(row.index)))
  }

  /** `DateRangeFilter.filter(df)`. */
  function DateFilter(f: DateRangeFilter, t: Table): (r: Result<Table>)
    ensures IsEmpty(t) ==> r == Ok(t)
    ensures r.Err? ==> r.error.ValueError?
    ensures r.Ok? ==> r.value.columns == t.columns && |r.value.rows| <= |t.rows|
  {
    if IsEmpty(t) then Ok(t)
    else if f.column.Some? then ByColumn(f, t, f.column.value)
    else ByIndex(f, t)
  }

  /** The masks keep rows in their order. */
  lemma BoundedSubsequence(f: DateRangeFilter, t: Table, stamp: Row -> Option<int>)
    ensures IsSubsequence(Bounded(f, t, stamp).rows, t.rows)
  {
    var p := (row: Row) => AfterStart(f.start, stamp(row));
    var q := (row: Row) => BeforeEnd(f.end, stamp(row));
    var a := if f.start.Some? then Where(t, p) else t;
    if f.start.Some? {
      WhereIsSubsequence(t, p);
    } else {
      SubsequenceReflexive(t.rows);
    }
    if f.end.Some? {
      WhereIsSubsequence(a, q);
      SubsequenceTransitive(Where(a, q).rows, a.rows, t.rows);
    }
  }

  /** A successful filter keeps the contents of a subset of the rows, in their
      original order: only the labels change (renumbered, or converted). */
  lemma DateFilterOrder(f: DateRangeFilter, t: Table)
    requires DateFilter(f, t).Ok?
    ensures IsSubsequence(CellsOf(DateFilter(f, t).value.rows), CellsOf(t.rows))
  {
    if IsEmpty(t) {
      SubsequenceReflexive(CellsOf(t.rows));
    } else if f.column.Some? {
      var column := f.column.value;
      var b := Bounded(f, t, row => StampOf(Get(row, column)));
      BoundedSubsequence(f, t, row => StampOf(Get(row, column)));
      SubsequenceCells(b.rows, t.rows);
      assert CellsOf(Renumber(b.rows)) == CellsOf(b.rows);
    } else {
      var rel := Relabelled(t).value;
      BoundedSubsequence(f, rel, (row: Row) => StampOf(row.index));
      SubsequenceCells(Bounded(f, rel, (row: Row) => StampOf(row.index)).rows, rel.rows);
      assert CellsOf(rel.rows) == CellsOf(t.rows);
    }
  }

  /** With the same date as start and end, a date in the column is kept exactly
      when it is that date. */
  lemma SameDayKeeps(ys: nat, ms: nat, ds: nat, y: nat, m: nat, d: nat, column: string)
    requires ys < 10000 && ValidDate(ys, ms, ds) && InTimestampRange(ys, ms, ds)
    requires y < 10000 && ValidDate(y, m, d) && InTimestampRange(y, m, d)
    ensures var f := NewDateRangeFilter(Some(DateText(ShowDate(ys, ms, ds))), Some(DateText(ShowDate(ys, ms, ds))), Some(column));
      f.Ok? && (InRange(f.value, StampOf(Str(ShowDate(y, m, d)))) <==> y == ys && m == ms && d == ds)
  {
    var a, c := DayNumber(ys, ms, ds), DayNumber(y, m, d);
    ParseShowDate(ys, ms, ds);
    ParseShowDate(y, m, d);
    DayNumberOrder(ys, ms, ds, y, m, d);
    BoundsKeep(ShowDate(ys, ms, ds), ShowDate(ys, ms, ds), ShowDate(y, m, d), a, a, c, column);
  }

  /** With both bounds given as `YYYY-MM-DD` text, a row whose date column holds
      such text is kept exactly when its date lies between the two, inclusive. */
  lemma TextBoundsKeep(ys: nat, ms: nat, ds: nat, ye: nat, me: nat, de: nat, y: nat, m: nat, d: nat, column: string)
    requires ys < 10000 && ValidDate(ys, ms, ds) && InTimestampRange(ys, ms, ds)
    requires ye < 10000 && ValidDate(ye, me, de) && InTimestampRange(ye, me, de)
    requires y < 10000 && ValidDate(y, m, d) && InTimestampRange(y, m, d)
    requires !DateBefore(ye, me, de, ys, ms, ds)
    ensures var f := NewDateRangeFilter(Some(DateText(ShowDate(ys, ms, ds))), Some(DateText(ShowDate(ye, me, de))), Some(column));
      f.Ok? &&
      (InRange(f.value, StampOf(Str(ShowDate(y, m, d)))) <==>
        !DateBefore(y, m, d, ys, ms, ds) && !DateBefore(ye, me, de, y, m, d))
  {
    var a, b, c := DayNumber(ys, ms, ds), DayNumber(ye, me, de), DayNumber(y, m, d);
    ParseShowDate(ys, ms, ds);
    ParseShowDate(ye, me, de);
    ParseShowDate(y, m, d);
    DayNumberOrder(ys, ms, ds, ye, me, de);
    DayNumberOrder(ys, ms, ds, y, m, d);
    DayNumberOrder(y, m, d, ye, me, de);
    BoundsKeep(ShowDate(ys, ms, ds), ShowDate(ye, me, de), ShowDate(y, m, d), a, b, c, column);
  }

  /** Dates read from text compare as their day numbers. */
  lemma BoundsKeep(startText: string, endText: string, text: string, a: int, b: int, c: int, column: string)
    requires ParseDate(startText) == Some(a * NanosPerDay)
    requires ParseDate(endText) == Some(b * NanosPerDay)
    requires ParseDate(text) == Some(c * NanosPerDay)
    requires a <= b
    ensures var f := NewDateRangeFilter(Some(DateText(startText)), Some(DateText(endText)), Some(column));
      f.Ok? && (InRange(f.value, StampOf(Str(text))) <==> a <= c <= b)
  {
    ScaledOrder(a, b);
    TextFilter(startText, endText, column, a * NanosPerDay, b * NanosPerDay);
    assert StampOf(Str(text)) == Some(c * NanosPerDay);
    ScaledOrder(a, c);
    ScaledOrder(c, b);
  }

  lemma TextFilter(startText: string, endText: string, column: string, s: int, e: int)
    requires ParseDate(startText) == Some(s) && ParseDate(endText) == Some(e) && s <= e
    ensures NewDateRangeFilter(Some(DateText(startText)), Some(DateText(endText)), Some(column))
      == Ok(DateRangeFilter(Some(s), Some(e), Some(column)))
  {
    assert ToBound(DateText(startText)) == Ok(s);
    assert ToBound(DateText(endText)) == Ok(e);
  }

  lemma ScaledOrder(a: int, b: int)
    ensures a * NanosPerDay <= b * NanosPerDay <==> a <= b
  {
  }
}
