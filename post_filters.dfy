/**
  The post-filters that run on the detection result: keeping the anomalies,
  keeping the significant deviations, and rendering the deviation as text.
*/
module PostFilters {
  import opened Tables
  import opened Text
  import opened Numbers
  import opened PostProcessing

  // ---------------------------------------------------------- anomalies

  /** `AnomalyFilter(exclude_no_forecast)`: the flag is kept but never read. */
  datatype AnomalyFilter = AnomalyFilter(excludeNoForecast: bool)

  /** `AnomalyFilter.process`: the rows whose status is `BELOW_P10` or
      `ABOVE_P90`; an empty table or one without a status passes unchanged. */
  function KeepAnomalies(f: AnomalyFilter, t: Table): (r: Table)
    ensures r.columns == t.columns
    ensures IsEmpty(t) || "status" !in t.columns ==> r == t
    ensures !IsEmpty(t) && "status" in t.columns ==>
      forall row :: row in r.rows <==> row in t.rows && IsAnomaly(row)
  {
    if IsEmpty(t) || "status" !in t.columns then t else Where(t, IsAnomaly)
  }

  /** The result keeps the rows in order and invents none. */
  lemma KeepAnomaliesSubsequence(f: AnomalyFilter, t: Table)
    ensures IsSubsequence(KeepAnomalies(f, t).rows, t.rows)
  {
    if IsEmpty(t) || "status" !in t.columns {
      SubsequenceReflexive(t.rows);
    } else {
      WhereIsSubsequence(t, IsAnomaly);
    }
  }

  /** Filtering twice, with either flag, is filtering once: the flag makes no
      difference. */
  lemma KeepAnomaliesIdempotent(f: AnomalyFilter, g: AnomalyFilter, t: Table)
    ensures KeepAnomalies(g, KeepAnomalies(f, t)) == KeepAnomalies(f, t)
    ensures KeepAnomalies(f, t) == KeepAnomalies(g, t)
  {
    if !IsEmpty(t) && "status" in t.columns {
      WhereIdempotent(t, IsAnomaly);
    }
  }

  // --------------------------------------------------------- deviations

  datatype DeviationFilter = DeviationFilter(minDeviation: real, keepInRange: bool)

  /** `DeviationFilter(min_deviation_pct, keep_in_range)`. */
  function NewDeviationFilter(minDeviation: real, keepInRange: bool): (r: Result<DeviationFilter>)
    ensures r.Err? <==> minDeviation < 0.0
    ensures r.Err? ==> r.error.ValueError?
    ensures r.Ok? ==> r.value.minDeviation == minDeviation && r.value.keepInRange == keepInRange
  {
    if minDeviation < 0.0 then Err(ValueError("min_deviation_pct must be non-negative"))
    else Ok(DeviationFilter(minDeviation, keepInRange))
  }

  /** The mask: in range (when asked and a status exists) or deviating enough. */
  predicate Significant(f: DeviationFilter, t: Table, row: Row)
  {
    (f.keepInRange && "status" in t.columns && StatusIs(row, "IN_RANGE")) || DeviationAtLeast(row, f.minDeviation)
  }

  /** `DeviationFilter.process`: comparing a text or timestamp deviation with
      the minimum raises `TypeError`, whatever the row's status. */
  function KeepSignificant(f: DeviationFilter, t: Table): (r: Result<Table>)
    ensures IsEmpty(t) || "deviation_pct" !in t.columns ==> r == Ok(t)
    ensures r.Err? <==> !IsEmpty(t) && "deviation_pct" in t.columns && exists row :: row in t.rows && Incomparable(row)
    ensures r.Err? ==> r.error.TypeError?
    ensures r.Ok? ==> r.value.columns == t.columns
    ensures r.Ok? && !IsEmpty(t) && "deviation_pct" in t.columns ==>
      forall row :: row in r.value.rows <==> row in t.rows && Significant(f, t, row)
  {
    if IsEmpty(t) || "deviation_pct" !in t.columns then Ok(t)
    else if exists row :: row in t.rows && Incomparable(row) then
      Err(TypeError("'>=' not supported between instances of 'str' and 'float'"))
    else Ok(Where(t, row => Significant(f, t, row)))
  }

  /** A successful deviation filter keeps the rows in order and invents none. */
  lemma KeepSignificantSubsequence(f: DeviationFilter, t: Table)
    requires KeepSignificant(f, t).Ok?
    ensures IsSubsequence(KeepSignificant(f, t).value.rows, t.rows)
  {
    if IsEmpty(t) || "deviation_pct" !in t.columns {
      SubsequenceReflexive(t.rows);
    } else {
      WhereIsSubsequence(t, row => Significant(f, t, row));
    }
  }

  /** Filtering the kept rows again keeps them all. */
  lemma KeepSignificantIdempotent(f: DeviationFilter, t: Table)
    requires KeepSignificant(f, t).Ok?
    ensures KeepSignificant(f, KeepSignificant(f, t).value) == KeepSignificant(f, t)
  {
    var r := KeepSignificant(f, t).value;
    if !IsEmpty(t) && "deviation_pct" in t.columns && !IsEmpty(r) {
      var sig := (row: Row) => Significant(f, t, row);
      assert forall row :: row in r.rows ==> Significant(f, r, row) == sig(row);
      FilterSame(r.rows, row => Significant(f, r, row), sig);
      WhereIdempotent(t, sig);
    }
  }

  /** With numeric deviations the anomaly filter and the deviation filter may
      run in either order. */
  lemma FiltersCommute(f: AnomalyFilter, g: DeviationFilter, t: Table)
    requires forall row :: row in t.rows ==> !Incomparable(row)
    ensures KeepSignificant(g, t).Ok?
    ensures KeepSignificant(g, KeepAnomalies(f, t)) == Ok(KeepAnomalies(f, KeepSignificant(g, t).value))
  {
    if !IsEmpty(t) && "status" in t.columns && "deviation_pct" in t.columns {
      var sig := row => Significant(g, t, row);
      var a := Where(t, IsAnomaly);
      var s := Where(t, sig);
      WhereCommute(t, IsAnomaly, sig);
      if IsEmpty(a) {
        assert a.rows == [];
        assert Where(s, IsAnomaly).rows == [];
        if !IsEmpty(s) {
          assert KeepAnomalies(f, s) == Where(s, IsAnomaly);
        }
      } else {
        assert forall row :: row in a.rows ==> Significant(g, a, row) == sig(row);
        FilterSame(a.rows, row => Significant(g, a, row), sig);
        if IsEmpty(s) {
          assert s.rows == [];
          assert Where(a, sig).rows == [];
        }
      }
    }
  }

  // --------------------------------------------------------- rendering

  datatype DeviationFormatter = DeviationFormatter(decimals: nat)

  /** `DeviationFormatter(decimal_places)`. */
  function NewDeviationFormatter(decimals: int): (r: Result<DeviationFormatter>)
    ensures r.Err? <==> decimals < 0
    ensures r.Err? ==> r.error.ValueError?
    ensures r.Ok? ==> r.value.decimals == decimals
  {
    if decimals < 0 then Err(ValueError("decimal_places must be non-negative"))
    else Ok(DeviationFormatter(decimals))
  }

  /** `DeviationFormatter.process`: every deviation rounded and rendered with a
      `%`; rounding a text or timestamp deviation raises `TypeError`. */
  function FormatDeviation(f: DeviationFormatter, t: Table): (r: Result<Table>)
    ensures IsEmpty(t) || "deviation_pct" !in t.columns ==> r == Ok(t)
    ensures r.Err? <==> !IsEmpty(t) && "deviation_pct" in t.columns && exists row :: row in t.rows && Incomparable(row)
    ensures r.Err? ==> r.error.TypeError?
    ensures r.Ok? ==> r.value.columns == t.columns && |r.value.rows| == |t.rows|
    ensures r.Ok? && !IsEmpty(t) && "deviation_pct" in t.columns ==>
      forall i :: 0 <= i < |t.rows| ==>
        r.value.rows[i].index == t.rows[i].index &&
        Get(r.value.rows[i], "deviation_pct").Str? &&
        (forall c :: c != "deviation_pct" ==> Get(r.value.rows[i], c) == Get(t.rows[i], c))
  {
    if IsEmpty(t) || "deviation_pct" !in t.columns then Ok(t)
    else if exists row :: row in t.rows && Incomparable(row) then
      Err(TypeError("type str doesn't define __round__ method"))
    else Ok(SetColumn(t, "deviation_pct", row => PercentText(Get(row, "deviation_pct"), f.decimals)))
  }

  /** A rendered deviation reads back, without its `%`, as the deviation
      rounded to the formatter's places, and a missing one as `nan%`. */
  lemma FormatDeviationRoundTrip(f: DeviationFormatter, t: Table, i: nat)
    requires FormatDeviation(f, t).Ok? && !IsEmpty(t) && "deviation_pct" in t.columns && i < |t.rows|
    ensures var d := Get(t.rows[i], "deviation_pct");
      var s := Get(FormatDeviation(f, t).value.rows[i], "deviation_pct").s;
      |s| >= 1 && s[|s| - 1] == '%' &&
      (d.Num? ==> ParseDecimal(s[..|s| - 1]) == Some(RoundTo(d.x, f.decimals))) &&
      (d.Null? ==> s == "nan%")
  {
    var d := Get(t.rows[i], "deviation_pct");
    if d.Num? {
      PercentTextParses(d.x, f.decimals);
    }
  }

  /** The formatter must run last: on its output the deviation filter, and a
      second formatter, raise `TypeError`. */
  lemma FormattedRejected(f: DeviationFormatter, g: DeviationFilter, h: DeviationFormatter, t: Table)
    requires FormatDeviation(f, t).Ok? && !IsEmpty(t) && "deviation_pct" in t.columns
    ensures KeepSignificant(g, FormatDeviation(f, t).value) == Err(TypeError("'>=' not supported between instances of 'str' and 'float'"))
    ensures FormatDeviation(h, FormatDeviation(f, t).value).Err?
  {
    var r := RenderedIncomparable(f, t);
    assert r.rows[0] in r.rows;
  }

  /** A rendered table is non-empty, keeps its deviation column, and its
      first deviation is text. */
  lemma RenderedIncomparable(f: DeviationFormatter, t: Table) returns (r: Table)
    requires FormatDeviation(f, t).Ok? && !IsEmpty(t) && "deviation_pct" in t.columns
    ensures FormatDeviation(f, t) == Ok(r)
    ensures !IsEmpty(r) && "deviation_pct" in r.columns && Incomparable(r.rows[0])
  {
    r := FormatDeviation(f, t).value;
    assert Get(r.rows[0], "deviation_pct").Str?;
  }
}
