/**
  Comparing one metric: decoding the `|`-separated quantile text of a
  forecast cell, coercing the actual value to a number, and classifying the
  actual value against the q10..q90 band with a deviation percentage.
*/
module MetricComparison {
  import opened Tables
  import opened Text
  import opened Numbers

  /** Positions of the point forecast, q10 and q90 in the quantile text. */
  const PointIndex: nat := 0
  const LowerIndex: nat := 1
  const UpperIndex: nat := 9

  /** The text standardisation writes into a missing forecast cell. */
  const ForecastFill: string := "0|0|0|0|0|0|0|0|0|0"

  /** What a forecast cell says about one metric: the point forecast and the band. */
  datatype Band = Band(point: real, lower: real, upper: real)

  const NoBand := Band(0.0, 0.0, 0.0)

  /** One field of the split text: an absent field reads as 0.0, a present one must parse. */
  function Field(parts: seq<string>, i: nat): Option<real>
  {
    if i < |parts| then ParseDecimal(parts[i]) else Some(0.0)
  }

  /** The band a quantile text denotes; any of the three fields failing to parse
      zeroes all three. */
  function DecodeText(s: string): Band
  {
    var parts := Split(s, '|');
    match (Field(parts, PointIndex), Field(parts, LowerIndex), Field(parts, UpperIndex))
    case (Some(p), Some(l), Some(u)) => Band(p, l, u)
    case _ => NoBand
  }

  /** `str(cell).split('|')` for every kind of cell: a number's text is its own
      single field; a timestamp's text is no number. */
  function DecodeForecast(c: Cell): (b: Band)
    ensures c.Num? ==> b == Band(c.x, 0.0, 0.0)
    ensures c.Null? || c.Time? ==> b == NoBand
  {
    match c
    case Str(s) => DecodeText(s)
    case Num(x) => Band(x, 0.0, 0.0)
    case _ => NoBand
  }

  /** `float(actual)`, with 0.0 where the conversion raises. */
  function CoerceActual(c: Cell): (a: real)
    ensures c.Num? ==> a == c.x
    ensures c.Null? || c.Time? ==> a == 0.0
  {
    match c
    case Num(x) => x
    case Str(s) => (match ParseDecimal(s) case Some(v) => v case None => 0.0)
    case _ => 0.0
  }

  /** Quantiles written with `places` decimals and joined with `|` decode to the
      rounded point, q10 and q90; a missing q10 or q90 reads as zero. */
  lemma DecodeRendered(xs: seq<real>, places: nat)
    requires |xs| >= 1
    ensures DecodeText(Join(seq(|xs|, i requires 0 <= i < |xs| => ShowFixed(xs[i], places)), '|'))
      == Band(RoundTo(xs[0], places),
              if |xs| > LowerIndex then RoundTo(xs[LowerIndex], places) else 0.0,
              if |xs| > UpperIndex then RoundTo(xs[UpperIndex], places) else 0.0)
  {
    var parts := seq(|xs|, i requires 0 <= i < |xs| => ShowFixed(xs[i], places));
    forall i | 0 <= i < |parts| ensures '|' !in parts[i] {
      ShowFixedAlphabet(xs[i], places, '|');
    }
    SplitJoin(parts, '|');
    forall i | 0 <= i < |xs| ensures ParseDecimal(parts[i]) == Some(RoundTo(xs[i], places)) {
      ShowFixedRoundTrip(xs[i], places);
    }
  }

  /** The standardisation fill decodes to the empty band. */
  lemma DecodeFill()
    ensures DecodeText(ForecastFill) == NoBand
  {
    var zeros := seq(10, i => "0");
    FillJoins(zeros);
    forall i | 0 <= i < |zeros| ensures '|' !in zeros[i] {
      assert zeros[i] == "0";
    }
    SplitJoin(zeros, '|');
    ZeroParses();
    assert zeros[PointIndex] == zeros[LowerIndex] == zeros[UpperIndex] == "0";
  }

  lemma ZeroParses()
    ensures ParseDecimal("0") == Some(0.0)
  {
    ParseDecimalShowNat(0);
    assert ShowNat(0) == "0";
  }

  /** The fill is ten zeros joined with `|`. */
  lemma FillJoins(zeros: seq<string>)
    requires zeros == seq(10, i => "0")
    ensures Join(zeros, '|') == ForecastFill
  {
    assert Join(zeros[9..], '|') == "0";
    assert Join(zeros[8..], '|') == "0|0";
    assert Join(zeros[7..], '|') == "0|0|0";
    assert Join(zeros[6..], '|') == "0|0|0|0";
    assert Join(zeros[5..], '|') == "0|0|0|0|0";
    assert Join(zeros[4..], '|') == "0|0|0|0|0|0";
    assert Join(zeros[3..], '|') == "0|0|0|0|0|0|0";
    assert Join(zeros[2..], '|') == "0|0|0|0|0|0|0|0";
    assert Join(zeros[1..], '|') == "0|0|0|0|0|0|0|0|0";
  }

  /** Any field among point, q10 and q90 that is present and not a number
      zeroes the whole band. */
  lemma DecodeInvalid(s: string, i: nat)
    requires i == PointIndex || i == LowerIndex || i == UpperIndex
    requires i < |Split(s, '|')| && ParseDecimal(Split(s, '|')[i]).None?
    ensures DecodeText(s) == NoBand
  {
  }

  /** Fewer than ten fields: q90 reads as zero. */
  lemma DecodeShort(s: string)
    requires |Split(s, '|')| <= UpperIndex
    ensures DecodeText(s).upper == 0.0
  {
  }

  // ------------------------------------------------------------ classification

  datatype Status = NoForecast | InRange | BelowP10 | AboveP90

  /** The label written into the `status` column. */
  function StatusName(s: Status): (n: string)
  {
    match s
    case NoForecast => "NO_FORECAST"
    case InRange => "IN_RANGE"
    case BelowP10 => "BELOW_P10"
    case AboveP90 => "ABOVE_P90"
  }

  lemma StatusNamesDistinct(s: Status, t: Status)
    ensures StatusName(s) == StatusName(t) <==> s == t
  {
  }

  datatype Verdict = Verdict(status: Status, deviation: real)

  /** The status of `actual` against the band, and its deviation in percent
      from the bound it crossed. */
  function Classify(b: Band, actual: real): (v: Verdict)
    ensures v.status == NoForecast <==> b == NoBand
    ensures v.status == InRange <==> b != NoBand && b.lower <= actual <= b.upper
    ensures v.status == BelowP10 <==> b != NoBand && actual < b.lower
    ensures v.status == AboveP90 <==> b != NoBand && b.lower <= actual && b.upper < actual
    ensures v.status == NoForecast || v.status == InRange ==> v.deviation == 0.0
  {
    if b.lower == 0.0 && b.upper == 0.0 && b.point == 0.0 then Verdict(NoForecast, 0.0)
    else if b.lower <= actual <= b.upper then Verdict(InRange, 0.0)
    else if actual < b.lower then
      Verdict(BelowP10,
        if b.lower != 0.0 then (b.lower - actual) / b.lower * 100.0
        else if actual != 0.0 then Abs(actual) * 100.0
        else 0.0)
    else if actual > b.upper then
      Verdict(AboveP90,
        if b.upper != 0.0 then (actual - b.upper) / b.upper * 100.0
        else if actual != 0.0 then Abs(actual) * 100.0
        else 0.0)
    else Verdict(NoForecast, 0.0)
  }

  function Abs(x: real): real { if x < 0.0 then -x else x }

  /** The deviation of an anomaly determines the actual value: it is the
      relative distance beyond the crossed bound, or the distance from zero
      when that bound is zero. */
  lemma DeviationRecoversActual(b: Band, actual: real)
    ensures var v := Classify(b, actual);
      (v.status == BelowP10 && b.lower != 0.0 ==> actual == b.lower - b.lower * v.deviation / 100.0) &&
      (v.status == BelowP10 && b.lower == 0.0 ==> actual == -v.deviation / 100.0) &&
      (v.status == AboveP90 && b.upper != 0.0 ==> actual == b.upper + b.upper * v.deviation / 100.0) &&
      (v.status == AboveP90 && b.upper == 0.0 ==> actual == v.deviation / 100.0)
  {
    var v := Classify(b, actual);
    if v.status == BelowP10 && b.lower != 0.0 {
      Unscale(b.lower - actual, b.lower);
    } else if v.status == AboveP90 && b.upper != 0.0 {
      Unscale(actual - b.upper, b.upper);
    }
  }

  lemma Unscale(d: real, q: real)
    requires q != 0.0
    ensures q * (d / q * 100.0) / 100.0 == d
  {
  }

  /** An anomaly never has a zero deviation: its sign is the sign of the
      crossed bound, a zero bound counting as positive. */
  lemma DeviationSign(b: Band, actual: real)
    ensures var v := Classify(b, actual);
      (v.status == BelowP10 ==> (v.deviation > 0.0 <==> b.lower >= 0.0) && v.deviation != 0.0) &&
      (v.status == AboveP90 ==> (v.deviation > 0.0 <==> b.upper >= 0.0) && v.deviation != 0.0)
  {
    var v := Classify(b, actual);
    if v.status == BelowP10 && b.lower != 0.0 {
      QuotientSign(b.lower - actual, b.lower);
    } else if v.status == AboveP90 && b.upper != 0.0 {
      QuotientSign(actual - b.upper, b.upper);
    }
  }

  lemma QuotientSign(d: real, q: real)
    requires d > 0.0 && q != 0.0
    ensures (d / q * 100.0 > 0.0 <==> q > 0.0) && d / q * 100.0 != 0.0
  {
  }

  // ---------------------------------------------------------------- one result

  /** The keys of one comparison record, `date` first when there is one. */
  const ResultKeys: seq<string> := ["metric", "actual", "forecast", "q10", "q90", "status", "deviation_pct"]

  /** The record holds these values under the keys of `ResultKeys`. */
  predicate RecordOf(r: map<string, Cell>, column: string, actual: real, point: real, lower: real, upper: real,
                     status: string, deviation: real)
  {
    "metric" in r && "actual" in r && "forecast" in r && "q10" in r && "q90" in r &&
    "status" in r && "deviation_pct" in r &&
    r["metric"] == Str(column) && r["actual"] == Num(actual) && r["forecast"] == Num(point) &&
    r["q10"] == Num(lower) && r["q90"] == Num(upper) && r["status"] == Str(status) &&
    r["deviation_pct"] == Num(deviation)
  }

  /** One comparison record: the metric, the rounded values, the status and the
      deviation rounded to two decimals, preceded by the date when known. */
  function CompareMetric(column: string, forecast: Cell, actual: Cell, date: Option<Cell>): (r: map<string, Cell>)
    ensures var b, a := DecodeForecast(forecast), CoerceActual(actual); var v := Classify(b, a);
      RecordOf(r, column, RoundHalfEven(a) as real, RoundHalfEven(b.point) as real, RoundHalfEven(b.lower) as real,
        RoundHalfEven(b.upper) as real, StatusName(v.status), RoundTo(v.deviation, 2))
    ensures forall k :: k in r <==> k in ResultKeys || (date.Some? && k == "date")
    ensures date.Some? ==> "date" in r && r["date"] == date.value
  {
    var b := DecodeForecast(forecast);
    var a := CoerceActual(actual);
    var v := Classify(b, a);
    Record(column, RoundHalfEven(a) as real, RoundHalfEven(b.point) as real, RoundHalfEven(b.lower) as real,
      RoundHalfEven(b.upper) as real, StatusName(v.status), RoundTo(v.deviation, 2), date)
  }

  /** The record of already rounded values. */
  function Record(column: string, actual: real, point: real, lower: real, upper: real, status: string,
    deviation: real, date: Option<Cell>): (r: map<string, Cell>)
    ensures RecordOf(r, column, actual, point, lower, upper, status, deviation)
    ensures forall k :: k in r <==> k in ResultKeys || (date.Some? && k == "date")
    ensures date.Some? ==> "date" in r && r["date"] == date.value
  {
    var m := map[
      "metric" := Str(column),
      "actual" := Num(actual),
      "forecast" := Num(point),
      "q10" := Num(lower),
      "q90" := Num(upper),
      "status" := Str(status),
      "deviation_pct" := Num(deviation)];
    if date.Some? then m["date" := date.value] else m
  }

  /** The record's status and deviation are those of the decoded band and the
      coerced actual value, the deviation within half a hundredth. */
  lemma CompareMetricVerdict(column: string, forecast: Cell, actual: Cell, date: Option<Cell>)
    ensures var v := Classify(DecodeForecast(forecast), CoerceActual(actual));
      var r := CompareMetric(column, forecast, actual, date);
      r["status"] == Str(StatusName(v.status)) &&
      -0.005 <= r["deviation_pct"].x - v.deviation <= 0.005
  {
    var v := Classify(DecodeForecast(forecast), CoerceActual(actual));
    assert CompareMetric(column, forecast, actual, date)["deviation_pct"] == Num(RoundTo(v.deviation, 2));
    HundredthsNearest(v.deviation);
  }

  /** The record's actual, forecast, q10 and q90 are whole numbers, each
      within one half of the coerced actual value and of the decoded point,
      q10 and q90. */
  lemma CompareMetricValues(column: string, forecast: Cell, actual: Cell, date: Option<Cell>)
    ensures var b, a := DecodeForecast(forecast), CoerceActual(actual);
      var r := CompareMetric(column, forecast, actual, date);
      r["actual"].Num? && r["forecast"].Num? && r["q10"].Num? && r["q90"].Num? &&
      r["actual"].x.Floor as real == r["actual"].x && -0.5 <= r["actual"].x - a <= 0.5 &&
      r["forecast"].x.Floor as real == r["forecast"].x && -0.5 <= r["forecast"].x - b.point <= 0.5 &&
      r["q10"].x.Floor as real == r["q10"].x && -0.5 <= r["q10"].x - b.lower <= 0.5 &&
      r["q90"].x.Floor as real == r["q90"].x && -0.5 <= r["q90"].x - b.upper <= 0.5
  {
    var b, a := DecodeForecast(forecast), CoerceActual(actual);
    var v := Classify(b, a);
    RecordWhole(CompareMetric(column, forecast, actual, date), column, a, b, StatusName(v.status), RoundTo(v.deviation, 2));
  }

  lemma RecordWhole(r: map<string, Cell>, column: string, a: real, b: Band, status: string, deviation: real)
    requires RecordOf(r, column, RoundHalfEven(a) as real, RoundHalfEven(b.point) as real,
                      RoundHalfEven(b.lower) as real, RoundHalfEven(b.upper) as real, status, deviation)
    ensures r["actual"].Num? && r["forecast"].Num? && r["q10"].Num? && r["q90"].Num?
    ensures r["actual"].x.Floor as real == r["actual"].x && -0.5 <= r["actual"].x - a <= 0.5
    ensures r["forecast"].x.Floor as real == r["forecast"].x && -0.5 <= r["forecast"].x - b.point <= 0.5
    ensures r["q10"].x.Floor as real == r["q10"].x && -0.5 <= r["q10"].x - b.lower <= 0.5
    ensures r["q90"].x.Floor as real == r["q90"].x && -0.5 <= r["q90"].x - b.upper <= 0.5
  {
    WholeNear(a);
    WholeNear(b.point);
    WholeNear(b.lower);
    WholeNear(b.upper);
  }

  /** `round(x)` is a whole number within one half of `x`. */
  lemma WholeNear(x: real)
    ensures var n := RoundHalfEven(x) as real; n.Floor as real == n && -0.5 <= n - x <= 0.5
  {
    RoundHalfEvenNearest(x);
  }

  /** Rounding to two decimals moves a value by at most half a hundredth. */
  lemma HundredthsNearest(x: real)
    ensures -0.005 <= RoundTo(x, 2) - x <= 0.005
  {
    RoundToNearest(x, 2);
    assert Scale(2) == 100.0 by { assert Pow10(2) == 100; }
  }

  // ------------------------------------------------------------ worked examples

  /** The band the quantile text `1000|900|920|950|975|1000|1025|1050|1080|1100`
      decodes to (see `DecodeQuantiles`). */
  const SampleBand := Band(1000.0, 900.0, 1100.0)

  /** Quantiles written as whole numbers and joined with `|` decode to the
      first as the point forecast, the second as q10 and the last as q90. */
  lemma DecodeQuantiles(q: seq<nat>, fields: seq<string>)
    requires |q| == |fields| == UpperIndex + 1
    requires forall i :: 0 <= i < |q| ==> fields[i] == ShowNat(q[i])
    ensures DecodeText(Join(fields, '|')) == Band(q[PointIndex] as real, q[LowerIndex] as real, q[UpperIndex] as real)
  {
    forall i | 0 <= i < |fields| ensures '|' !in fields[i] {
      DigitsHaveNoSeparator(fields[i], '|');
    }
    SplitJoin(fields, '|');
    ParseDecimalShowNat(q[PointIndex]);
    ParseDecimalShowNat(q[LowerIndex]);
    ParseDecimalShowNat(q[UpperIndex]);
  }

  /** An actual value inside the band is in range with no deviation. */
  lemma SampleInRange()
    ensures Classify(SampleBand, 950.0) == Verdict(InRange, 0.0)
  {
  }

  /** 600 against a q10 of 900 lies a third below the band: 33.33 percent. */
  lemma SampleBelow()
    ensures var v := Classify(SampleBand, 600.0);
      v.status == BelowP10 && RoundTo(v.deviation, 2) == 33.33
  {
    var v := Classify(SampleBand, 600.0);
    assert v.deviation == 100.0 / 3.0;
    assert Scale(2) == 100.0 by { assert Pow10(2) == 100; }
    assert RoundHalfEven(100.0 / 3.0 * 100.0) == 3333;
  }

  /** 1150 against a q90 of 1100 lies 4.55 percent above the band. */
  lemma SampleAbove()
    ensures var v := Classify(SampleBand, 1150.0);
      v.status == AboveP90 && RoundTo(v.deviation, 2) == 4.55
  {
    var v := Classify(SampleBand, 1150.0);
    assert v.deviation == 50.0 / 11.0;
    assert Scale(2) == 100.0 by { assert Pow10(2) == 100; }
    assert RoundHalfEven(50.0 / 11.0 * 100.0) == 455;
  }
}
