/**
  The anomaly-detection workflow: load the forecast, load the actuals, run
  the pre-filters, detect, run the post-filters, and (for `run`) write.

  The readers, the detector, the filters and the writer are given as values
  and functions; the workflow records every call it makes to them in its
  log, so the order of the calls and the ones it does not make can be stated.
*/
module Workflow {
  import opened Tables
  import Comparator

  /** A call the workflow makes. */
  datatype Event = LoadForecast | LoadActual | PreFilter(k: nat) | Detect | PostFilter(k: nat) | Write(result: Table)

  /** What a reader's `load()` gives: a table, `None`, or an exception. */
  type Source = Result<Option<Table>>
  type PreFilterStep = (Table, Table) -> Result<(Table, Table)>
  type DetectorStep = (Table, Table) -> Result<Option<Table>>
  type PostFilterStep = Table -> Result<Table>
  /** A writer's `write(df)`: nothing, or the exception it raises. */
  type WriterStep = Table -> Option<Error>

  const EmptyForecast := "Forecast reader returned empty dataset. Cannot proceed with anomaly detection."
  const EmptyActual := "Actual reader returned empty dataset. Cannot proceed with anomaly detection."
  const EmptyResults := "Anomaly detector returned empty results. Check your data and configuration."

  /** `df is None or df.empty`. */
  predicate Missing(t: Option<Table>)
  {
    t.None? || IsEmpty(t.value)
  }

  /** The calls of pre-filters `0, ..., n-1`, in order. */
  function PreCalls(n: nat): (r: seq<Event>)
    ensures |r| == n && forall k :: 0 <= k < n ==> r[k] == PreFilter(k)
  {
    if n == 0 then [] else PreCalls(n - 1) + [PreFilter(n - 1)]
  }

  /** The calls of post-filters `0, ..., n-1`, in order. */
  function PostCalls(n: nat): (r: seq<Event>)
    ensures |r| == n && forall k :: 0 <= k < n ==> r[k] == PostFilter(k)
  {
    if n == 0 then [] else PostCalls(n - 1) + [PostFilter(n - 1)]
  }

  /** The pre-filters `0, ..., n-1` in order, each on the pair the one before
      it returned, and the calls made; the first exception ends the loop. */
  function PreFiltering(pre: seq<PreFilterStep>, f: Table, a: Table, n: nat): (r: (Result<(Table, Table)>, seq<Event>))
    requires n <= |pre|
    ensures r.0.Ok? ==> r.1 == PreCalls(n)
    ensures 1 <= |r.1| <= n || (n == 0 && r.1 == [])
    ensures forall e :: e in r.1 ==> e.PreFilter? && e.k < n
  {
    if n == 0 then (Ok((f, a)), [])
    else
      var prev := PreFiltering(pre, f, a, n - 1);
      if prev.0.Err? then prev
      else (pre[n - 1](prev.0.value.0, prev.0.value.1), prev.1 + [PreFilter(n - 1)])
  }

  /** The post-filters `0, ..., n-1` in order, each on the table the one
      before it returned, and the calls made. */
  function PostFiltering(post: seq<PostFilterStep>, t: Table, n: nat): (r: (Result<Table>, seq<Event>))
    requires n <= |post|
    ensures r.0.Ok? ==> r.1 == PostCalls(n)
    ensures forall e :: e in r.1 ==> e.PostFilter? && e.k < n
  {
    if n == 0 then (Ok(t), [])
    else
      var prev := PostFiltering(post, t, n - 1);
      if prev.0.Err? then prev
      else (post[n - 1](prev.0.value), prev.1 + [PostFilter(n - 1)])
  }

  /** `_execute_detection()`: its result and the calls it makes. */
  function Execution(forecast: Source, actual: Source, pre: seq<PreFilterStep>, detector: DetectorStep,
                     post: seq<PostFilterStep>): (r: (Result<Table>, seq<Event>))
    ensures |r.1| >= 1 && r.1[0] == LoadForecast
    ensures forall e :: e in r.1 ==> !e.Write?
    ensures (forecast.Err? || Missing(forecast.value)) ==> r.1 == [LoadForecast]
    ensures forecast.Ok? && Missing(forecast.value) ==> r.0 == Err(ValueError(EmptyForecast))
    ensures forecast.Ok? && !Missing(forecast.value) && actual.Ok? && Missing(actual.value) ==>
      r == (Err(ValueError(EmptyActual)), [LoadForecast, LoadActual])
    ensures Detect in r.1 ==> forecast.Ok? && !Missing(forecast.value) && actual.Ok? && !Missing(actual.value)
  {
    match forecast
    case Err(e) => (Err(e), [LoadForecast])
    case Ok(f) =>
      if Missing(f) then (Err(ValueError(EmptyForecast)), [LoadForecast])
      else
        match actual
        case Err(e) => (Err(e), [LoadForecast, LoadActual])
        case Ok(a) =>
          if Missing(a) then (Err(ValueError(EmptyActual)), [LoadForecast, LoadActual])
          else
            var rest := Loaded(f.value, a.value, pre, detector, post);
            (rest.0, [LoadForecast, LoadActual] + rest.1)
  }

  /** What follows both loads: the pre-filters, then detection. */
  function Loaded(f: Table, a: Table, pre: seq<PreFilterStep>, detector: DetectorStep,
                  post: seq<PostFilterStep>): (r: (Result<Table>, seq<Event>))
    ensures forall e :: e in r.1 ==> !e.Write? && !e.LoadForecast? && !e.LoadActual?
  {
    var filtered := PreFiltering(pre, f, a, |pre|);
    match filtered.0
    case Err(e) => (Err(e), filtered.1)
    case Ok(pair) =>
      var rest := Detected(pair.0, pair.1, detector, post);
      (rest.0, filtered.1 + rest.1)
  }

  /** What follows the pre-filters: the detector, the emptiness check on its
      result, then the post-filters. */
  function Detected(f: Table, a: Table, detector: DetectorStep, post: seq<PostFilterStep>): (r: (Result<Table>, seq<Event>))
    ensures |r.1| >= 1 && r.1[0] == Detect
    ensures forall e :: e in r.1 ==> e.Detect? || e.PostFilter?
    ensures r.0.Ok? ==> detector(f, a).Ok? && !Missing(detector(f, a).value)
  {
    match detector(f, a)
    case Err(e) => (Err(e), [Detect])
    case Ok(d) =>
      if Missing(d) then (Err(ValueError(EmptyResults)), [Detect])
      else
        var processed := PostFiltering(post, d.value, |post|);
        (processed.0, [Detect] + processed.1)
  }

  /** On success the calls are: both loads, every pre-filter in order, the
      detector once, every post-filter in order; the detected table `d` was
      not empty, and without post-filters it is the result. */
  lemma {:induction false} ExecutionSucceeds(forecast: Source, actual: Source, pre: seq<PreFilterStep>, detector: DetectorStep,
                          post: seq<PostFilterStep>) returns (f: Table, a: Table, pair: (Table, Table), d: Table)
    requires Execution(forecast, actual, pre, detector, post).0.Ok?
    ensures forecast == Ok(Some(f)) && !IsEmpty(f) && actual == Ok(Some(a)) && !IsEmpty(a)
    ensures PreFiltering(pre, f, a, |pre|).0 == Ok(pair)
    ensures detector(pair.0, pair.1) == Ok(Some(d)) && !IsEmpty(d)
    ensures Execution(forecast, actual, pre, detector, post) ==
      (PostFiltering(post, d, |post|).0, [LoadForecast, LoadActual] + PreCalls(|pre|) + [Detect] + PostCalls(|post|))
    ensures post == [] ==> Execution(forecast, actual, pre, detector, post).0 == Ok(d)
  {
    f, a := forecast.value.value, actual.value.value;
    pair := LoadedSucceeds(f, a, pre, detector, post);
    d := DetectedSucceeds(pair.0, pair.1, detector, post);
    var pres, posts := PreCalls(|pre|), PostCalls(|post|);
    assert [LoadForecast, LoadActual] + (pres + ([Detect] + posts)) == [LoadForecast, LoadActual] + pres + [Detect] + posts;
  }

  lemma {:induction false} LoadedSucceeds(f: Table, a: Table, pre: seq<PreFilterStep>, detector: DetectorStep, post: seq<PostFilterStep>)
    returns (pair: (Table, Table))
    requires Loaded(f, a, pre, detector, post).0.Ok?
    ensures PreFiltering(pre, f, a, |pre|).0 == Ok(pair)
    ensures Loaded(f, a, pre, detector, post) ==
      (Detected(pair.0, pair.1, detector, post).0, PreCalls(|pre|) + Detected(pair.0, pair.1, detector, post).1)
  {
    pair := PreFiltering(pre, f, a, |pre|).0.value;
  }

  lemma {:induction false} DetectedSucceeds(f: Table, a: Table, detector: DetectorStep, post: seq<PostFilterStep>) returns (d: Table)
    requires Detected(f, a, detector, post).0.Ok?
    ensures detector(f, a) == Ok(Some(d)) && !IsEmpty(d)
    ensures Detected(f, a, detector, post) == (PostFiltering(post, d, |post|).0, [Detect] + PostCalls(|post|))
  {
    d := detector(f, a).value.value;
  }

  lemma {:induction false} WithoutPreFilters(f: Table, a: Table, detector: DetectorStep, post: seq<PostFilterStep>)
    ensures Loaded(f, a, [], detector, post) == Detected(f, a, detector, post)
  {
    var filtered := PreFiltering([], f, a, 0);
    assert filtered == (Ok((f, a)), []);
    assert filtered.1 + Detected(f, a, detector, post).1 == Detected(f, a, detector, post).1;
  }

  /** A post-filter that keeps no row. */
  function DropAll(t: Table): Result<Table>
  {
    Ok(Table(t.columns, []))
  }

  /** The emptiness check comes before the post-filters and is not repeated:
      post-filters that keep no row make the detection return an empty table. */
  lemma {:induction false} EmptyAfterPostFilters(forecast: Source, actual: Source, pre: seq<PreFilterStep>, detector: DetectorStep)
    requires Execution(forecast, actual, pre, detector, []).0.Ok?
    ensures var d := Execution(forecast, actual, pre, detector, []).0.value;
      Execution(forecast, actual, pre, detector, [DropAll]).0 == Ok(Table(d.columns, [])) &&
      IsEmpty(Table(d.columns, []))
  {
    var f, a, pair, d := ExecutionSucceeds(forecast, actual, pre, detector, []);
    assert PostFiltering([DropAll], d, 1).0 == Ok(Table(d.columns, []));
    assert Detected(pair.0, pair.1, detector, [DropAll]).0 == Ok(Table(d.columns, []));
    assert Loaded(f, a, pre, detector, [DropAll]).0 == Ok(Table(d.columns, []));
  }

  class AnomalyDetectionWorkflow {
    const forecastReader: Source
    const actualReader: Source
    const detector: DetectorStep
    const writer: WriterStep
    const preFilters: seq<PreFilterStep>
    const postFilters: seq<PostFilterStep>
    /** Every call made so far, in order. */
    var log: seq<Event>

    /** `AnomalyDetectionWorkflow(...)`: missing filter lists are empty lists. */
    constructor(forecastReader: Source, actualReader: Source, detector: DetectorStep, writer: WriterStep,
                preFilters: Option<seq<PreFilterStep>>, postFilters: Option<seq<PostFilterStep>>)
      ensures this.forecastReader == forecastReader && this.actualReader == actualReader
      ensures this.detector == detector && this.writer == writer
      ensures this.preFilters == (if preFilters.None? then [] else preFilters.value)
      ensures this.postFilters == (if postFilters.None? then [] else postFilters.value)
      ensures log == []
    {
      this.forecastReader := forecastReader;
      this.actualReader := actualReader;
      this.detector := detector;
      this.writer := writer;
      this.preFilters := if preFilters.None? then [] else preFilters.value;
      this.postFilters := if postFilters.None? then [] else postFilters.value;
      log := [];
    }

    /** The outcome of one detection with this workflow's parts. */
    function Outcome(): (Result<Table>, seq<Event>)
    {
      Execution(forecastReader, actualReader, preFilters, detector, postFilters)
    }

    /** `_execute_detection()`. */
    method ExecuteDetection() returns (r: Result<Table>)
      modifies this
      ensures r == Outcome().0
      ensures log == old(log) + Outcome().1
    {
      log := log + [LoadForecast];
      if forecastReader.Err? {
        return Err(forecastReader.error);
      }
      var f := forecastReader.value;
      if Missing(f) {
        return Err(ValueError(EmptyForecast));
      }
      log := log + [LoadActual];
      if actualReader.Err? {
        return Err(actualReader.error);
      }
      var a := actualReader.value;
      if Missing(a) {
        return Err(ValueError(EmptyActual));
      }
      r := RunLoaded(f.value, a.value);
    }

    /** `_execute_detection()` once both tables are loaded. */
    method RunLoaded(f: Table, a: Table) returns (r: Result<Table>)
      modifies this
      ensures r == Loaded(f, a, preFilters, detector, postFilters).0
      ensures log == old(log) + Loaded(f, a, preFilters, detector, postFilters).1
    {
      var filtered := RunPreFilters(f, a);
      if filtered.Err? {
        return Err(filtered.error);
      }
      r := RunDetector(filtered.value.0, filtered.value.1);
      assert log == old(log) + (PreFiltering(preFilters, f, a, |preFilters|).1 + Detected(filtered.value.0, filtered.value.1, detector, postFilters).1);
    }

    /** `_execute_detection()` from the detector on. */
    method RunDetector(f: Table, a: Table) returns (r: Result<Table>)
      modifies this
      ensures r == Detected(f, a, detector, postFilters).0
      ensures log == old(log) + Detected(f, a, detector, postFilters).1
    {
      log := log + [Detect];
      var detected := detector(f, a);
      if detected.Err? {
        return Err(detected.error);
      }
      if Missing(detected.value) {
        return Err(ValueError(EmptyResults));
      }
      r := RunPostFilters(detected.value.value);
      assert log == old(log) + ([Detect] + PostFiltering(postFilters, detected.value.value, |postFilters|).1);
    }

    /** The pre-filter loop of `_execute_detection()`. */
    method RunPreFilters(f: Table, a: Table) returns (r: Result<(Table, Table)>)
      modifies this
      ensures r == PreFiltering(preFilters, f, a, |preFilters|).0
      ensures log == old(log) + PreFiltering(preFilters, f, a, |preFilters|).1
    {
      var forecastTable, actualTable := f, a;
      var calls := [];
      var i := 0;
      while i < |preFilters|
        invariant 0 <= i <= |preFilters|
        invariant PreFiltering(preFilters, f, a, i) == (Ok((forecastTable, actualTable)), calls)
      {
        var next := preFilters[i](forecastTable, actualTable);
        calls := calls + [PreFilter(i)];
        if next.Err? {
          PreFilteringStops(preFilters, f, a, i + 1, |preFilters|);
          log := log + calls;
          return Err(next.error);
        }
        forecastTable, actualTable := next.value.0, next.value.1;
        i := i + 1;
      }
      log := log + calls;
      return Ok((forecastTable, actualTable));
    }

    /** The post-filter loop of `_execute_detection()`. */
    method RunPostFilters(t: Table) returns (r: Result<Table>)
      modifies this
      ensures r == PostFiltering(postFilters, t, |postFilters|).0
      ensures log == old(log) + PostFiltering(postFilters, t, |postFilters|).1
    {
      var result := t;
      var calls := [];
      var j := 0;
      while j < |postFilters|
        invariant 0 <= j <= |postFilters|
        invariant PostFiltering(postFilters, t, j) == (Ok(result), calls)
      {
        var next := postFilters[j](result);
        calls := calls + [PostFilter(j)];
        if next.Err? {
          PostFilteringStops(postFilters, t, j + 1, |postFilters|);
          log := log + calls;
          return Err(next.error);
        }
        result := next.value;
        j := j + 1;
      }
      log := log + calls;
      return Ok(result);
    }

    /** `run()`: detect, then write the result once; a failed detection
      writes nothing, and a failing write raises its exception. */
    method Run() returns (r: Result<Table>)
      modifies this
      ensures Outcome().0.Err? ==> r == Outcome().0 && log == old(log) + Outcome().1
      ensures Outcome().0.Ok? ==>
        log == old(log) + Outcome().1 + [Write(Outcome().0.value)] &&
        r == (if writer(Outcome().0.value).Some? then Err(writer(Outcome().0.value).value) else Outcome().0)
    {
      r := ExecuteDetection();
      if r.Ok? {
        log := log + [Write(r.value)];
        var failure := writer(r.value);
        if failure.Some? {
          r := Err(failure.value);
        }
      }
    }

    /** `run_without_output()`: detect and never write. */
    method RunWithoutOutput() returns (r: Result<Table>)
      modifies this
      ensures r == Outcome().0
      ensures log == old(log) + Outcome().1
      ensures forall e :: e in log[|old(log)|..] ==> !e.Write?
    {
      r := ExecuteDetection();
    }
  }

  lemma {:induction false} PreFilteringStops(pre: seq<PreFilterStep>, f: Table, a: Table, n: nat, m: nat)
    requires n <= m <= |pre|
    requires PreFiltering(pre, f, a, n).0.Err?
    ensures PreFiltering(pre, f, a, m) == PreFiltering(pre, f, a, n)
    decreases m - n
  {
    if n < m {
      PreFilteringStops(pre, f, a, n + 1, m);
    }
  }

  lemma {:induction false} PostFilteringStops(post: seq<PostFilterStep>, t: Table, n: nat, m: nat)
    requires n <= m <= |post|
    requires PostFiltering(post, t, n).0.Err?
    ensures PostFiltering(post, t, m) == PostFiltering(post, t, n)
    decreases m - n
  {
    if n < m {
      PostFilteringStops(post, t, n + 1, m);
    }
  }

  /** The comparator as the workflow's detector. */
  function ComparatorDetector(c: Comparator.Comparator): DetectorStep
  {
    (f, a) => match Comparator.Detection(c, f, a) case Ok(t) => Ok(Some(t)) case Err(e) => Err(e)
  }

  /** A comparator that finds nothing to compare returns the empty frame, and
      the workflow stops there with its `ValueError`, before any post-filter. */
  lemma {:induction false} NoComparisonsStopWorkflow(post: seq<PostFilterStep>)
    ensures Execution(Ok(Some(Comparator.DateOnly)), Ok(Some(Comparator.DateOnly)), [],
                      ComparatorDetector(Comparator.Plainly), post)
      == (Err(ValueError(EmptyResults)), [LoadForecast, LoadActual, Detect])
  {
    Comparator.LegacyFilterOnNoComparisons();
    var d := ComparatorDetector(Comparator.Plainly);
    var t := Comparator.DateOnly;
    assert d(t, t) == Ok(Some(EmptyTable));
    assert !Missing(Some(t)) && Missing(Some(EmptyTable));
    assert Detected(t, t, d, post) == (Err(ValueError(EmptyResults)), [Detect]);
    WithoutPreFilters(t, t, d, post);
    assert [LoadForecast, LoadActual] + [Detect] == [LoadForecast, LoadActual, Detect];
  }
}
