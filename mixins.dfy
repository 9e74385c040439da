/**
  The transformer mixin: the transformers registered for a stage ("before",
  "after") run one after another on a table, each through its `filter`, its
  `format`, or its call, whichever it has first.
*/
module Transformers {
  import opened Tables

  /** A table operation; it may raise. */
  type TableStep = Table -> Result<Table>

  /** What a transformer offers: a `filter` method, a `format` method, a call. */
  datatype Transformer = Transformer(filter: Option<TableStep>, format: Option<TableStep>, call: Option<TableStep>)

  /** One transformer on a table: `filter` if it has one, else `format`, else
      the call, else the `TypeError` of an unusable transformer. */
  function Step(tr: Transformer, t: Table): (r: Result<Table>)
    ensures tr.filter.None? && tr.format.None? && tr.call.None? ==> r.Err? && r.error.TypeError?
    ensures tr.filter.Some? ==> r == tr.filter.value(t)
    ensures tr.filter.None? && tr.format.Some? ==> r == tr.format.value(t)
    ensures tr.filter.None? && tr.format.None? && tr.call.Some? ==> r == tr.call.value(t)
  {
    if tr.filter.Some? then tr.filter.value(t)
    else if tr.format.Some? then tr.format.value(t)
    else if tr.call.Some? then tr.call.value(t)
    else Err(TypeError("Transformer must have .filter(), .format() method or be callable."))
  }

  /** The table after the first `n` transformers of the list, or the first error. */
  function StepsUpTo(list: seq<Transformer>, t: Table, n: nat): Result<Table>
    requires n <= |list|
  {
    if n == 0 then Ok(t)
    else
      match StepsUpTo(list, t, n - 1)
      case Err(e) => Err(e)
      case Ok(prev) => Step(list[n - 1], prev)
  }

  /** `_apply_transformers(df, stage)`: without a transformers attribute
      (`None`) or without the stage, the table is returned as it is. */
  function Applied(transformers: Option<map<string, seq<Transformer>>>, t: Table, stage: string): (r: Result<Table>)
    ensures transformers.None? || stage !in transformers.value ==> r == Ok(t)
    ensures transformers.Some? && stage in transformers.value && transformers.value[stage] == [] ==> r == Ok(t)
  {
    if transformers.None? || stage !in transformers.value then Ok(t)
    else StepsUpTo(transformers.value[stage], t, |transformers.value[stage]|)
  }

  method ApplyTransformers(transformers: Option<map<string, seq<Transformer>>>, t: Table, stage: string)
    returns (r: Result<Table>)
    ensures r == Applied(transformers, t, stage)
  {
    if transformers.None? || stage !in transformers.value {
      return Ok(t);
    }
    var list := transformers.value[stage];
    var result := t;
    var n := 0;
    while n < |list|
      invariant 0 <= n <= |list|
      invariant StepsUpTo(list, t, n) == Ok(result)
    {
      var next := Step(list[n], result);
      if next.Err? {
        StepsStop(list, t, n + 1, |list|);
        return next;
      }
      result := next.value;
      n := n + 1;
    }
    return Ok(result);
  }

  /** The first error is the result. */
  lemma {:induction false} StepsStop(list: seq<Transformer>, t: Table, n: nat, m: nat)
    requires n <= m <= |list|
    requires StepsUpTo(list, t, n).Err?
    ensures StepsUpTo(list, t, m) == StepsUpTo(list, t, n)
    decreases m - n
  {
    if n < m {
      StepsStop(list, t, n + 1, m);
    }
  }

  /** Running the whole list. */
  function Steps(list: seq<Transformer>, t: Table): Result<Table>
  {
    StepsUpTo(list, t, |list|)
  }

  lemma {:induction false} StepsPrefix(xs: seq<Transformer>, ys: seq<Transformer>, t: Table, n: nat)
    requires n <= |xs|
    ensures StepsUpTo(xs + ys, t, n) == StepsUpTo(xs, t, n)
  {
    if n > 0 {
      StepsPrefix(xs, ys, t, n - 1);
      assert (xs + ys)[n - 1] == xs[n - 1];
    }
  }

  lemma {:induction false} StepsSuffix(xs: seq<Transformer>, ys: seq<Transformer>, t: Table, k: nat)
    requires k <= |ys|
    requires Steps(xs, t).Ok?
    ensures StepsUpTo(xs + ys, t, |xs| + k) == StepsUpTo(ys, Steps(xs, t).value, k)
  {
    if k == 0 {
      StepsPrefix(xs, ys, t, |xs|);
    } else {
      StepsSuffix(xs, ys, t, k - 1);
      assert (xs + ys)[|xs| + k - 1] == ys[k - 1];
    }
  }

  /** Two lists registered one after the other act as the first, then the
      second on its result; an error in the first is the result. */
  lemma StepsAppend(xs: seq<Transformer>, ys: seq<Transformer>, t: Table)
    ensures Steps(xs + ys, t) == match Steps(xs, t) case Err(e) => Err(e) case Ok(u) => Steps(ys, u)
  {
    if Steps(xs, t).Ok? {
      StepsSuffix(xs, ys, t, |ys|);
    } else {
      StepsPrefix(xs, ys, t, |xs|);
      StepsStop(xs + ys, t, |xs|, |xs + ys|);
    }
  }

  /** A transformer with neither method nor call, reached without an earlier
      error, makes the whole stage raise `TypeError`. */
  lemma UnusableFails(list: seq<Transformer>, t: Table, k: nat)
    requires k < |list|
    requires list[k].filter.None? && list[k].format.None? && list[k].call.None?
    requires StepsUpTo(list, t, k).Ok?
    ensures Steps(list, t).Err? && Steps(list, t).error.TypeError?
  {
    StepsStop(list, t, k + 1, |list|);
  }
}
