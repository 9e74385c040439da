/**
  Ranking entries by value, largest first, and the running totals that both
  cumulative-volume cuts of the pipeline read off such a ranking.

  An entry pairs something (a metric name, a result row) with its value. The
  ranking is the insertion sort that keeps entries of equal value in their
  original order.
*/
module Ranking {

  predicate Descending<T>(s: seq<(T, real)>)
  {
    forall i, j :: 0 <= i < j < |s| ==> s[i].1 >= s[j].1
  }

  /** Places `x` before the first entry whose value does not exceed its own. */
  function InsertDescending<T>(x: (T, real), s: seq<(T, real)>): (r: seq<(T, real)>)
    requires Descending(s)
    ensures Descending(r)
    ensures multiset(r) == multiset(s) + multiset{x}
    ensures |r| == |s| + 1
    ensures r[0] == if s == [] || x.1 >= s[0].1 then x else s[0]
  {
    if s == [] || x.1 >= s[0].1 then
      DescendingCons(x, s);
      [x] + s
    else
      DescendingTail(s);
      var tail := InsertDescending(x, s[1..]);
      DescendingCons(s[0], tail);
      MultisetHead(s, tail, x);
      [s[0]] + tail
  }

  lemma DescendingTail<T>(s: seq<(T, real)>)
    requires s != [] && Descending(s)
    ensures Descending(s[1..])
  {
    forall i, j | 0 <= i < j < |s| - 1 ensures s[1..][i].1 >= s[1..][j].1 {
      assert s[1..][i] == s[i + 1] && s[1..][j] == s[j + 1];
    }
  }

  /** An entry no smaller than the head of a ranking extends it. */
  lemma DescendingCons<T>(y: (T, real), t: seq<(T, real)>)
    requires Descending(t) && (t == [] || y.1 >= t[0].1)
    ensures Descending([y] + t)
  {
    forall i, j | 0 <= i < j < |[y] + t| ensures ([y] + t)[i].1 >= ([y] + t)[j].1 {
      if i == 0 {
        assert ([y] + t)[j] == t[j - 1];
      }
    }
  }

  lemma MultisetHead<T>(s: seq<(T, real)>, tail: seq<(T, real)>, x: (T, real))
    requires s != [] && multiset(tail) == multiset(s[1..]) + multiset{x}
    ensures multiset([s[0]] + tail) == multiset(s) + multiset{x}
  {
    assert s == [s[0]] + s[1..];
  }

  /** `sort_values(ascending=False)`: the entries by decreasing value. */
  function SortDescending<T>(s: seq<(T, real)>): (r: seq<(T, real)>)
    ensures Descending(r)
    ensures multiset(r) == multiset(s)
    ensures |r| == |s|
  {
    if s == [] then []
    else
      assert s == [s[0]] + s[1..];
      InsertDescending(s[0], SortDescending(s[1..]))
  }

  /** Ranking what is already ranked changes nothing. */
  lemma {:induction false} SortDescendingRanked<T>(s: seq<(T, real)>)
    requires Descending(s)
    ensures SortDescending(s) == s
  {
    if s != [] {
      SortDescendingRanked(s[1..]);
      assert s == [s[0]] + s[1..];
    }
  }

  /** The sum of the values. */
  function Total<T>(s: seq<(T, real)>): real
  {
    if s == [] then 0.0 else s[0].1 + Total(s[1..])
  }

  lemma {:induction false} TotalAppend<T>(a: seq<(T, real)>, b: seq<(T, real)>)
    ensures Total(a + b) == Total(a) + Total(b)
  {
    if a == [] {
      assert a + b == b;
    } else {
      assert (a + b)[1..] == a[1..] + b;
      TotalAppend(a[1..], b);
    }
  }

  lemma TotalCons<T>(x: (T, real), s: seq<(T, real)>)
    ensures Total([x] + s) == x.1 + Total(s)
  {
    assert ([x] + s)[1..] == s;
  }

  lemma AtLeastCons<T(!new)>(x: (T, real), s: seq<(T, real)>, v: real)
    ensures AtLeast([x] + s, v) == (if x.1 >= v then [x] else []) + AtLeast(s, v)
  {
    assert ([x] + s)[1..] == s;
  }

  lemma {:induction false} TotalInsert<T>(x: (T, real), s: seq<(T, real)>)
    requires Descending(s)
    ensures Total(InsertDescending(x, s)) == x.1 + Total(s)
  {
    if s != [] && x.1 < s[0].1 {
      TotalInsert(x, s[1..]);
    }
  }

  /** Ranking changes no total. */
  lemma {:induction false} TotalSort<T>(s: seq<(T, real)>)
    ensures Total(SortDescending(s)) == Total(s)
  {
    if s != [] {
      TotalSort(s[1..]);
      TotalInsert(s[0], SortDescending(s[1..]));
    }
  }

  /** The entries whose value is at least `v`, in order. */
  function AtLeast<T(!new)>(s: seq<(T, real)>, v: real): (r: seq<(T, real)>)
    ensures |r| <= |s|
  {
    if s == [] then []
    else (if s[0].1 >= v then [s[0]] else []) + AtLeast(s[1..], v)
  }

  /** The entries kept are exactly those of value at least `v`. */
  lemma {:induction false} AtLeastMembers<T(!new)>(s: seq<(T, real)>, v: real)
    ensures forall e :: e in AtLeast(s, v) <==> e in s && e.1 >= v
  {
    if s != [] {
      AtLeastMembers(s[1..], v);
      assert forall e :: e in s <==> e == s[0] || e in s[1..];
    }
  }

  /** The first entry counts towards what lies above `v` exactly when it does. */
  lemma TotalAtLeastHead<T(!new)>(s: seq<(T, real)>, v: real)
    requires s != []
    ensures Total(AtLeast(s, v)) == (if s[0].1 >= v then s[0].1 else 0.0) + Total(AtLeast(s[1..], v))
  {
    if s[0].1 >= v {
      TotalCons(s[0], AtLeast(s[1..], v));
    } else {
      assert [] + AtLeast(s[1..], v) == AtLeast(s[1..], v);
    }
  }

  lemma {:induction false} TotalAtLeastInsert<T(!new)>(x: (T, real), s: seq<(T, real)>, v: real)
    requires Descending(s)
    ensures Total(AtLeast(InsertDescending(x, s), v))
      == (if x.1 >= v then x.1 else 0.0) + Total(AtLeast(s, v))
  {
    var r := InsertDescending(x, s);
    TotalAtLeastHead(r, v);
    if s != [] && x.1 < s[0].1 {
      var tail := InsertDescending(x, s[1..]);
      assert r[0] == s[0] && r[1..] == tail;
      TotalAtLeastInsert(x, s[1..], v);
      TotalAtLeastHead(s, v);
    } else {
      assert r[0] == x && r[1..] == s;
    }
  }

  /** What lies above a value sums the same before and after ranking. */
  lemma {:induction false} TotalAtLeastSort<T(!new)>(s: seq<(T, real)>, v: real)
    ensures Total(AtLeast(SortDescending(s), v)) == Total(AtLeast(s, v))
  {
    if s != [] {
      TotalAtLeastSort(s[1..], v);
      TotalAtLeastInsert(s[0], SortDescending(s[1..]), v);
      TotalAtLeastHead(s, v);
    }
  }

  /** In a ranking, what lies above a value is a prefix. */
  lemma {:induction false} AtLeastPrefix<T(!new)>(s: seq<(T, real)>, v: real)
    requires Descending(s)
    ensures AtLeast(s, v) == s[..|AtLeast(s, v)|]
    ensures forall i :: |AtLeast(s, v)| <= i < |s| ==> s[i].1 < v
  {
    if s != [] {
      var t := s[1..];
      assert Descending(t);
      AtLeastPrefix(t, v);
      var n := |AtLeast(t, v)|;
      if s[0].1 >= v {
        assert AtLeast(s, v) == [s[0]] + t[..n];
        assert [s[0]] + t[..n] == s[..n + 1];
      } else {
        assert forall i :: 0 <= i < |t| ==> t[i].1 < v by {
          forall i | 0 <= i < |t| ensures t[i].1 < v {
            assert t[i] == s[i + 1];
          }
        }
        NothingAtLeast(t, v);
        assert AtLeast(s, v) == [] + [];
      }
    }
  }

  lemma {:induction false} NothingAtLeast<T(!new)>(s: seq<(T, real)>, v: real)
    requires forall i :: 0 <= i < |s| ==> s[i].1 < v
    ensures AtLeast(s, v) == []
  {
    if s != [] {
      NothingAtLeast(s[1..], v);
    }
  }

  /** Over non-negative values, a longer prefix never sums to less. */
  lemma {:induction false} TotalPrefixMonotone<T>(s: seq<(T, real)>, k: nat, m: nat)
    requires k <= m <= |s|
    requires forall i :: 0 <= i < |s| ==> s[i].1 >= 0.0
    ensures Total(s[..k]) <= Total(s[..m])
    decreases m - k
  {
    if k < m {
      TotalPrefixMonotone(s, k + 1, m);
      assert s[..k + 1] == s[..k] + [s[k]];
      TotalAppend(s[..k], [s[k]]);
    }
  }

  lemma {:induction false} TotalNonNegative<T>(s: seq<(T, real)>)
    requires forall i :: 0 <= i < |s| ==> s[i].1 >= 0.0
    ensures Total(s) >= 0.0
  {
    if s != [] {
      TotalNonNegative(s[1..]);
    }
  }

  /** The share of the total held by the first `k + 1` ranked entries. */
  function Share<T>(s: seq<(T, real)>, k: nat, total: real): real
    requires k < |s| && total != 0.0
  {
    Total(s[..k + 1]) / total
  }

  /** The smallest value (`min()`), of a non-empty list. */
  function Minimum<T>(s: seq<(T, real)>): (m: real)
    requires |s| >= 1
    ensures forall i :: 0 <= i < |s| ==> m <= s[i].1
    ensures exists i :: 0 <= i < |s| && m == s[i].1
  {
    if |s| == 1 then s[0].1
    else
      var rest := Minimum(s[1..]);
      assert forall i :: 1 <= i < |s| ==> s[i] == s[1..][i - 1];
      if s[0].1 <= rest then s[0].1 else rest
  }

  /** In a ranking the minimum is the last value. */
  lemma MinimumDescending<T>(s: seq<(T, real)>)
    requires |s| >= 1 && Descending(s)
    ensures Minimum(s) == s[|s| - 1].1
  {
  }
}
