/**
  Tables, cells, rows and the error kinds shared by every stage of the
  anomaly-detection pipeline.

  A table is a sequence of column names and a sequence of rows; a row carries
  its index label and a map from column name to cell. Looking a column up in a
  row is total: a column the row does not hold reads as a missing value, as a
  missing entry of a data frame reads as NaN/None.
*/
module Tables {

  datatype Option<T> = None | Some(value: T)

  /** The exceptions the source raises, by kind. */
  datatype Error =
    | ValueError(message: string)
    | TypeError(message: string)
    | KeyError(key: string)

  datatype Result<T> = Ok(value: T) | Err(error: Error)

  /** One cell: a missing value (None/NaN), a number, a text, or a timestamp. */
  datatype Cell = Null | Num(x: real) | Str(s: string) | Time(t: int)

  datatype Row = Row(index: Cell, cells: map<string, Cell>)

  datatype Table = Table(columns: seq<string>, rows: seq<Row>)

  /** What a pivot transformer exposes as its `columns`: nothing, one name,
      or a list of names. */
  datatype ColumnSpec = Unexposed | One(name: string) | Many(names: seq<string>)

  /** The transformer's columns as a list, a single name becoming a list of one. */
  function ExposedColumns(spec: ColumnSpec): (cols: seq<string>)
    requires !spec.Unexposed?
    ensures spec.One? ==> cols == [spec.name]
  {
    if spec.One? then [spec.name] else spec.names
  }

  /** The frame with neither columns nor rows. */
  const EmptyTable := Table([], [])

  function Get(r: Row, column: string): (c: Cell)
    ensures column !in r.cells ==> c == Null
  {
    if column in r.cells then r.cells[column] else Null
  }

  /** A frame is empty when it has no rows or no columns. */
  predicate IsEmpty(t: Table)
  {
    |t.rows| == 0 || |t.columns| == 0
  }

  /** The elements of `s` that satisfy `p`, in their original order. */
  function Filter<T(!new)>(s: seq<T>, p: T -> bool): (r: seq<T>)
    ensures |r| <= |s|
    ensures forall x :: x in r <==> x in s && p(x)
  {
    if s == [] then []
    else (if p(s[0]) then [s[0]] else []) + Filter(s[1..], p)
  }

  lemma {:induction false} FilterIdempotent<T(!new)>(s: seq<T>, p: T -> bool)
    ensures Filter(Filter(s, p), p) == Filter(s, p)
  {
    if s != [] {
      FilterIdempotent(s[1..], p);
      FilterAppend((if p(s[0]) then [s[0]] else []), Filter(s[1..], p), p);
    }
  }

  lemma {:induction false} FilterAppend<T(!new)>(a: seq<T>, b: seq<T>, p: T -> bool)
    ensures Filter(a + b, p) == Filter(a, p) + Filter(b, p)
  {
    if a == [] {
      assert a + b == b;
    } else {
      assert (a + b)[1..] == a[1..] + b;
      FilterAppend(a[1..], b, p);
    }
  }

  /** Filtering by `p` then by `q` is filtering by `q` then by `p`. */
  lemma {:induction false} FilterCommute<T(!new)>(s: seq<T>, p: T -> bool, q: T -> bool)
    ensures Filter(Filter(s, p), q) == Filter(Filter(s, q), p)
  {
    if s != [] {
      FilterCommute(s[1..], p, q);
      FilterAppend((if p(s[0]) then [s[0]] else []), Filter(s[1..], p), q);
      FilterAppend((if q(s[0]) then [s[0]] else []), Filter(s[1..], q), p);
    }
  }

  /** Filters by predicates that agree on every element keep the same elements. */
  lemma {:induction false} FilterSame<T(!new)>(s: seq<T>, p: T -> bool, q: T -> bool)
    requires forall x :: x in s ==> p(x) == q(x)
    ensures Filter(s, p) == Filter(s, q)
  {
    if s != [] {
      FilterSame(s[1..], p, q);
    }
  }

  /** `a` is `b` with some elements deleted and the rest kept in order. */
  ghost predicate IsSubsequence<T>(a: seq<T>, b: seq<T>)
    decreases |b|
  {
    if a == [] then true
    else if b == [] then false
    else if a[0] == b[0] then IsSubsequence(a[1..], b[1..])
    else IsSubsequence(a, b[1..])
  }

  /** The blocks `f(0)`, ..., `f(n - 1)`, one after another. */
  function Blocks<T>(f: nat -> seq<T>, n: nat): seq<T>
  {
    if n == 0 then [] else Blocks(f, n - 1) + f(n - 1)
  }

  /** Equal blocks make equal sequences. */
  lemma {:induction false} BlocksSame<T>(f: nat -> seq<T>, g: nat -> seq<T>, n: nat)
    requires forall k :: 0 <= k < n ==> f(k) == g(k)
    ensures Blocks(f, n) == Blocks(g, n)
  {
    if n > 0 {
      BlocksSame(f, g, n - 1);
    }
  }

  /** Empty blocks after the `m`-th add nothing. */
  lemma {:induction false} BlocksEmptyTail<T>(f: nat -> seq<T>, m: nat, n: nat)
    requires m <= n
    requires forall k :: m <= k < n ==> f(k) == []
    ensures Blocks(f, n) == Blocks(f, m)
    decreases n
  {
    if n > m {
      BlocksEmptyTail(f, m, n - 1);
      assert Blocks(f, n - 1) + [] == Blocks(f, n - 1);
    }
  }

  lemma {:induction false} SubsequenceReflexive<T>(s: seq<T>)
    ensures IsSubsequence(s, s)
  {
    if s != [] {
      SubsequenceReflexive(s[1..]);
    }
  }

  lemma {:induction false} SubsequenceSkip<T>(a: seq<T>, b: seq<T>, x: T)
    requires IsSubsequence(a, b)
    ensures IsSubsequence(a, [x] + b)
    decreases |b|, 1
  {
    if a != [] && a[0] == x {
      assert ([x] + b)[1..] == b;
      SubsequenceDropFirst(a, b);
    } else if a != [] {
      assert ([x] + b)[1..] == b;
    }
  }

  lemma {:induction false} SubsequenceDropFirst<T>(a: seq<T>, b: seq<T>)
    requires a != [] && IsSubsequence(a, b)
    ensures IsSubsequence(a[1..], b)
    decreases |b|, 0
  {
    if a[0] == b[0] {
      if a[1..] != [] {
        SubsequenceSkip(a[1..], b[1..], b[0]);
        assert [b[0]] + b[1..] == b;
      }
    } else {
      SubsequenceDropFirst(a, b[1..]);
      if a[1..] != [] {
        SubsequenceSkip(a[1..], b[1..], b[0]);
        assert [b[0]] + b[1..] == b;
      }
    }
  }

  lemma {:induction false} FilterIsSubsequence<T(!new)>(s: seq<T>, p: T -> bool)
    ensures IsSubsequence(Filter(s, p), s)
  {
    if s != [] {
      FilterIsSubsequence(s[1..], p);
      if p(s[0]) {
        assert Filter(s, p) == [s[0]] + Filter(s[1..], p);
        assert Filter(s, p)[1..] == Filter(s[1..], p);
      } else {
        assert Filter(s, p) == Filter(s[1..], p);
        SubsequenceSkip(Filter(s[1..], p), s[1..], s[0]);
        assert [s[0]] + s[1..] == s;
      }
    }
  }

  /** The rows of `t` that satisfy `p`, same columns, labels kept (a boolean mask). */
  function Where(t: Table, p: Row -> bool): (r: Table)
    ensures r.columns == t.columns
    ensures |r.rows| <= |t.rows|
    ensures forall row :: row in r.rows <==> row in t.rows && p(row)
  {
    Table(t.columns, Filter(t.rows, p))
  }

  /** A mask keeps rows in their original order and invents none. */
  lemma WhereIsSubsequence(t: Table, p: Row -> bool)
    ensures IsSubsequence(Where(t, p).rows, t.rows)
  {
    FilterIsSubsequence(t.rows, p);
  }

  lemma {:induction false} SubsequenceTransitive<T>(a: seq<T>, b: seq<T>, c: seq<T>)
    requires IsSubsequence(a, b) && IsSubsequence(b, c)
    ensures IsSubsequence(a, c)
    decreases |c|
  {
    if a != [] {
      if b[0] == c[0] && a[0] == b[0] {
        SubsequenceTransitive(a[1..], b[1..], c[1..]);
      } else {
        if b[0] == c[0] {
          SubsequenceTransitive(a, b[1..], c[1..]);
        } else {
          SubsequenceTransitive(a, b, c[1..]);
        }
        if a[0] == c[0] {
          SubsequenceDropFirst(a, c[1..]);
        }
      }
    }
  }

  /** The contents of the rows, without their labels. */
  function CellsOf(rows: seq<Row>): (r: seq<map<string, Cell>>)
    ensures |r| == |rows| && forall i :: 0 <= i < |rows| ==> r[i] == rows[i].cells
  {
    seq(|rows|, i requires 0 <= i < |rows| => rows[i].cells)
  }

  /** Rows in order give their contents in order. */
  lemma {:induction false} SubsequenceCells(a: seq<Row>, b: seq<Row>)
    requires IsSubsequence(a, b)
    ensures IsSubsequence(CellsOf(a), CellsOf(b))
    decreases |b|
  {
    if a != [] {
      assert CellsOf(b) == [b[0].cells] + CellsOf(b[1..]);
      if a[0] == b[0] {
        SubsequenceCells(a[1..], b[1..]);
        assert CellsOf(a)[1..] == CellsOf(a[1..]);
      } else {
        SubsequenceCells(a, b[1..]);
        SubsequenceSkip(CellsOf(a), CellsOf(b[1..]), b[0].cells);
      }
    }
  }

  /** Two masks applied one after the other commute. */
  lemma WhereCommute(t: Table, p: Row -> bool, q: Row -> bool)
    ensures Where(Where(t, p), q) == Where(Where(t, q), p)
  {
    FilterCommute(t.rows, p, q);
  }

  lemma WhereIdempotent(t: Table, p: Row -> bool)
    ensures Where(Where(t, p), p) == Where(t, p)
  {
    FilterIdempotent(t.rows, p);
  }

  /** Assigning column `name` row by row: an existing column is replaced in
      place, a new one is appended at the end. */
  function SetColumn(t: Table, name: string, f: Row -> Cell): (r: Table)
    ensures |r.rows| == |t.rows|
    ensures r.columns == if name in t.columns then t.columns else t.columns + [name]
    ensures forall i :: 0 <= i < |t.rows| ==>
      r.rows[i].index == t.rows[i].index &&
      Get(r.rows[i], name) == f(t.rows[i]) &&
      forall c :: c != name ==> Get(r.rows[i], c) == Get(t.rows[i], c)
  {
    var cols := if name in t.columns then t.columns else t.columns + [name];
    Table(cols, seq(|t.rows|, i requires 0 <= i < |t.rows| =>
      Row(t.rows[i].index, t.rows[i].cells[name := f(t.rows[i])])))
  }

  /** Assigning column `name` from a list of values, one per row. */
  function AssignColumn(t: Table, name: string, values: seq<Cell>): (r: Table)
    requires |values| == |t.rows|
    ensures |r.rows| == |t.rows|
    ensures r.columns == if name in t.columns then t.columns else t.columns + [name]
    ensures forall i :: 0 <= i < |t.rows| ==>
      r.rows[i].index == t.rows[i].index &&
      Get(r.rows[i], name) == values[i] &&
      forall c :: c != name ==> Get(r.rows[i], c) == Get(t.rows[i], c)
  {
    var cols := if name in t.columns then t.columns else t.columns + [name];
    Table(cols, seq(|t.rows|, i requires 0 <= i < |t.rows| =>
      Row(t.rows[i].index, t.rows[i].cells[name := values[i]])))
  }

  /** `rows.loc[label]` for a label that occurs at most once: the first row carrying it. */
  function Lookup(rows: seq<Row>, key: Cell): Option<Row>
  {
    if rows == [] then None
    else if rows[0].index == key then Some(rows[0])
    else Lookup(rows[1..], key)
  }

  /** A row is found exactly when some row carries the label, and the row
      found carries it. */
  lemma {:induction false} LookupFound(rows: seq<Row>, key: Cell)
    ensures Lookup(rows, key).Some? <==> exists i :: 0 <= i < |rows| && rows[i].index == key
    ensures Lookup(rows, key).Some? ==> Lookup(rows, key).value in rows && Lookup(rows, key).value.index == key
  {
    if rows != [] && rows[0].index != key {
      LookupFound(rows[1..], key);
      assert forall i :: 1 <= i < |rows| ==> rows[i] == rows[1..][i - 1];
    }
  }

  /** Removes one column from the header and from every row. */
  function DropColumn(t: Table, name: string): (r: Table)
    ensures name !in r.columns
    ensures forall c :: c in r.columns <==> c in t.columns && c != name
    ensures |r.rows| == |t.rows|
    ensures forall i :: 0 <= i < |t.rows| ==>
      r.rows[i].index == t.rows[i].index &&
      Get(r.rows[i], name) == Null &&
      forall c :: c != name ==> Get(r.rows[i], c) == Get(t.rows[i], c)
  {
    Table(Filter(t.columns, c => c != name),
          seq(|t.rows|, i requires 0 <= i < |t.rows| =>
            Row(t.rows[i].index, t.rows[i].cells - {name})))
  }

  /** `t[cols]`: the listed columns, in the listed order, of every row. */
  function Select(t: Table, cols: seq<string>): (r: Table)
    ensures r.columns == cols && |r.rows| == |t.rows|
    ensures forall i :: 0 <= i < |t.rows| ==>
      r.rows[i].index == t.rows[i].index &&
      forall c :: Get(r.rows[i], c) == (if c in cols then Get(t.rows[i], c) else Null)
  {
    Table(cols, seq(|t.rows|, i requires 0 <= i < |t.rows| =>
      Row(t.rows[i].index, map k | k in t.rows[i].cells && k in cols :: t.rows[i].cells[k])))
  }

  /** Some row of `rs` has these cells. */
  predicate Holds(rs: seq<Row>, cells: map<string, Cell>)
  {
    exists y :: y in rs && y.cells == cells
  }

  /** The default index 0, 1, ..., n-1 (`reset_index(drop=True)`, `ignore_index=True`). */
  function Renumber(rows: seq<Row>): (r: seq<Row>)
    ensures |r| == |rows|
    ensures forall i :: 0 <= i < |rows| ==>
      r[i].index == Num(i as real) && r[i].cells == rows[i].cells
  {
    seq(|rows|, i requires 0 <= i < |rows| => Row(Num(i as real), rows[i].cells))
  }

  /** Renumbering keeps the contents of every row and invents none. */
  lemma RenumberCells(rows: seq<Row>)
    ensures forall y :: y in Renumber(rows) ==> exists x :: x in rows && x.cells == y.cells
    ensures forall x :: x in rows ==> Holds(Renumber(rows), x.cells)
  {
    var r := Renumber(rows);
    forall y | y in r ensures exists x :: x in rows && x.cells == y.cells {
      var i :| 0 <= i < |r| && r[i] == y;
      assert rows[i] in rows;
    }
    forall x | x in rows ensures Holds(r, x.cells) {
      var i :| 0 <= i < |rows| && rows[i] == x;
      assert r[i] in r;
    }
  }

  /** `key` is one of the labels 0, 1, ..., n-1 of the default index. */
  predicate IsPosition(key: Cell, n: nat)
  {
    key.Num? && key.x == key.x.Floor as real && 0 <= key.x.Floor < n
  }

  /** Under the default index, looking up label `k` finds row `k`, and no other
      label is found. */
  lemma LookupRenumbered(rows: seq<Row>, key: Cell)
    ensures var r := Renumber(rows);
      Lookup(r, key) == if IsPosition(key, |rows|) then Some(r[key.x.Floor]) else None
  {
    var r := Renumber(rows);
    if IsPosition(key, |rows|) {
      var k: nat := key.x.Floor;
      assert r[k].index == key;
      LookupFirst(r, k);
    } else {
      assert forall i :: 0 <= i < |r| ==> r[i].index != key;
      LookupFound(r, key);
    }
  }

  lemma {:induction false} LookupFirst(rows: seq<Row>, k: nat)
    requires k < |rows|
    requires forall i :: 0 <= i < |rows| && i != k ==> rows[i].index != rows[k].index
    ensures Lookup(rows, rows[k].index) == Some(rows[k])
  {
    if k > 0 {
      LookupFirst(rows[1..], k - 1);
    }
  }
}
