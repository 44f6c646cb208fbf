/**
  The slice of pandas that the analysis scripts rely on, stated over finite
  row sequences: cells, rows, tables, boolean-mask selection, `unique`,
  `value_counts`, `concat` and whole-column assignment.
 */
module Frames {

  datatype Option<T> = None | Some(value: T)

  /** A cell of a DataFrame read with `dtype=str`: text, a number produced by
      numeric coercion, or a missing value (pandas' NaN). */
  datatype Cell = Text(s: string) | Num(x: real) | NaN

  /** The exceptions the scripts can raise on the paths they take. */
  datatype Error =
    | KeyError(key: Cell)        // a dictionary key or a column that is not there
    | FileNotFound(path: string) // `read_csv` of a file that does not exist
    | TypeError                  // ordering comparison between text and a number
    | ValueError                 // assigning a frame of several columns (or none) to one column

  datatype Result<T> = Ok(value: T) | Err(error: Error)

  /** A row maps column names to cells. */
  type Row = map<string, Cell>

  /** A DataFrame: its column labels and its rows in index order. A row may
      lack some column of the table (as after `concat`); reading it gives NaN. */
  datatype Table = Table(columns: set<string>, rows: seq<Row>)

  function Get(r: Row, c: string): Cell {
    if c in r then r[c] else NaN
  }

  /** pandas' elementwise `==`: NaN compares unequal to everything, itself included. */
  predicate CellEq(a: Cell, b: Cell) {
    a == b && !a.NaN?
  }

  /** The cells of column `c`, row by row (`df[c]`). */
  function Cells(rows: seq<Row>, c: string): (col: seq<Cell>)
    ensures |col| == |rows|
    ensures forall i :: 0 <= i < |rows| ==> col[i] == Get(rows[i], c)
  {
    seq(|rows|, i requires 0 <= i < |rows| => Get(rows[i], c))
  }

  lemma CellsAppend(a: seq<Row>, b: seq<Row>, c: string)
    ensures Cells(a + b, c) == Cells(a, c) + Cells(b, c)
  {
  }

  /** Every row holds exactly the table's columns, as in a table read from a file. */
  ghost predicate Filled(t: Table) {
    forall r :: r in t.rows ==> r.Keys == t.columns
  }

  /** Dictionary lookup on an insertion-ordered list of entries; as in a Python
      dict literal, a later entry for the same key wins. */
  function Lookup<K(==), V>(d: seq<(K, V)>, k: K): (r: Option<V>)
    ensures r.None? <==> forall i :: 0 <= i < |d| ==> d[i].0 != k
    ensures r.Some? ==> exists i :: 0 <= i < |d| && d[i] == (k, r.value) &&
                                    forall j :: i < j < |d| ==> d[j].0 != k
  {
    if d == [] then None
    else if d[|d| - 1].0 == k then Some(d[|d| - 1].1)
    else Lookup(d[..|d| - 1], k)
  }

  /** A dictionary filled entry by entry, `d[k] = load(k, m)` for each entry
      `(k, m)` in order, stopping at the first entry whose load raises. */
  function Collect<K, M, V>(entries: seq<(K, M)>, load: (K, M) -> Result<V>): (r: Result<map<K, V>>)
    ensures r.Ok? ==> forall i :: 0 <= i < |entries| ==> entries[i].0 in r.value
  {
    if entries == [] then Ok(map[])
    else
      var k, m := entries[|entries| - 1].0, entries[|entries| - 1].1;
      match Collect(entries[..|entries| - 1], load)
      case Err(e) => Err(e)
      case Ok(d) =>
        match load(k, m)
        case Err(e) => Err(e)
        case Ok(v) => Ok(d[k := v])
  }

  /** One more entry: its load runs only when the earlier ones all succeeded. */
  lemma CollectSnoc<K, M, V>(entries: seq<(K, M)>, load: (K, M) -> Result<V>)
    requires entries != []
    ensures var k, m := entries[|entries| - 1].0, entries[|entries| - 1].1;
      var before, after := Collect(entries[..|entries| - 1], load), Collect(entries, load);
      && (after.Ok? <==> before.Ok? && load(k, m).Ok?)
      && (before.Err? ==> after == before)
      && (before.Ok? && load(k, m).Err? ==> after == Err(load(k, m).error))
      && (after.Ok? ==> after.value == before.value[k := load(k, m).value])
  {
  }

  /** Filling succeeds exactly when every entry loads. */
  lemma {:induction false} CollectOk<K, M, V>(entries: seq<(K, M)>, load: (K, M) -> Result<V>)
    ensures Collect(entries, load).Ok? <==> forall i :: 0 <= i < |entries| ==> load(entries[i].0, entries[i].1).Ok?
  {
    if entries != [] {
      var init, n := entries[..|entries| - 1], |entries| - 1;
      CollectOk(init, load);
      CollectSnoc(entries, load);
      if Collect(entries, load).Ok? {
        forall i | 0 <= i < |entries| ensures load(entries[i].0, entries[i].1).Ok? {
          if i < n {
            assert init[i] == entries[i];
          }
        }
      } else if Collect(init, load).Err? {
        var i :| 0 <= i < |init| && load(init[i].0, init[i].1).Err?;
        assert init[i] == entries[i];
      }
    }
  }

  /** A failed fill raises the error of the first entry that fails. */
  lemma {:induction false} CollectFirstError<K, M, V>(entries: seq<(K, M)>, load: (K, M) -> Result<V>)
    requires Collect(entries, load).Err?
    ensures exists i :: (0 <= i < |entries|
      && load(entries[i].0, entries[i].1) == Err(Collect(entries, load).error)
      && forall j :: 0 <= j < i ==> load(entries[j].0, entries[j].1).Ok?)
  {
    var init, n := entries[..|entries| - 1], |entries| - 1;
    var e := Collect(entries, load).error;
    CollectSnoc(entries, load);
    if Collect(init, load).Err? {
      CollectFirstError(init, load);
      var i :| 0 <= i < |init|
        && load(init[i].0, init[i].1) == Err(e)
        && forall j :: 0 <= j < i ==> load(init[j].0, init[j].1).Ok?;
      assert init[i] == entries[i];
      assert forall j :: 0 <= j < i ==> init[j] == entries[j];
    } else {
      CollectOk(init, load);
      assert forall j :: 0 <= j < n ==> init[j] == entries[j];
    }
  }

  /** A filled dictionary has a key for every entry and no other, holding the
      load of the key's last entry. */
  lemma {:induction false} CollectContents<K, M, V>(entries: seq<(K, M)>, load: (K, M) -> Result<V>)
    requires Collect(entries, load).Ok?
    ensures forall k :: k in Collect(entries, load).value <==> Lookup(entries, k).Some?
    ensures forall k :: k in Collect(entries, load).value ==>
      load(k, Lookup(entries, k).value) == Ok(Collect(entries, load).value[k])
  {
    if entries != [] {
      CollectSnoc(entries, load);
      CollectContents(entries[..|entries| - 1], load);
    }
  }

  /** Once a prefix of the entries has failed, the later entries change nothing. */
  lemma {:induction false} CollectErrPrefix<K, M, V>(entries: seq<(K, M)>, n: nat, load: (K, M) -> Result<V>)
    requires n <= |entries| && Collect(entries[..n], load).Err?
    ensures Collect(entries, load) == Collect(entries[..n], load)
    decreases |entries| - n
  {
    if n < |entries| {
      var e := entries[..n + 1];
      assert e[..|e| - 1] == entries[..n];
      CollectSnoc(e, load);
      CollectErrPrefix(entries, n + 1, load);
    } else {
      assert entries[..n] == entries;
    }
  }

  /** The elements' images under `f`, one run after another. */
  function Runs<T, U>(s: seq<T>, f: T -> seq<U>): seq<U> {
    if s == [] then [] else Runs(s[..|s| - 1], f) + f(s[|s| - 1])
  }

  /** The run of element `i` follows, in order, the runs of the elements before it. */
  lemma {:induction false} RunsRun<T, U>(s: seq<T>, f: T -> seq<U>, i: nat)
    requires i < |s|
    ensures |Runs(s[..i], f)| + |f(s[i])| <= |Runs(s, f)|
    ensures Runs(s, f)[|Runs(s[..i], f)|..|Runs(s[..i], f)| + |f(s[i])|] == f(s[i])
  {
    var n := |s| - 1;
    if i < n {
      assert s[..n][..i] == s[..i] && s[..n][i] == s[i];
      RunsRun(s[..n], f, i);
    } else {
      assert s[..n] == s[..i];
    }
  }

  /** Setting a column on a concatenation of runs acts cell by cell on the
      run of element `i`. */
  lemma SetColumnRunsCell<T>(b: seq<Row>, cols: set<string>, s: seq<T>, f: T -> seq<Row>, c: string, v: Cell,
                             i: nat, j: nat, d: string)
    requires b == SetColumn(Table(cols, Runs(s, f)), c, v).rows
    requires i < |s| && |Runs(s[..i], f)| <= j < |Runs(s[..i], f)| + |f(s[i])|
    ensures j < |b| && Get(b[j], c) == v
    ensures d != c ==> Get(b[j], d) == Get(f(s[i])[j - |Runs(s[..i], f)|], d)
  {
    RunsRun(s, f, i);
    SetColumnRunCell(b, cols, Runs(s, f), c, v, |Runs(s[..i], f)|, f(s[i]), j, d);
  }

  /** Setting a column acts cell by cell: a row inside a run at `start`
      reappears with the column set and every other cell unchanged. */
  lemma SetColumnRunCell(b: seq<Row>, cols: set<string>, xs: seq<Row>, c: string, v: Cell,
                         start: nat, run: seq<Row>, j: nat, d: string)
    requires b == SetColumn(Table(cols, xs), c, v).rows
    requires start + |run| <= |xs| && xs[start..start + |run|] == run
    requires start <= j < start + |run|
    ensures j < |b| && Get(b[j], c) == v
    ensures d != c ==> Get(b[j], d) == Get(run[j - start], d)
  {
    RunAt(xs, start, run, j);
  }
  /** Boolean-mask selection `s[mask]`: the elements satisfying `p`, in order. */
  function Filter<T(==)>(s: seq<T>, p: T -> bool): (r: seq<T>)
    ensures |r| <= |s|
    ensures forall x :: x in r ==> x in s && p(x)
    ensures forall x :: x in s && p(x) ==> x in r
  {
    if s == [] then []
    else Filter(s[..|s| - 1], p) + (if p(s[|s| - 1]) then [s[|s| - 1]] else [])
  }

  /** Selection keeps the original order: it distributes over concatenation. */
  lemma {:induction false} FilterAppend<T>(a: seq<T>, b: seq<T>, p: T -> bool)
    ensures Filter(a + b, p) == Filter(a, p) + Filter(b, p)
    decreases |b|
  {
    if b == [] {
      assert a + b == a;
    } else {
      var b' := b[..|b| - 1];
      assert (a + b)[..|a + b| - 1] == a + b';
      assert (a + b)[|a + b| - 1] == b[|b| - 1];
      FilterAppend(a, b', p);
    }
  }

  /** Selecting with a predicate that every element satisfies keeps everything. */
  lemma {:induction false} FilterAll<T>(s: seq<T>, p: T -> bool)
    requires forall x :: x in s ==> p(x)
    ensures Filter(s, p) == s
  {
    if s != [] {
      assert s == s[..|s| - 1] + [s[|s| - 1]];
      FilterAll(s[..|s| - 1], p);
    }
  }

  /** Selecting with a predicate that no element satisfies keeps nothing. */
  lemma {:induction false} FilterNone<T>(s: seq<T>, p: T -> bool)
    requires forall x :: x in s ==> !p(x)
    ensures Filter(s, p) == []
  {
    if s != [] {
      FilterNone(s[..|s| - 1], p);
    }
  }

  function Where(t: Table, p: Row -> bool): (r: Table)
    ensures r.columns == t.columns
    ensures forall x :: x in r.rows <==> x in t.rows && p(x)
  {
    Table(t.columns, Filter(t.rows, p))
  }

  /** The number of occurrences of `v` in `s`. */
  function Count<T(==)>(s: seq<T>, v: T): (n: nat)
    ensures n <= |s|
    ensures n == 0 <==> v !in s
  {
    if s == [] then 0
    else Count(s[..|s| - 1], v) + (if s[|s| - 1] == v then 1 else 0)
  }

  lemma {:induction false} CountAppend<T>(a: seq<T>, b: seq<T>, v: T)
    ensures Count(a + b, v) == Count(a, v) + Count(b, v)
    decreases |b|
  {
    if b == [] {
      assert a + b == a;
    } else {
      var b' := b[..|b| - 1];
      assert (a + b)[..|a + b| - 1] == a + b';
      CountAppend(a, b', v);
    }
  }

  /** Counting a column row by row: the last row adds its own occurrence. */
  lemma CountCellsSnoc(rows: seq<Row>, c: string, v: Cell)
    requires rows != []
    ensures Count(Cells(rows, c), v)
         == Count(Cells(rows[..|rows| - 1], c), v) + Count(Cells([rows[|rows| - 1]], c), v)
  {
    var col := Cells(rows, c);
    assert col[..|col| - 1] == Cells(rows[..|rows| - 1], c);
  }

  /** The number of elements of `s` that occur in `u`. */
  function CountIn<T(==)>(s: seq<T>, u: seq<T>): (n: nat)
    ensures n <= |s|
  {
    if s == [] then 0
    else CountIn(s[..|s| - 1], u) + (if s[|s| - 1] in u then 1 else 0)
  }

  lemma {:induction false} CountInAll<T>(s: seq<T>, u: seq<T>)
    requires forall x :: x in s ==> x in u
    ensures CountIn(s, u) == |s|
  {
    if s != [] {
      CountInAll(s[..|s| - 1], u);
    }
  }

  ghost predicate Distinct<T>(s: seq<T>) {
    forall i, j :: 0 <= i < j < |s| ==> s[i] != s[j]
  }

  lemma {:induction false} CountDistinct<T>(u: seq<T>, x: T)
    requires Distinct(u)
    ensures Count(u, x) == if x in u then 1 else 0
  {
    if u != [] {
      var u' := u[..|u| - 1];
      assert forall y :: y in u' ==> y in u;
      CountDistinct(u', x);
      if x == u[|u| - 1] {
        assert x !in u' by {
          forall i | 0 <= i < |u'| ensures u'[i] != x {
            assert u[i] != u[|u| - 1];
          }
        }
      } else {
        assert x in u ==> x in u';
      }
    }
  }

  /** Selecting from distinct values keeps them distinct. */
  lemma {:induction false} FilterDistinct<T>(s: seq<T>, p: T -> bool)
    requires Distinct(s)
    ensures Distinct(Filter(s, p))
  {
    if s != [] {
      var s', x := s[..|s| - 1], s[|s| - 1];
      assert Distinct(s');
      FilterDistinct(s', p);
      assert x !in s' by {
        forall i | 0 <= i < |s'| ensures s'[i] != x {
          assert s[i] != s[|s| - 1];
        }
      }
    }
  }

  /** Counting the elements that occur in `u` is selecting them, when occurring
      in `u` is the same as satisfying `p`. */
  lemma {:induction false} CountInFilter<T>(s: seq<T>, u: seq<T>, p: T -> bool)
    requires forall x :: x in s ==> (x in u <==> p(x))
    ensures CountIn(s, u) == |Filter(s, p)|
  {
    if s != [] {
      assert forall x :: x in s[..|s| - 1] ==> x in s;
      CountInFilter(s[..|s| - 1], u, p);
    }
  }

  /** `Series.unique()`: each distinct value once (NaN included), in order of first appearance. */
  function Unique<T(==)>(s: seq<T>): (u: seq<T>)
    ensures Distinct(u)
    ensures forall x :: x in u ==> x in s
    ensures forall x :: x in s ==> x in u
  {
    if s == [] then []
    else
      var u' := Unique(s[..|s| - 1]);
      assert forall x :: x in s[..|s| - 1] ==> x in s;
      assert forall x :: x in s ==> x in s[..|s| - 1] || x == s[|s| - 1];
      if s[|s| - 1] in u' then u' else u' + [s[|s| - 1]]
  }

  /** The position of the first occurrence of `x` in `s`. */
  function FirstIndex<T(==)>(s: seq<T>, x: T): (i: nat)
    requires x in s
    ensures i < |s| && s[i] == x
    ensures forall j :: 0 <= j < i ==> s[j] != x
  {
    if s[0] == x then 0 else 1 + FirstIndex(s[1..], x)
  }

  lemma {:induction false} FirstIndexPrefix<T>(s: seq<T>, t: seq<T>, x: T)
    requires x in s
    ensures FirstIndex(s + t, x) == FirstIndex(s, x)
  {
    var i := FirstIndex(s, x);
    var k := FirstIndex(s + t, x);
    assert (s + t)[i] == x;
    assert forall j :: 0 <= j < i ==> (s + t)[j] == s[j];
  }

  /** `unique` lists the values in the order in which they first appear. */
  lemma {:induction false} UniqueOrder<T>(s: seq<T>)
    ensures forall i, j :: 0 <= i < j < |Unique(s)| ==>
      FirstIndex(s, Unique(s)[i]) < FirstIndex(s, Unique(s)[j])
  {
    if s != [] {
      var s', x := s[..|s| - 1], s[|s| - 1];
      assert s == s' + [x];
      UniqueOrder(s');
      var u', u := Unique(s'), Unique(s);
      forall i, j | 0 <= i < j < |u|
        ensures FirstIndex(s, u[i]) < FirstIndex(s, u[j])
      {
        assert u[i] in s';
        FirstIndexPrefix(s', [x], u[i]);
        if j < |u'| {
          assert u[j] in s';
          FirstIndexPrefix(s', [x], u[j]);
        } else {
          assert u[j] == x && x !in s';
          assert FirstIndex(s, x) == |s'|;
        }
      }
    }
  }

  /** `value_counts(dropna=False)` as (label, count) pairs, one per distinct
      value, NaN included. */
  function ValueCounts<T(==)>(s: seq<T>): (vc: seq<(T, nat)>)
    ensures |vc| == |Unique(s)|
    ensures forall i :: 0 <= i < |vc| ==> vc[i].0 == Unique(s)[i] && vc[i].1 == Count(s, vc[i].0)
  {
    CountsFor(Unique(s), s)
  }

  function CountsFor<T(==)>(u: seq<T>, s: seq<T>): (vc: seq<(T, nat)>)
    ensures |vc| == |u|
    ensures forall i :: 0 <= i < |vc| ==> vc[i].0 == u[i] && vc[i].1 == Count(s, u[i])
  {
    if u == [] then []
    else CountsFor(u[..|u| - 1], s) + [(u[|u| - 1], Count(s, u[|u| - 1]))]
  }

  /** `Series.sum()` of a table of counts. */
  function Total<T>(vc: seq<(T, nat)>): nat {
    if vc == [] then 0 else Total(vc[..|vc| - 1]) + vc[|vc| - 1].1
  }
  /** Counting one more label adds its count to the sum. */
  lemma TotalCountsForSnoc<T>(u: seq<T>, x: T, s: seq<T>)
    ensures Total(CountsFor(u + [x], s)) == Total(CountsFor(u, s)) + Count(s, x)
  {
    assert (u + [x])[..|u + [x]| - 1] == u;
    var cf := CountsFor(u + [x], s);
    assert cf[..|cf| - 1] == CountsFor(u, s);
  }


  lemma {:induction false} TotalCountsSnoc<T>(u: seq<T>, s: seq<T>, x: T)
    ensures Total(CountsFor(u, s + [x])) == Total(CountsFor(u, s)) + Count(u, x)
  {
    if u != [] {
      var u', y := u[..|u| - 1], u[|u| - 1];
      TotalCountsSnoc(u', s, x);
      assert (s + [x])[..|s + [x]| - 1] == s;
      assert Count(s + [x], y) == Count(s, y) + (if x == y then 1 else 0);
    }
  }

  /** Summing the counts of distinct labels counts the elements carrying one of them. */
  lemma {:induction false} TotalCounts<T>(u: seq<T>, s: seq<T>)
    requires Distinct(u)
    ensures Total(CountsFor(u, s)) == CountIn(s, u)
    decreases |s|
  {
    if s == [] {
      TotalCountsEmpty(u);
    } else {
      var s', x := s[..|s| - 1], s[|s| - 1];
      assert s == s' + [x];
      TotalCounts(u, s');
      TotalCountsSnoc(u, s', x);
      CountDistinct(u, x);
    }
  }

  lemma {:induction false} TotalCountsEmpty<T>(u: seq<T>)
    ensures Total(CountsFor(u, [])) == 0
  {
    if u != [] {
      TotalCountsEmpty(u[..|u| - 1]);
    }
  }

  /** With `dropna=False` the counts add up to the number of rows. */
  lemma ValueCountsTotal<T>(s: seq<T>)
    ensures Total(ValueCounts(s)) == |s|
  {
    TotalCounts(Unique(s), s);
    CountInAll(s, Unique(s));
  }

  /** `counts.get(v)`: the count of a present label, nothing for an absent one. */
  lemma ValueCountsLookup<T>(s: seq<T>, v: T)
    ensures Lookup(ValueCounts(s), v) == if v in s then Some(Count(s, v)) else None
  {
    var vc := ValueCounts(s);
    if v in s {
      assert v in Unique(s);
      var i :| 0 <= i < |Unique(s)| && Unique(s)[i] == v;
      assert vc[i].0 == v;
    }
  }

  /** Whole-column assignment `df[c] = v` of one constant value. */
  function SetColumn(t: Table, c: string, v: Cell): (r: Table)
    ensures r.columns == t.columns + {c}
    ensures |r.rows| == |t.rows|
    ensures forall i :: 0 <= i < |r.rows| ==> Get(r.rows[i], c) == v
    ensures forall i, d :: 0 <= i < |r.rows| && d != c ==> Get(r.rows[i], d) == Get(t.rows[i], d)
  {
    Table(t.columns + {c}, seq(|t.rows|, i requires 0 <= i < |t.rows| => t.rows[i][c := v]))
  }

  /** An element of a run that sits at `start`. */
  lemma RunAt<T>(xs: seq<T>, start: nat, run: seq<T>, j: nat)
    requires start + |run| <= |xs| && xs[start..start + |run|] == run
    requires start <= j < start + |run|
    ensures xs[j] == run[j - start]
  {
    assert xs[start..start + |run|][j - start] == xs[j];
  }

  /** `pd.concat(tables, ignore_index=True)`: rows one table after another,
      columns the union (cells a table lacks read as NaN). */
  function Concat(ts: seq<Table>): (r: Table)
    ensures forall c :: c in r.columns <==> exists i :: 0 <= i < |ts| && c in ts[i].columns
    ensures forall x :: x in r.rows <==> exists i :: 0 <= i < |ts| && x in ts[i].rows
  {
    if ts == [] then Table({}, [])
    else
      var r' := Concat(ts[..|ts| - 1]);
      var t := ts[|ts| - 1];
      assert forall i :: 0 <= i < |ts| - 1 ==> ts[..|ts| - 1][i] == ts[i];
      Table(r'.columns + t.columns, r'.rows + t.rows)
  }

  lemma {:induction false} ConcatLength(ts: seq<Table>)
    ensures |Concat(ts).rows| == RowCount(ts)
  {
    if ts != [] {
      ConcatLength(ts[..|ts| - 1]);
    }
  }

  /** The `i`-th table's rows sit, in order, in the concatenation right after
      the rows of the tables before it. */
  lemma {:induction false} ConcatAt(ts: seq<Table>, i: nat)
    requires i < |ts|
    ensures RowCount(ts[..i]) + |ts[i].rows| <= |Concat(ts).rows|
    ensures Concat(ts).rows[RowCount(ts[..i])..RowCount(ts[..i]) + |ts[i].rows|] == ts[i].rows
  {
    var n := |ts| - 1;
    var init := ts[..n];
    ConcatLength(init);
    assert Concat(ts).rows == Concat(init).rows + ts[n].rows;
    if i == n {
      assert init == ts[..i];
    } else {
      assert init[..i] == ts[..i] && init[i] == ts[i];
      ConcatAt(init, i);
    }
  }

  function RowCount(ts: seq<Table>): nat {
    if ts == [] then 0 else RowCount(ts[..|ts| - 1]) + |ts[|ts| - 1].rows|
  }

  /** Keys taken by a column. */
  function KeysOf(rows: seq<Row>, c: string): set<Cell> {
    set r | r in rows :: Get(r, c)
  }

  /** No two rows share the value of column `c`. */
  ghost predicate UniqueKeys(rows: seq<Row>, c: string) {
    forall i, j :: 0 <= i < j < |rows| ==> Get(rows[i], c) != Get(rows[j], c)
  }

  /** Unique keys: as many distinct keys as rows. */
  lemma {:induction false} UniqueKeysCount(rows: seq<Row>, c: string)
    requires UniqueKeys(rows, c)
    ensures |KeysOf(rows, c)| == |rows|
  {
    if rows != [] {
      var init, last := rows[..|rows| - 1], rows[|rows| - 1];
      assert rows == init + [last];
      assert UniqueKeys(init, c);
      UniqueKeysCount(init, c);
      assert Get(last, c) !in KeysOf(init, c) by {
        forall x | x in init ensures Get(x, c) != Get(last, c) {
          var i :| 0 <= i < |init| && init[i] == x;
          assert rows[i] == x;
        }
      }
      assert KeysOf(rows, c) == KeysOf(init, c) + {Get(last, c)};
    }
  }

  /** Selecting rows keeps their keys unique. */
  lemma {:induction false} FilterUniqueKeys(rows: seq<Row>, c: string, p: Row -> bool)
    requires UniqueKeys(rows, c)
    ensures UniqueKeys(Filter(rows, p), c)
  {
    if rows != [] {
      var init, last := rows[..|rows| - 1], rows[|rows| - 1];
      assert UniqueKeys(init, c);
      FilterUniqueKeys(init, c, p);
      var f := Filter(init, p);
      forall x | x in f ensures Get(x, c) != Get(last, c) {
        var i :| 0 <= i < |init| && init[i] == x;
        assert rows[i] == x;
      }
    }
  }
}
