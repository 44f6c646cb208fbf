/**
  `DataFrame.merge` with `how="left"` and `how="inner"` on one key column per
  side. Rows come out in the order of the left table, each followed by its
  matches in the order of the right table. As in pandas, a NaN key on the left
  matches a NaN key on the right.
 */
module Joins {
  import opened Frames

  datatype How = Left | Inner

  /** The rows of `right` whose key column holds `key`. */
  function Matches(right: seq<Row>, rightOn: string, key: Cell): (m: seq<Row>)
    ensures |m| <= |right|
    ensures forall r :: r in m <==> r in right && Get(r, rightOn) == key
  {
    Filter(right, r => Get(r, rightOn) == key)
  }

  /** A left row joined with a matching right row: the right-hand cells are
      added to the left row's. */
  function Joined(l: Row, r: Row): Row {
    l + r
  }

  /** A left row without a match: every right-hand column except the shared
      key is NaN. */
  function Unmatched(l: Row, rightColumns: set<string>, leftOn: string): (u: Row)
    ensures forall c :: c in rightColumns && c != leftOn ==> Get(u, c) == NaN
    ensures forall c :: c !in rightColumns || c == leftOn ==> Get(u, c) == Get(l, c)
  {
    l + map c | c in rightColumns && c != leftOn :: NaN
  }

  function Pairs(l: Row, m: seq<Row>): (p: seq<Row>)
    ensures |p| == |m|
    ensures forall i :: 0 <= i < |m| ==> p[i] == Joined(l, m[i])
  {
    seq(|m|, i requires 0 <= i < |m| => Joined(l, m[i]))
  }

  /** The output rows that one left row contributes. */
  function JoinOne(l: Row, right: Table, leftOn: string, rightOn: string, how: How): seq<Row> {
    var m := Matches(right.rows, rightOn, Get(l, leftOn));
    if m == [] && how == Left then [Unmatched(l, right.columns, leftOn)] else Pairs(l, m)
  }

  function JoinRows(ls: seq<Row>, right: Table, leftOn: string, rightOn: string, how: How): seq<Row> {
    if ls == [] then []
    else JoinRows(ls[..|ls| - 1], right, leftOn, rightOn, how)
         + JoinOne(ls[|ls| - 1], right, leftOn, rightOn, how)
  }

  /** `left.merge(right, left_on=leftOn, right_on=rightOn, how=how)`; a key
      column missing on either side raises KeyError. */
  function Merge(left: Table, right: Table, leftOn: string, rightOn: string, how: How): (r: Result<Table>)
    ensures r.Err? <==> leftOn !in left.columns || rightOn !in right.columns
    ensures r.Ok? ==> (r.value.columns == left.columns + right.columns &&
                       r.value.rows == JoinRows(left.rows, right, leftOn, rightOn, how))
  {
    if leftOn !in left.columns then Err(KeyError(Text(leftOn)))
    else if rightOn !in right.columns then Err(KeyError(Text(rightOn)))
    else Ok(Table(left.columns + right.columns, JoinRows(left.rows, right, leftOn, rightOn, how)))
  }

  // ---------------------------------------------------------------------------
  // Left join

  /** A left join never drops a left row. */
  lemma {:induction false} LeftJoinKeepsRows(ls: seq<Row>, right: Table, leftOn: string, rightOn: string)
    ensures |JoinRows(ls, right, leftOn, rightOn, Left)| >= |ls|
  {
    if ls != [] {
      LeftJoinKeepsRows(ls[..|ls| - 1], right, leftOn, rightOn);
    }
  }

  /** At most one right row carries a given key when the keys are unique. */
  lemma {:induction false} MatchesUnique(right: seq<Row>, rightOn: string, key: Cell)
    requires UniqueKeys(right, rightOn)
    ensures |Matches(right, rightOn, key)| <= 1
  {
    if right != [] {
      var right' := right[..|right| - 1];
      var last := right[|right| - 1];
      assert UniqueKeys(right', rightOn);
      MatchesUnique(right', rightOn, key);
      var p := (r: Row) => Get(r, rightOn) == key;
      assert Filter(right, p) == Filter(right', p) + (if p(last) then [last] else []);
      if p(last) {
        forall x | x in right' ensures !p(x) {
          var i :| 0 <= i < |right'| && right'[i] == x;
          assert Get(right[i], rightOn) != Get(right[|right| - 1], rightOn);
        }
        FilterNone(right', p);
      }
    }
  }

  /** With unique right keys a left join has exactly one row per left row. */
  lemma {:induction false} LeftJoinLength(ls: seq<Row>, right: Table, leftOn: string, rightOn: string)
    requires UniqueKeys(right.rows, rightOn)
    ensures |JoinRows(ls, right, leftOn, rightOn, Left)| == |ls|
  {
    if ls != [] {
      LeftJoinLength(ls[..|ls| - 1], right, leftOn, rightOn);
      LeftJoinOneRow(ls[|ls| - 1], right, leftOn, rightOn);
    }
  }

  /** With unique right keys a left join is row for row: output row `i` is left
      row `i`, extended by its one match or by NaN. */
  lemma {:induction false} LeftJoinAt(ls: seq<Row>, right: Table, leftOn: string, rightOn: string, i: nat)
    requires UniqueKeys(right.rows, rightOn) && i < |ls|
    ensures |JoinRows(ls, right, leftOn, rightOn, Left)| == |ls|
    ensures JoinRows(ls, right, leftOn, rightOn, Left)[i] == JoinOne(ls[i], right, leftOn, rightOn, Left)[0]
  {
    LeftJoinLength(ls, right, leftOn, rightOn);
    if i == |ls| - 1 {
      LeftJoinLast(ls, right, leftOn, rightOn);
    } else {
      var ls' := ls[..|ls| - 1];
      assert ls'[i] == ls[i];
      LeftJoinAt(ls', right, leftOn, rightOn, i);
      LeftJoinPrefix(ls, right, leftOn, rightOn, i);
    }
  }

  /** The run of output rows a left row contributes, as a function of the row. */
  function JoinFn(right: Table, leftOn: string, rightOn: string, how: How): Row -> seq<Row> {
    l => JoinOne(l, right, leftOn, rightOn, how)
  }

  /** A join's rows are the runs its left rows contribute, one after another. */
  lemma {:induction false} JoinRowsRuns(ls: seq<Row>, right: Table, leftOn: string, rightOn: string, how: How)
    ensures JoinRows(ls, right, leftOn, rightOn, how) == Runs(ls, JoinFn(right, leftOn, rightOn, how))
  {
    if ls != [] {
      JoinRowsRuns(ls[..|ls| - 1], right, leftOn, rightOn, how);
    }
  }

  /** Left row `i`'s output rows sit, in order, right after those of the left
      rows before it: the join keeps the left table's order. */
  lemma JoinRowsRun(ls: seq<Row>, right: Table, leftOn: string, rightOn: string, how: How, i: nat)
    requires i < |ls|
    ensures var start := |JoinRows(ls[..i], right, leftOn, rightOn, how)|;
      var run := JoinOne(ls[i], right, leftOn, rightOn, how);
      start + |run| <= |JoinRows(ls, right, leftOn, rightOn, how)|
      && JoinRows(ls, right, leftOn, rightOn, how)[start..start + |run|] == run
  {
    JoinRowsRuns(ls, right, leftOn, rightOn, how);
    JoinRowsRuns(ls[..i], right, leftOn, rightOn, how);
    RunsRun(ls, JoinFn(right, leftOn, rightOn, how), i);
  }

  /** After a column is set on a join's output, the row at position `j` of
      left row `i`'s run is, cell by cell, the joined row there with the
      column set. */
  lemma SetColumnJoinRunCell(b: seq<Row>, cols: set<string>, ls: seq<Row>, right: Table,
                             leftOn: string, rightOn: string, how: How, c: string, v: Cell,
                             i: nat, j: nat, d: string)
    requires b == SetColumn(Table(cols, JoinRows(ls, right, leftOn, rightOn, how)), c, v).rows
    requires i < |ls|
    requires var start := |JoinRows(ls[..i], right, leftOn, rightOn, how)|;
      start <= j < start + |JoinOne(ls[i], right, leftOn, rightOn, how)|
    ensures var start := |JoinRows(ls[..i], right, leftOn, rightOn, how)|;
      var run := JoinOne(ls[i], right, leftOn, rightOn, how);
      && j < |b| && Get(b[j], c) == v
      && (d != c ==> Get(b[j], d) == Get(run[j - start], d))
  {
    var f := JoinFn(right, leftOn, rightOn, how);
    var start := |JoinRows(ls[..i], right, leftOn, rightOn, how)|;
    var run := JoinOne(ls[i], right, leftOn, rightOn, how);
    assert start == |Runs(ls[..i], f)| && run == f(ls[i]) && b == SetColumn(Table(cols, Runs(ls, f)), c, v).rows by {
      JoinRowsRuns(ls, right, leftOn, rightOn, how);
      JoinRowsRuns(ls[..i], right, leftOn, rightOn, how);
    }
    SetColumnRunsCell(b, cols, ls, f, c, v, i, j, d);
  }



  /** A left row yields at least one output row, and each agrees with it on
      the columns the right table does not have. */
  lemma LeftJoinOneKeeps(l: Row, right: Table, leftOn: string, rightOn: string)
    requires Filled(right)
    ensures |JoinOne(l, right, leftOn, rightOn, Left)| >= 1
    ensures forall x, c :: x in JoinOne(l, right, leftOn, rightOn, Left) && c !in right.columns ==> Get(x, c) == Get(l, c)
  {
    var m := Matches(right.rows, rightOn, Get(l, leftOn));
    forall x, c | x in JoinOne(l, right, leftOn, rightOn, Left) && c !in right.columns
      ensures Get(x, c) == Get(l, c)
    {
      if m != [] {
        var k :| 0 <= k < |m| && x == Joined(l, m[k]);
        assert m[k] in m && m[k] in right.rows;
      }
    }
  }

  /** The same, for the row at offset `k` of the run. */
  lemma LeftJoinOneKeepsAt(l: Row, right: Table, leftOn: string, rightOn: string, k: nat, d: string)
    requires Filled(right)
    requires k < |JoinOne(l, right, leftOn, rightOn, Left)|
    ensures d !in right.columns ==> Get(JoinOne(l, right, leftOn, rightOn, Left)[k], d) == Get(l, d)
  {
    LeftJoinOneKeeps(l, right, leftOn, rightOn);
    assert JoinOne(l, right, leftOn, rightOn, Left)[k] in JoinOne(l, right, leftOn, rightOn, Left);
  }

  /** The last left row's output row comes last. */
  lemma LeftJoinLast(ls: seq<Row>, right: Table, leftOn: string, rightOn: string)
    requires UniqueKeys(right.rows, rightOn) && ls != []
    ensures |JoinRows(ls, right, leftOn, rightOn, Left)| == |ls|
    ensures JoinRows(ls, right, leftOn, rightOn, Left)[|ls| - 1] == JoinOne(ls[|ls| - 1], right, leftOn, rightOn, Left)[0]
  {
    JoinRowsSnoc(ls, right, leftOn, rightOn, Left);
    LeftJoinLength(ls, right, leftOn, rightOn);
    LeftJoinLength(ls[..|ls| - 1], right, leftOn, rightOn);
    LeftJoinOneRow(ls[|ls| - 1], right, leftOn, rightOn);
    AppendAt(JoinRows(ls[..|ls| - 1], right, leftOn, rightOn, Left),
             JoinOne(ls[|ls| - 1], right, leftOn, rightOn, Left), |ls| - 1);
  }

  /** Adding a left row at the end leaves the earlier output rows in place. */
  lemma LeftJoinPrefix(ls: seq<Row>, right: Table, leftOn: string, rightOn: string, i: nat)
    requires UniqueKeys(right.rows, rightOn) && i < |ls| - 1
    ensures |JoinRows(ls, right, leftOn, rightOn, Left)| == |ls|
    ensures |JoinRows(ls[..|ls| - 1], right, leftOn, rightOn, Left)| == |ls| - 1
    ensures JoinRows(ls, right, leftOn, rightOn, Left)[i] == JoinRows(ls[..|ls| - 1], right, leftOn, rightOn, Left)[i]
  {
    JoinRowsSnoc(ls, right, leftOn, rightOn, Left);
    LeftJoinLength(ls, right, leftOn, rightOn);
    LeftJoinLength(ls[..|ls| - 1], right, leftOn, rightOn);
    AppendAt(JoinRows(ls[..|ls| - 1], right, leftOn, rightOn, Left),
             JoinOne(ls[|ls| - 1], right, leftOn, rightOn, Left), i);
  }

  /** A join's rows are those of all but the last left row, then the last one's. */
  lemma JoinRowsSnoc(ls: seq<Row>, right: Table, leftOn: string, rightOn: string, how: How)
    requires ls != []
    ensures JoinRows(ls, right, leftOn, rightOn, how)
      == JoinRows(ls[..|ls| - 1], right, leftOn, rightOn, how) + JoinOne(ls[|ls| - 1], right, leftOn, rightOn, how)
  {
  }

  /** Indexing past the first part of a concatenation reads the second part. */
  lemma AppendAt(prev: seq<Row>, one: seq<Row>, i: nat)
    requires i < |prev| + |one|
    ensures (prev + one)[i] == if i < |prev| then prev[i] else one[i - |prev|]
  {
  }

  /** With unique right keys a left row yields exactly one output row. */
  lemma LeftJoinOneRow(l: Row, right: Table, leftOn: string, rightOn: string)
    requires UniqueKeys(right.rows, rightOn)
    ensures |JoinOne(l, right, leftOn, rightOn, Left)| == 1
  {
    MatchesUnique(right.rows, rightOn, Get(l, leftOn));
  }

  /** What a left join puts in a right-hand column: the matched row's cell, or
      NaN when the left key has no match. The left row's own columns that the
      right table does not have are kept. */
  lemma LeftJoinOne(l: Row, right: Table, leftOn: string, rightOn: string, c: string)
    requires Filled(right) && UniqueKeys(right.rows, rightOn)
    requires c in right.columns && c != leftOn
    ensures var m := Matches(right.rows, rightOn, Get(l, leftOn));
      var out := JoinOne(l, right, leftOn, rightOn, Left);
      |out| == 1 &&
      (m == [] ==> Get(out[0], c) == NaN) &&
      (m != [] ==> Get(out[0], c) == Get(m[0], c) && m[0] in right.rows && Get(m[0], rightOn) == Get(l, leftOn))
  {
    MatchesUnique(right.rows, rightOn, Get(l, leftOn));
    var m := Matches(right.rows, rightOn, Get(l, leftOn));
    if m != [] {
      assert m[0] in m && c in m[0];
    }
  }

  /** Every row a left join outputs extends a left row on the columns the right
      table does not have. */
  lemma {:induction false} LeftJoinKeepsLeftCells(ls: seq<Row>, right: Table, leftOn: string, rightOn: string, x: Row)
    requires Filled(right)
    requires x in JoinRows(ls, right, leftOn, rightOn, Left)
    ensures exists l :: l in ls && forall c :: c !in right.columns ==> Get(x, c) == Get(l, c)
  {
    assert ls != [];
    var ls' := ls[..|ls| - 1];
    var l := ls[|ls| - 1];
    if x in JoinRows(ls', right, leftOn, rightOn, Left) {
      LeftJoinKeepsLeftCells(ls', right, leftOn, rightOn, x);
      var l' :| l' in ls' && forall c :: c !in right.columns ==> Get(x, c) == Get(l', c);
      assert l' in ls;
    } else {
      assert x in JoinOne(l, right, leftOn, rightOn, Left);
      var m := Matches(right.rows, rightOn, Get(l, leftOn));
      if m != [] {
        var k :| 0 <= k < |m| && x == Joined(l, m[k]);
        assert m[k] in m && m[k] in right.rows;
        assert forall c :: c !in right.columns ==> Get(x, c) == Get(l, c);
      }
      assert l in ls;
    }
  }

  // ---------------------------------------------------------------------------
  // Inner join

  /** Every inner-join row pairs a left row with a right row of equal key. */
  lemma {:induction false} InnerJoinSound(ls: seq<Row>, right: Table, leftOn: string, rightOn: string, x: Row)
    requires x in JoinRows(ls, right, leftOn, rightOn, Inner)
    ensures exists i, r :: 0 <= i < |ls| && r in right.rows && Get(r, rightOn) == Get(ls[i], leftOn) && x == Joined(ls[i], r)
  {
    var ls' := ls[..|ls| - 1];
    JoinRowsSnoc(ls, right, leftOn, rightOn, Inner);
    if x in JoinRows(ls', right, leftOn, rightOn, Inner) {
      InnerJoinSound(ls', right, leftOn, rightOn, x);
      var i, r :| 0 <= i < |ls'| && r in right.rows && Get(r, rightOn) == Get(ls'[i], leftOn) && x == Joined(ls'[i], r);
      assert ls'[i] == ls[i];
    } else {
      InnerJoinOneMembers(ls[|ls| - 1], right, leftOn, rightOn, x);
    }
  }

  /** Every left row paired with a right row of equal key is an inner-join row. */
  lemma {:induction false} InnerJoinComplete(ls: seq<Row>, right: Table, leftOn: string, rightOn: string, i: nat, r: Row)
    requires i < |ls| && r in right.rows && Get(r, rightOn) == Get(ls[i], leftOn)
    ensures Joined(ls[i], r) in JoinRows(ls, right, leftOn, rightOn, Inner)
  {
    var ls', l := ls[..|ls| - 1], ls[|ls| - 1];
    var prev := JoinRows(ls', right, leftOn, rightOn, Inner);
    var one := JoinOne(l, right, leftOn, rightOn, Inner);
    assert JoinRows(ls, right, leftOn, rightOn, Inner) == prev + one;
    if i == |ls| - 1 {
      InnerJoinOneMembers(l, right, leftOn, rightOn, Joined(l, r));
      assert Joined(ls[i], r) in one;
    } else {
      assert ls'[i] == ls[i];
      InnerJoinComplete(ls', right, leftOn, rightOn, i, r);
      assert Joined(ls[i], r) in prev;
    }
  }

  /** An inner join outputs exactly the joined pairs of a left row and a right
      row with equal keys. */
  lemma InnerJoinMembers(ls: seq<Row>, right: Table, leftOn: string, rightOn: string, x: Row)
    ensures x in JoinRows(ls, right, leftOn, rightOn, Inner) <==>
      exists l, r :: l in ls && r in right.rows && Get(r, rightOn) == Get(l, leftOn) && x == Joined(l, r)
  {
    if x in JoinRows(ls, right, leftOn, rightOn, Inner) {
      InnerJoinSound(ls, right, leftOn, rightOn, x);
      var i, r :| 0 <= i < |ls| && r in right.rows && Get(r, rightOn) == Get(ls[i], leftOn) && x == Joined(ls[i], r);
      assert ls[i] in ls;
    }
    if exists l, r :: l in ls && r in right.rows && Get(r, rightOn) == Get(l, leftOn) && x == Joined(l, r) {
      var l, r :| l in ls && r in right.rows && Get(r, rightOn) == Get(l, leftOn) && x == Joined(l, r);
      var i :| 0 <= i < |ls| && ls[i] == l;
      InnerJoinComplete(ls, right, leftOn, rightOn, i, r);
    }
  }

  /** Each row of `m` gives its pair with `l`. */
  lemma PairsHas(l: Row, m: seq<Row>, r: Row)
    requires r in m
    ensures Joined(l, r) in Pairs(l, m)
  {
    var k :| 0 <= k < |m| && m[k] == r;
    assert Pairs(l, m)[k] == Joined(l, r);
  }

  /** The inner-join rows of one left row are its pairs with the matching right rows. */
  lemma InnerJoinOneMembers(l: Row, right: Table, leftOn: string, rightOn: string, x: Row)
    ensures x in JoinOne(l, right, leftOn, rightOn, Inner) <==>
      exists r :: r in right.rows && Get(r, rightOn) == Get(l, leftOn) && x == Joined(l, r)
  {
    var m := Matches(right.rows, rightOn, Get(l, leftOn));
    var one := JoinOne(l, right, leftOn, rightOn, Inner);
    if x in one {
      var k :| 0 <= k < |m| && one[k] == x;
      assert m[k] in m;
    }
    if exists r :: r in right.rows && Get(r, rightOn) == Get(l, leftOn) && x == Joined(l, r) {
      var r :| r in right.rows && Get(r, rightOn) == Get(l, leftOn) && x == Joined(l, r);
      assert r in m;
      PairsHas(l, m, r);
    }
  }

  /** Every inner-join row has a key present on both sides (joining on one
      shared column name). */
  lemma InnerJoinKeys(ls: seq<Row>, right: Table, on: string, x: Row)
    requires x in JoinRows(ls, right, on, on, Inner)
    ensures Get(x, on) in KeysOf(ls, on) && Get(x, on) in KeysOf(right.rows, on)
  {
    InnerJoinMembers(ls, right, on, on, x);
    var l, r :| l in ls && r in right.rows && Get(r, on) == Get(l, on) && x == Joined(l, r);
    assert Get(x, on) == Get(r, on) || on !in r;
  }

  /** With unique right keys one left row contributes at most one inner-join
      row, which keeps the left row's cell in a column the right rows lack. */
  lemma InnerJoinOne(l: Row, right: Table, on: string, c: string, v: Cell)
    requires UniqueKeys(right.rows, on)
    requires forall r :: r in right.rows ==> c !in r
    ensures var one := JoinOne(l, right, on, on, Inner);
      && |one| <= 1 && (|one| == 1 ==> Get(one[0], c) == Get(l, c))
      && Count(Cells(one, c), v) <= Count(Cells([l], c), v)
  {
    MatchesUnique(right.rows, on, Get(l, on));
    var m := Matches(right.rows, on, Get(l, on));
    var one := JoinOne(l, right, on, on, Inner);
    if m != [] {
      assert m[0] in m && m[0] in right.rows;
      assert Cells(one, c) == Cells([l], c);
    } else {
      assert Cells(one, c) == [];
    }
  }

  /** With unique right keys an inner join is at most row for row, and a
      left-hand column the right table does not have shows no value more often
      after the join than before it. */
  lemma {:induction false} InnerJoinCountsBounded(ls: seq<Row>, right: Table, on: string, c: string, v: Cell)
    requires UniqueKeys(right.rows, on)
    requires forall r :: r in right.rows ==> c !in r
    ensures |JoinRows(ls, right, on, on, Inner)| <= |ls|
    ensures Count(Cells(JoinRows(ls, right, on, on, Inner), c), v) <= Count(Cells(ls, c), v)
  {
    if ls != [] {
      var ls', l := ls[..|ls| - 1], ls[|ls| - 1];
      var before := JoinRows(ls', right, on, on, Inner);
      var one := JoinOne(l, right, on, on, Inner);
      InnerJoinCountsBounded(ls', right, on, c, v);
      InnerJoinOne(l, right, on, c, v);
      CellsAppend(before, one, c);
      CountAppend(Cells(before, c), Cells(one, c), v);
      CountCellsSnoc(ls, c, v);
    }
  }
}
