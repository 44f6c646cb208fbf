/**
  Keep-brightest deduplication of a reference catalogue:
  `df.sort_values(mag).drop_duplicates(subset=host, keep="first")`.
  The sort is ascending with NaN last. pandas' default sort is not stable; the
  insertion sort below is one admissible order, and the properties proved for
  the deduplicated table hold whichever tied row a sort puts first: they speak
  of the magnitude kept, never of which tied row carries it.
 */
module Dedup {
  import opened Frames

  /** The order `sort_values` puts magnitudes in: numbers ascending, then NaN
      (anything that is not a number sorts with NaN). */
  predicate MagLe(a: Cell, b: Cell) {
    match (a, b)
    case (Num(x), Num(y)) => x <= y
    case (Num(_), _) => true
    case (_, Num(_)) => false
    case _ => true
  }

  ghost predicate SortedBy(rows: seq<Row>, c: string) {
    forall i, j :: 0 <= i < j < |rows| ==> MagLe(Get(rows[i], c), Get(rows[j], c))
  }

  /** Puts `x` in front of the first row that does not sort strictly before it. */
  function Insert(x: Row, rows: seq<Row>, c: string): (r: seq<Row>)
    ensures multiset(r) == multiset(rows) + multiset{x}
  {
    if rows == [] then [x]
    else if MagLe(Get(x, c), Get(rows[0], c)) then [x] + rows
    else
      assert rows == [rows[0]] + rows[1..];
      [rows[0]] + Insert(x, rows[1..], c)
  }

  lemma {:induction false} InsertMembers(x: Row, rows: seq<Row>, c: string, y: Row)
    requires y in Insert(x, rows, c)
    ensures y == x || y in rows
  {
    if rows != [] && !MagLe(Get(x, c), Get(rows[0], c)) && y != rows[0] {
      InsertMembers(x, rows[1..], c, y);
    }
  }

  /** A row that sorts no later than every row of a sorted sequence can go in front. */
  lemma ConsSorted(h: Row, rest: seq<Row>, c: string)
    requires SortedBy(rest, c)
    requires forall y :: y in rest ==> MagLe(Get(h, c), Get(y, c))
    ensures SortedBy([h] + rest, c)
  {
    forall i, j | 0 <= i < j < |rest| + 1 ensures MagLe(Get(([h] + rest)[i], c), Get(([h] + rest)[j], c)) {
      assert ([h] + rest)[j] == rest[j - 1];
      if i == 0 {
        assert rest[j - 1] in rest;
      } else {
        assert ([h] + rest)[i] == rest[i - 1];
      }
    }
  }

  /** Inserting into sorted rows keeps them sorted. */
  lemma {:induction false} InsertSorted(x: Row, rows: seq<Row>, c: string)
    requires SortedBy(rows, c)
    ensures SortedBy(Insert(x, rows, c), c)
  {
    if rows != [] {
      if MagLe(Get(x, c), Get(rows[0], c)) {
        forall y | y in rows ensures MagLe(Get(x, c), Get(y, c)) {
          var k :| 0 <= k < |rows| && rows[k] == y;
          if k > 0 {
            assert MagLe(Get(rows[0], c), Get(rows[k], c));
          }
        }
        ConsSorted(x, rows, c);
      } else {
        var rest := Insert(x, rows[1..], c);
        assert SortedBy(rows[1..], c);
        InsertSorted(x, rows[1..], c);
        forall y | y in rest ensures MagLe(Get(rows[0], c), Get(y, c)) {
          InsertMembers(x, rows[1..], c, y);
          if y != x {
            var k :| 0 <= k < |rows[1..]| && rows[1..][k] == y;
            assert rows[k + 1] == y;
          }
        }
        ConsSorted(rows[0], rest, c);
      }
    }
  }

  /** `sort_values(c)`: ascending by `c`, NaN last, a permutation of the rows. */
  function SortValues(rows: seq<Row>, c: string): (r: seq<Row>)
    ensures multiset(r) == multiset(rows)
    ensures SortedBy(r, c)
  {
    if rows == [] then []
    else
      assert rows == [rows[0]] + rows[1..];
      InsertSorted(rows[0], SortValues(rows[1..], c), c);
      Insert(rows[0], SortValues(rows[1..], c), c)
  }

  /** Sorting rows that are already in order changes nothing. */
  lemma {:induction false} SortValuesSorted(rows: seq<Row>, c: string)
    requires SortedBy(rows, c)
    ensures SortValues(rows, c) == rows
  {
    if rows != [] {
      assert SortedBy(rows[1..], c);
      SortValuesSorted(rows[1..], c);
      if |rows| > 1 {
        assert rows[1..][0] == rows[1];
      }
    }
  }

  /** `drop_duplicates(subset=c, keep="first")`: a row is kept when no earlier
      row has its key. Like pandas, two NaN keys count as duplicates. */
  function DropDuplicates(rows: seq<Row>, c: string): (r: seq<Row>)
    ensures forall x :: x in r ==> x in rows
    ensures KeysOf(r, c) == KeysOf(rows, c)
    ensures UniqueKeys(r, c)
  {
    if rows == [] then []
    else
      var init, last := rows[..|rows| - 1], rows[|rows| - 1];
      var r' := DropDuplicates(init, c);
      assert rows == init + [last];
      assert KeysOf(rows, c) == KeysOf(init, c) + {Get(last, c)};
      if Get(last, c) in KeysOf(init, c) then r'
      else
        assert KeysOf(r' + [last], c) == KeysOf(r', c) + {Get(last, c)};
        r' + [last]
  }

  /** The positions of the rows that carry a key for the first time. */
  ghost function FirstPositions(rows: seq<Row>, c: string): seq<nat> {
    if rows == [] then []
    else
      var init := rows[..|rows| - 1];
      if Get(rows[|rows| - 1], c) in KeysOf(init, c) then FirstPositions(init, c)
      else FirstPositions(init, c) + [|rows| - 1]
  }

  /** `keep="first"`: the kept rows are, in their original order, rows whose
      key no earlier row carries. */
  lemma {:induction false} DropDuplicatesFirst(rows: seq<Row>, c: string)
    ensures var r, ix := DropDuplicates(rows, c), FirstPositions(rows, c);
      && |ix| == |r|
      && (forall p :: 0 <= p < |ix| ==>
            ix[p] < |rows| && r[p] == rows[ix[p]] && Get(rows[ix[p]], c) !in KeysOf(rows[..ix[p]], c))
      && (forall p, q :: 0 <= p < q < |ix| ==> ix[p] < ix[q])
  {
    if rows != [] {
      var init, last := rows[..|rows| - 1], rows[|rows| - 1];
      DropDuplicatesFirst(init, c);
      var r', ix' := DropDuplicates(init, c), FirstPositions(init, c);
      forall p | 0 <= p < |ix'|
        ensures ix'[p] < |init| && rows[ix'[p]] == init[ix'[p]] && rows[..ix'[p]] == init[..ix'[p]]
      {
      }
      if Get(last, c) !in KeysOf(init, c) {
        assert rows[..|init|] == init;
      }
    }
  }

  /** Deduplicating a sorted table leaves it sorted. */
  lemma {:induction false} DropDuplicatesSorted(rows: seq<Row>, c: string, k: string)
    requires SortedBy(rows, c)
    ensures SortedBy(DropDuplicates(rows, k), c)
  {
    if rows != [] {
      var init, last := rows[..|rows| - 1], rows[|rows| - 1];
      assert SortedBy(init, c);
      DropDuplicatesSorted(init, c, k);
      var r' := DropDuplicates(init, k);
      forall x | x in r' ensures MagLe(Get(x, c), Get(last, c)) {
        var i :| 0 <= i < |init| && init[i] == x;
        assert rows[i] == x;
      }
    }
  }

  /** A table whose keys are already unique is left as it is. */
  lemma {:induction false} DropDuplicatesUnique(rows: seq<Row>, c: string)
    requires UniqueKeys(rows, c)
    ensures DropDuplicates(rows, c) == rows
  {
    if rows != [] {
      var init, last := rows[..|rows| - 1], rows[|rows| - 1];
      assert UniqueKeys(init, c);
      DropDuplicatesUnique(init, c);
      assert Get(last, c) !in KeysOf(init, c) by {
        forall x | x in init ensures Get(x, c) != Get(last, c) {
          var i :| 0 <= i < |init| && init[i] == x;
          assert rows[i] == x;
        }
      }
      assert rows == init + [last];
    }
  }

  /** In a sorted table the first row with a key sorts no later than any other
      row with that key, so the row deduplication keeps for a key carries the
      least value of `c` among the rows with that key. */
  lemma {:induction false} KeptIsLeast(rows: seq<Row>, k: string, c: string, x: Row, y: Row)
    requires SortedBy(rows, c)
    requires x in DropDuplicates(rows, k) && y in rows && Get(x, k) == Get(y, k)
    ensures MagLe(Get(x, c), Get(y, c))
  {
    var init, last := rows[..|rows| - 1], rows[|rows| - 1];
    assert rows == init + [last];
    var r' := DropDuplicates(init, k);
    if x in r' {
      if y == last {
        var i :| 0 <= i < |init| && init[i] == x;
        assert rows[i] == x;
      } else {
        assert SortedBy(init, c);
        assert y in init;
        KeptIsLeast(init, k, c, x, y);
      }
    } else {
      assert x == last && Get(last, k) !in KeysOf(init, k);
      assert y == last;
    }
  }

  lemma DropDuplicatesKeepsLeast(rows: seq<Row>, k: string, c: string)
    requires SortedBy(rows, c)
    ensures forall x, y :: x in DropDuplicates(rows, k) && y in rows && Get(x, k) == Get(y, k) ==>
      MagLe(Get(x, c), Get(y, c))
  {
    forall x, y | x in DropDuplicates(rows, k) && y in rows && Get(x, k) == Get(y, k)
      ensures MagLe(Get(x, c), Get(y, c))
    {
      KeptIsLeast(rows, k, c, x, y);
    }
  }

  /** The PS1 reference table's deduplication: the brightest row per host. */
  function KeepBrightest(rows: seq<Row>, host: string, mag: string): (r: seq<Row>)
    ensures forall x :: x in r ==> x in rows
    ensures KeysOf(r, host) == KeysOf(rows, host)
    ensures UniqueKeys(r, host)
    ensures forall x, y :: x in r && y in rows && Get(x, host) == Get(y, host) ==>
      MagLe(Get(x, mag), Get(y, mag))
  {
    var sorted := SortValues(rows, mag);
    assert forall x :: x in sorted <==> x in rows by {
      forall x ensures x in sorted <==> x in rows {
        assert x in sorted <==> x in multiset(sorted);
        assert x in rows <==> x in multiset(rows);
      }
    }
    assert KeysOf(sorted, host) == KeysOf(rows, host);
    DropDuplicatesKeepsLeast(sorted, host, mag);
    DropDuplicates(sorted, host)
  }

  /** A numeric magnitude is never beaten by the one kept: the kept value is
      the minimum numeric magnitude of its host, and NaN only when the host has
      no numeric magnitude at all. */
  lemma KeepBrightestMinimum(rows: seq<Row>, host: string, mag: string, x: Row, y: Row)
    requires x in KeepBrightest(rows, host, mag) && y in rows && Get(x, host) == Get(y, host)
    requires Get(y, mag).Num?
    ensures Get(x, mag).Num? && Get(x, mag).x <= Get(y, mag).x
  {
  }

  /** Deduplicating twice is the same as deduplicating once. */
  lemma KeepBrightestIdempotent(rows: seq<Row>, host: string, mag: string)
    ensures KeepBrightest(KeepBrightest(rows, host, mag), host, mag) == KeepBrightest(rows, host, mag)
  {
    var once := KeepBrightest(rows, host, mag);
    var sorted := SortValues(rows, mag);
    DropDuplicatesSorted(sorted, mag, host);
    SortValuesSorted(once, mag);
    DropDuplicatesUnique(once, host);
  }

  /** When every row has the same host, exactly one row survives. */
  lemma OneHostOneRow(rows: seq<Row>, host: string, mag: string, key: Cell)
    requires rows != [] && forall y :: y in rows ==> Get(y, host) == key
    ensures |KeepBrightest(rows, host, mag)| == 1
  {
    var r := KeepBrightest(rows, host, mag);
    assert rows[0] in rows;
    assert KeysOf(rows, host) == {key};
    UniqueKeysCount(r, host);
  }

  /** Two rows for host "A" with r-band magnitudes 18.2 and 17.9 leave the one
      with 17.9. */
  lemma KeepBrightestExample(a: Row, b: Row)
    requires a == map["objID" := Text("A"), "rMeanKronMag" := Num(18.2)]
    requires b == map["objID" := Text("A"), "rMeanKronMag" := Num(17.9)]
    ensures KeepBrightest([a, b], "objID", "rMeanKronMag") == [b]
  {
    var r := KeepBrightest([a, b], "objID", "rMeanKronMag");
    OneHostOneRow([a, b], "objID", "rMeanKronMag", Text("A"));
    assert r[0] in [a, b];
    assert MagLe(Get(r[0], "rMeanKronMag"), Get(b, "rMeanKronMag"));
    assert r[0] != a;
    assert r == [b];
  }
}
