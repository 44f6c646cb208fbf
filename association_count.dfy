/**
  The tabulation of scripts/plot_sherlock_prost_association_count.py: Prost's
  catalogue releases relabelled to display categories, candidates restricted
  to those with a TNS classification, both cross-match tables inner-joined to
  them on `objectId`, and the category counts before and after the join.
 */
module AssociationCount {
  import opened Frames
  import Joins

  const CatalogueColumn := "best_cat_release"
  const ClassColumn := "tns_classification_mapped"
  const SherlockColumn := "catalogue_table_name"
  const ObjectId := "objectId"
  const WithoutHost := "Without host"

  /** Prost's catalogue release codes and their display names. */
  const CategoryMapping: seq<(string, string)> := [
    ("dr9", "DECaLS DR9"),
    ("dr2", "Pan-STARRS DR2"),
    ("latest", "GLADE+")
  ]

  // ---------------------------------------------------------------------------
  // Relabelling

  /** `.map(category_mapping).fillna("Without host")` on one cell. */
  function Relabel(c: Cell): (r: Cell)
    ensures r in {Text("DECaLS DR9"), Text("Pan-STARRS DR2"), Text("GLADE+"), Text(WithoutHost)}
  {
    if c.Text? && Lookup(CategoryMapping, c.s).Some? then Text(Lookup(CategoryMapping, c.s).value)
    else Text(WithoutHost)
  }

  /** The three release codes go to their display names and everything else,
      NaN included, to "Without host". */
  lemma RelabelCases(c: Cell)
    ensures Relabel(c) == Text("DECaLS DR9") <==> c == Text("dr9")
    ensures Relabel(c) == Text("Pan-STARRS DR2") <==> c == Text("dr2")
    ensures Relabel(c) == Text("GLADE+") <==> c == Text("latest")
    ensures Relabel(c) == Text(WithoutHost) <==> c !in {Text("dr9"), Text("dr2"), Text("latest")}
  {
    assert Lookup(CategoryMapping, "dr9") == Some("DECaLS DR9");
    assert Lookup(CategoryMapping, "dr2") == Some("Pan-STARRS DR2");
    assert Lookup(CategoryMapping, "latest") == Some("GLADE+");
    if c.Text? && Lookup(CategoryMapping, c.s).Some? {
      var i :| 0 <= i < |CategoryMapping| && CategoryMapping[i] == (c.s, Lookup(CategoryMapping, c.s).value);
      assert i == 0 || i == 1 || i == 2;
    }
  }

  /** The assignment to `prost_df["best_cat_release"]`: one relabelled cell per
      row, every other cell and the row count unchanged. */
  function RelabelCatalogue(t: Table): (r: Result<Table>)
    ensures r.Err? <==> CatalogueColumn !in t.columns
    ensures r.Ok? ==> r.value.columns == t.columns && |r.value.rows| == |t.rows|
    ensures r.Ok? ==> forall i :: 0 <= i < |t.rows| ==>
      && Get(r.value.rows[i], CatalogueColumn) == Relabel(Get(t.rows[i], CatalogueColumn))
      && forall c :: c != CatalogueColumn ==> Get(r.value.rows[i], c) == Get(t.rows[i], c)
  {
    if CatalogueColumn !in t.columns then Err(KeyError(Text(CatalogueColumn)))
    else
      Ok(Table(t.columns, seq(|t.rows|, i requires 0 <= i < |t.rows| =>
        t.rows[i][CatalogueColumn := Relabel(Get(t.rows[i], CatalogueColumn))])))
  }

  /** After relabelling every Prost row shows one of the four categories. */
  lemma RelabelledCategories(t: Table, i: nat)
    requires RelabelCatalogue(t).Ok? && i < |t.rows|
    ensures Get(RelabelCatalogue(t).value.rows[i], CatalogueColumn)
      in {Text("DECaLS DR9"), Text("Pan-STARRS DR2"), Text("GLADE+"), Text(WithoutHost)}
  {
    var c := Get(t.rows[i], CatalogueColumn);
    if c.Text? && Lookup(CategoryMapping, c.s).Some? {
      var k :| 0 <= k < |CategoryMapping| && CategoryMapping[k] == (c.s, Lookup(CategoryMapping, c.s).value);
    }
  }

  // ---------------------------------------------------------------------------
  // Classified candidates

  /** `notna()` on the classification. */
  predicate Classified(x: Row) {
    Get(x, ClassColumn) != NaN
  }

  /** `candidates_df[candidates_df["tns_classification_mapped"].notna()]`. */
  function ClassifiedCandidates(t: Table): (r: Result<Table>)
    ensures r.Err? <==> ClassColumn !in t.columns
    ensures r.Ok? ==> r.value.columns == t.columns
    ensures r.Ok? ==> forall x :: x in r.value.rows <==> x in t.rows && Classified(x)
  {
    if ClassColumn !in t.columns then Err(KeyError(Text(ClassColumn)))
    else Ok(Where(t, Classified))
  }

  /** The selection keeps the candidates' order: selecting from two stacked
      tables stacks the selections. */
  lemma ClassifiedOrder(a: Table, b: Table)
    requires ClassColumn in a.columns && a.columns == b.columns
    ensures ClassifiedCandidates(Table(a.columns, a.rows + b.rows)).value.rows
         == ClassifiedCandidates(a).value.rows + ClassifiedCandidates(b).value.rows
  {
    FilterAppend(a.rows, b.rows, Classified);
  }

  /** An inner join with the classified candidates keeps only objects present
      on both sides, and every row it outputs carries a classification. */
  lemma JoinedClassified(left: Table, candidates: Table, x: Row)
    requires ClassifiedCandidates(candidates).Ok?
    requires Joins.Merge(left, ClassifiedCandidates(candidates).value, ObjectId, ObjectId, Joins.Inner).Ok?
    requires x in Joins.Merge(left, ClassifiedCandidates(candidates).value, ObjectId, ObjectId, Joins.Inner).value.rows
    ensures Get(x, ObjectId) in KeysOf(left.rows, ObjectId)
    ensures Get(x, ObjectId) in KeysOf(candidates.rows, ObjectId)
    ensures Get(x, ObjectId) in KeysOf(ClassifiedCandidates(candidates).value.rows, ObjectId)
    ensures Classified(x)
  {
    var filtered := ClassifiedCandidates(candidates).value;
    Joins.InnerJoinMembers(left.rows, filtered, ObjectId, ObjectId, x);
    var l, r :| l in left.rows && r in filtered.rows && Get(r, ObjectId) == Get(l, ObjectId) && x == Joins.Joined(l, r);
    assert ClassColumn in r;
    assert Get(x, ObjectId) == Get(l, ObjectId);
    assert Get(x, ObjectId) in KeysOf(filtered.rows, ObjectId);
  }

  /** A column the candidates do not have keeps, through the inner join, only
      values it had before. */
  lemma JoinedKeepsColumn(left: Table, candidates: Table, c: string, x: Row)
    requires ClassifiedCandidates(candidates).Ok?
    requires forall r :: r in candidates.rows ==> c !in r
    requires Joins.Merge(left, ClassifiedCandidates(candidates).value, ObjectId, ObjectId, Joins.Inner).Ok?
    requires x in Joins.Merge(left, ClassifiedCandidates(candidates).value, ObjectId, ObjectId, Joins.Inner).value.rows
    ensures Get(x, c) in Cells(left.rows, c)
  {
    var filtered := ClassifiedCandidates(candidates).value;
    Joins.InnerJoinMembers(left.rows, filtered, ObjectId, ObjectId, x);
    var l, r :| l in left.rows && r in filtered.rows && Get(r, ObjectId) == Get(l, ObjectId) && x == Joins.Joined(l, r);
    var i :| 0 <= i < |left.rows| && left.rows[i] == l;
    assert Cells(left.rows, c)[i] == Get(x, c);
  }

  // ---------------------------------------------------------------------------
  // Count tables

  /** `counts.get(label, 0)`, and the `fillna(0)` of an absent label. */
  function CountOf(counts: seq<(Cell, nat)>, v: Cell): (n: nat)
    ensures Lookup(counts, v).None? ==> n == 0
  {
    match Lookup(counts, v)
    case Some(n) => n
    case None => 0
  }

  /** On `value_counts` output the lookup is the number of occurrences. */
  lemma CountOfValueCounts(col: seq<Cell>, v: Cell)
    ensures CountOf(ValueCounts(col), v) == Count(col, v)
  {
    ValueCountsLookup(col, v);
  }

  function Labels(counts: seq<(Cell, nat)>): (ls: seq<Cell>)
    ensures |ls| == |counts| && forall i :: 0 <= i < |counts| ==> ls[i] == counts[i].0
  {
    seq(|counts|, i requires 0 <= i < |counts| => counts[i].0)
  }

  /** One line of `prost_counts`: a category with its count among all Prost
      rows and among the classified ones. */
  datatype CountRow = CountRow(category: Cell, candidates: nat, classified: nat)

  function CountRows(labels: seq<Cell>, before: seq<(Cell, nat)>, after: seq<(Cell, nat)>): (rows: seq<CountRow>)
    ensures |rows| == |labels|
    ensures forall i :: 0 <= i < |labels| ==>
      rows[i] == CountRow(labels[i], CountOf(before, labels[i]), CountOf(after, labels[i]))
  {
    if labels == [] then []
    else
      var last := labels[|labels| - 1];
      CountRows(labels[..|labels| - 1], before, after) + [CountRow(last, CountOf(before, last), CountOf(after, last))]
  }

  /** `pd.DataFrame({...: before, ...: after}).fillna(0)`: one line per label
      of either series, 0 where a series lacks the label. */
  function CountsTable(before: seq<(Cell, nat)>, after: seq<(Cell, nat)>): (rows: seq<CountRow>)
    ensures forall i, j :: 0 <= i < j < |rows| ==> rows[i].category != rows[j].category
    ensures forall i :: 0 <= i < |rows| ==> rows[i].category in Labels(before) || rows[i].category in Labels(after)
    ensures forall i :: 0 <= i < |rows| ==>
      rows[i].candidates == CountOf(before, rows[i].category) && rows[i].classified == CountOf(after, rows[i].category)
  {
    var u := Unique(Labels(before) + Labels(after));
    assert forall i :: 0 <= i < |u| ==> u[i] in u;
    CountRows(u, before, after)
  }

  function CandidateTotal(rows: seq<CountRow>): nat {
    if rows == [] then 0 else CandidateTotal(rows[..|rows| - 1]) + rows[|rows| - 1].candidates
  }

  function ClassifiedTotal(rows: seq<CountRow>): nat {
    if rows == [] then 0 else ClassifiedTotal(rows[..|rows| - 1]) + rows[|rows| - 1].classified
  }

  lemma {:induction false} CountRowsTotals(u: seq<Cell>, col1: seq<Cell>, col2: seq<Cell>)
    ensures CandidateTotal(CountRows(u, ValueCounts(col1), ValueCounts(col2))) == Total(CountsFor(u, col1))
    ensures ClassifiedTotal(CountRows(u, ValueCounts(col1), ValueCounts(col2))) == Total(CountsFor(u, col2))
  {
    if u != [] {
      var u', last := u[..|u| - 1], u[|u| - 1];
      CountRowsTotals(u', col1, col2);
      CountOfValueCounts(col1, last);
      CountOfValueCounts(col2, last);
      var rows := CountRows(u, ValueCounts(col1), ValueCounts(col2));
      assert rows[..|rows| - 1] == CountRows(u', ValueCounts(col1), ValueCounts(col2));
      assert CountsFor(u, col1)[..|u| - 1] == CountsFor(u', col1);
      assert CountsFor(u, col2)[..|u| - 1] == CountsFor(u', col2);
    }
  }

  /** `value_counts` has a label for each value of the column and no other. */
  lemma LabelsOfValueCounts(col: seq<Cell>)
    ensures forall v :: v in Labels(ValueCounts(col)) <==> v in col
  {
    var ls := Labels(ValueCounts(col));
    forall v ensures v in ls <==> v in col {
      if v in col {
        var k :| 0 <= k < |Unique(col)| && Unique(col)[k] == v;
        assert ls[k] == v;
      }
      if v in ls {
        var k :| 0 <= k < |ls| && ls[k] == v;
        assert Unique(col)[k] in Unique(col);
      }
    }
  }

  /** The labels of the count table: each distinct value of either column, once. */
  lemma CountsTableLabels(col1: seq<Cell>, col2: seq<Cell>)
    ensures var table := CountsTable(ValueCounts(col1), ValueCounts(col2));
      && (forall i, j :: 0 <= i < j < |table| ==> table[i].category != table[j].category)
      && (forall v :: v in col1 || v in col2 ==> exists i :: 0 <= i < |table| && table[i].category == v)
      && (forall i :: 0 <= i < |table| ==> table[i].category in col1 || table[i].category in col2)
  {
    LabelsOfValueCounts(col1);
    LabelsOfValueCounts(col2);
    var u := Unique(Labels(ValueCounts(col1)) + Labels(ValueCounts(col2)));
    var table := CountsTable(ValueCounts(col1), ValueCounts(col2));
    assert forall i :: 0 <= i < |table| ==> table[i].category == u[i];
    forall v | v in col1 || v in col2 ensures exists i :: 0 <= i < |table| && table[i].category == v {
      assert v in u;
      var i :| 0 <= i < |u| && u[i] == v;
    }
    forall i | 0 <= i < |table| ensures table[i].category in col1 || table[i].category in col2 {
      assert u[i] in u;
    }
  }

  /** Each line of the count table holds the two numbers of occurrences, 0
      for a value the column lacks. */
  lemma CountsTableCounts(col1: seq<Cell>, col2: seq<Cell>)
    ensures var table := CountsTable(ValueCounts(col1), ValueCounts(col2));
      forall i :: 0 <= i < |table| ==>
        table[i].candidates == Count(col1, table[i].category) && table[i].classified == Count(col2, table[i].category)
  {
    var table := CountsTable(ValueCounts(col1), ValueCounts(col2));
    forall i | 0 <= i < |table|
      ensures table[i].candidates == Count(col1, table[i].category)
      ensures table[i].classified == Count(col2, table[i].category)
    {
      CountOfValueCounts(col1, table[i].category);
      CountOfValueCounts(col2, table[i].category);
    }
  }

  /** Each column of the count table sums to its column's length: every row is
      counted once under its category. */
  lemma CountsTableTotals(col1: seq<Cell>, col2: seq<Cell>)
    ensures CandidateTotal(CountsTable(ValueCounts(col1), ValueCounts(col2))) == |col1|
    ensures ClassifiedTotal(CountsTable(ValueCounts(col1), ValueCounts(col2))) == |col2|
  {
    var u := Unique(Labels(ValueCounts(col1)) + Labels(ValueCounts(col2)));
    CountsTableLabels(col1, col2);
    var table := CountsTable(ValueCounts(col1), ValueCounts(col2));
    assert forall v :: v in col1 || v in col2 ==> v in u by {
      forall v | v in col1 || v in col2 ensures v in u {
        var i :| 0 <= i < |table| && table[i].category == v;
      }
    }
    CountRowsTotals(u, col1, col2);
    TotalCounts(u, col1);
    TotalCounts(u, col2);
    CountInAll(col1, u);
    CountInAll(col2, u);
  }

  // ---------------------------------------------------------------------------
  // two_categories

  /** The two numbers `two_categories` returns. */
  datatype Split = Split(withoutAssociation: nat, withAssociation: int)

  /** A catalogue value that counts as an association: anything but "0", NaN included. */
  predicate Associated(c: Cell) {
    c != Text("0")
  }

  /** two_categories: the count under "0" (0 when absent) and the rest of the sum. */
  function TwoCategories(counts: seq<(Cell, nat)>): (s: Split)
    ensures s.withoutAssociation + s.withAssociation == Total(counts)
  {
    var zero := CountOf(counts, Text("0"));
    Split(zero, Total(counts) - zero)
  }

  lemma {:induction false} CountAssociated(col: seq<Cell>)
    ensures Count(col, Text("0")) + |Filter(col, Associated)| == |col|
  {
    if col != [] {
      CountAssociated(col[..|col| - 1]);
    }
  }

  /** On a column's `value_counts(dropna=False)`, the split counts the "0"
      rows and the other rows (missing values among them), and covers the column. */
  lemma TwoCategoriesOfColumn(col: seq<Cell>)
    ensures TwoCategories(ValueCounts(col)).withoutAssociation == Count(col, Text("0"))
    ensures TwoCategories(ValueCounts(col)).withAssociation == |Filter(col, Associated)|
    ensures TwoCategories(ValueCounts(col)).withoutAssociation
          + TwoCategories(ValueCounts(col)).withAssociation == |col|
  {
    CountOfValueCounts(col, Text("0"));
    ValueCountsTotal(col);
    CountAssociated(col);
  }

  // ---------------------------------------------------------------------------
  // The whole tabulation

  /** What the script plots: Prost's category counts and Sherlock's two-way
      split, each before and after restricting to classified candidates. */
  datatype Tabulation = Tabulation(prostCounts: seq<CountRow>, sherlockBefore: Split, sherlockAfter: Split)

  /** The script's statements in order, each raising KeyError on a missing column. */
  function Tabulate(prost: Table, sherlock: Table, candidates: Table): (r: Result<Tabulation>)
    ensures r.Err? <==>
      || CatalogueColumn !in prost.columns || ObjectId !in prost.columns
      || ClassColumn !in candidates.columns || ObjectId !in candidates.columns
      || ObjectId !in sherlock.columns || SherlockColumn !in sherlock.columns
  {
    match RelabelCatalogue(prost)
    case Err(e) => Err(e)
    case Ok(relabelled) =>
      match ClassifiedCandidates(candidates)
      case Err(e) => Err(e)
      case Ok(filtered) =>
        match Joins.Merge(relabelled, filtered, ObjectId, ObjectId, Joins.Inner)
        case Err(e) => Err(e)
        case Ok(prostMerged) =>
          var before := ValueCounts(Cells(relabelled.rows, CatalogueColumn));
          var after := ValueCounts(Cells(prostMerged.rows, CatalogueColumn));
          match Joins.Merge(sherlock, filtered, ObjectId, ObjectId, Joins.Inner)
          case Err(e) => Err(e)
          case Ok(sherlockMerged) =>
            if SherlockColumn !in sherlock.columns then Err(KeyError(Text(SherlockColumn)))
            else
              Ok(Tabulation(CountsTable(before, after),
                            TwoCategories(ValueCounts(Cells(sherlock.rows, SherlockColumn))),
                            TwoCategories(ValueCounts(Cells(sherlockMerged.rows, SherlockColumn)))))
  }

  /** The tabulation's totals: the "Hostless candidates" column sums to the
      number of Prost rows and Sherlock's split before the join covers its
      rows; the split after the join covers the joined rows. */
  lemma TabulateTotals(prost: Table, sherlock: Table, candidates: Table)
    requires Tabulate(prost, sherlock, candidates).Ok?
    ensures var tab := Tabulate(prost, sherlock, candidates).value;
      && CandidateTotal(tab.prostCounts) == |prost.rows|
      && tab.sherlockBefore.withoutAssociation + tab.sherlockBefore.withAssociation == |sherlock.rows|
      && tab.sherlockAfter.withoutAssociation + tab.sherlockAfter.withAssociation
         == |Joins.JoinRows(sherlock.rows, ClassifiedCandidates(candidates).value, ObjectId, ObjectId, Joins.Inner)|
  {
    var relabelled := RelabelCatalogue(prost).value;
    var filtered := ClassifiedCandidates(candidates).value;
    var prostMerged := Joins.Merge(relabelled, filtered, ObjectId, ObjectId, Joins.Inner).value;
    var sherlockMerged := Joins.Merge(sherlock, filtered, ObjectId, ObjectId, Joins.Inner).value;
    CountsTableTotals(Cells(relabelled.rows, CatalogueColumn), Cells(prostMerged.rows, CatalogueColumn));
    TwoCategoriesOfColumn(Cells(sherlock.rows, SherlockColumn));
    TwoCategoriesOfColumn(Cells(sherlockMerged.rows, SherlockColumn));
  }

  /** When each candidate has one row and the candidates carry neither
      catalogue column, joining only removes rows: every Prost category and
      Sherlock's "0" are counted no more often after the join than before,
      and a Prost category missing after the join shows 0. */
  lemma TabulateBounded(prost: Table, sherlock: Table, candidates: Table)
    requires Tabulate(prost, sherlock, candidates).Ok?
    requires UniqueKeys(candidates.rows, ObjectId)
    requires forall r :: r in candidates.rows ==> CatalogueColumn !in r && SherlockColumn !in r
    ensures var tab := Tabulate(prost, sherlock, candidates).value;
      && (forall i :: 0 <= i < |tab.prostCounts| ==> tab.prostCounts[i].classified <= tab.prostCounts[i].candidates)
      && (forall i :: 0 <= i < |tab.prostCounts| ==> tab.prostCounts[i].candidates > 0)
      && tab.sherlockAfter.withoutAssociation <= tab.sherlockBefore.withoutAssociation
  {
    var relabelled := RelabelCatalogue(prost).value;
    var filtered := ClassifiedCandidates(candidates).value;
    var prostMerged := Joins.Merge(relabelled, filtered, ObjectId, ObjectId, Joins.Inner).value;
    var sherlockMerged := Joins.Merge(sherlock, filtered, ObjectId, ObjectId, Joins.Inner).value;
    var col1, col2 := Cells(relabelled.rows, CatalogueColumn), Cells(prostMerged.rows, CatalogueColumn);
    var tab := Tabulate(prost, sherlock, candidates).value;
    FilterUniqueKeys(candidates.rows, ObjectId, Classified);
    CountsTableLabels(col1, col2);
    CountsTableCounts(col1, col2);
    forall i | 0 <= i < |tab.prostCounts|
      ensures tab.prostCounts[i].classified <= tab.prostCounts[i].candidates
      ensures tab.prostCounts[i].candidates > 0
    {
      var v := tab.prostCounts[i].category;
      Joins.InnerJoinCountsBounded(relabelled.rows, filtered, ObjectId, CatalogueColumn, v);
      if v in col2 {
        var k :| 0 <= k < |col2| && col2[k] == v;
        JoinedKeepsColumn(relabelled, candidates, CatalogueColumn, prostMerged.rows[k]);
      }
    }
    Joins.InnerJoinCountsBounded(sherlock.rows, filtered, ObjectId, SherlockColumn, Text("0"));
    TwoCategoriesOfColumn(Cells(sherlock.rows, SherlockColumn));
    TwoCategoriesOfColumn(Cells(sherlockMerged.rows, SherlockColumn));
  }
}
