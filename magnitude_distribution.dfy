/**
  The host-metadata pipeline of scripts/plot_magnitude_distribution.py:
  load each survey's reference catalogue (two columns, numeric magnitude,
  brightest row per host for PS1), left-join cross-match results to it survey
  by survey, copy each row's survey-specific magnitude into `magnitude`, keep
  the magnitudes in a closed interval, and count per survey the hosts fainter
  than the ZTF r-band limit.
 */
module MagnitudeDistribution {
  import opened Frames
  import opened Dedup
  import Joins

  /** Where a survey's reference catalogue lives and which of its columns hold
      the host identifier and the magnitude. */
  datatype SurveyMeta = SurveyMeta(fileName: string, hostColumn: string, magColumn: string)

  /** Sherlock's result columns; its catalogue value for dr9 is the sentinel "none". */
  const SherlockColumns: seq<(string, string)> := [
    ("catalogue", "catalogue_table_name"),
    ("host_column", "catalogue_object_id"),
    ("PS1", "PS1"),
    ("dr9", "none")
  ]

  const ProstColumns: seq<(string, string)> := [
    ("catalogue", "best_cat_release"),
    ("host_column", "host_objID"),
    ("PS1", "dr2"),
    ("dr9", "dr9")
  ]

  const HostMetaDataMapping: seq<(string, SurveyMeta)> := [
    ("dr9", SurveyMeta("data/host_association/legacy_dr9.csv", "ls_id", "mag_r")),
    ("PS1", SurveyMeta("data/host_association/panstarrs_dr2.csv", "objID", "rMeanKronMag"))
  ]

  /** ZTF r-band limiting magnitude. */
  const ZtfRLimit: real := 20.7

  // ---------------------------------------------------------------------------
  // load_host_metadata

  /** `pd.to_numeric(errors="coerce")` on one cell, given the number parser. */
  function ToNumeric(c: Cell, parse: string -> Option<real>): (n: Cell)
    ensures !n.Text?
    ensures c.Text? ==> (n.Num? <==> parse(c.s).Some?)
    ensures c.Text? && n.Num? ==> n.x == parse(c.s).value
    ensures !c.Text? ==> n == c
  {
    match c
    case Text(s) => (match parse(s) case Some(x) => Num(x) case None => NaN)
    case _ => c
  }

  /** A reference row cut down to the host and magnitude columns, the magnitude coerced. */
  function ReferenceRow(r: Row, meta: SurveyMeta, parse: string -> Option<real>): Row {
    map[meta.hostColumn := Get(r, meta.hostColumn),
        meta.magColumn := ToNumeric(Get(r, meta.magColumn), parse)]
  }

  function ReferenceRows(raw: seq<Row>, meta: SurveyMeta, parse: string -> Option<real>): (rows: seq<Row>)
    ensures |rows| == |raw|
    ensures forall i :: 0 <= i < |raw| ==> rows[i] == ReferenceRow(raw[i], meta, parse)
  {
    seq(|raw|, i requires 0 <= i < |raw| => ReferenceRow(raw[i], meta, parse))
  }

  /** One iteration of load_host_metadata: read, project, coerce, and for PS1
      keep the brightest row per host. */
  function LoadSurvey(survey: string, meta: SurveyMeta, files: map<string, Table>,
                      parse: string -> Option<real>): (r: Result<Table>)
    ensures r.Err? <==> meta.fileName !in files
                        || meta.hostColumn !in files[meta.fileName].columns
                        || meta.magColumn !in files[meta.fileName].columns
    ensures r.Ok? ==> r.value.columns == {meta.hostColumn, meta.magColumn}
  {
    if meta.fileName !in files then Err(FileNotFound(meta.fileName))
    else
      var raw := files[meta.fileName];
      if meta.hostColumn !in raw.columns then Err(KeyError(Text(meta.hostColumn)))
      else if meta.magColumn !in raw.columns then Err(KeyError(Text(meta.magColumn)))
      else
        var rows := ReferenceRows(raw.rows, meta, parse);
        Ok(Table({meta.hostColumn, meta.magColumn},
                 if survey == "PS1" then KeepBrightest(rows, meta.hostColumn, meta.magColumn) else rows))
  }

  /** A loaded reference table has exactly the host and magnitude columns in
      every row, a numeric or NaN magnitude, and, for a survey other than PS1,
      every row of the file in order; for PS1 one row per host, the host keys
      of the file, and for each host its least magnitude. */
  lemma LoadSurveyRows(survey: string, meta: SurveyMeta, files: map<string, Table>, parse: string -> Option<real>)
    requires LoadSurvey(survey, meta, files, parse).Ok?
    ensures var t := LoadSurvey(survey, meta, files, parse).value;
      && Filled(t)
      && (forall x :: x in t.rows ==> !Get(x, meta.magColumn).Text?)
    ensures var t := LoadSurvey(survey, meta, files, parse).value;
      var all := ReferenceRows(files[meta.fileName].rows, meta, parse);
      && (survey != "PS1" ==> t.rows == all)
      && (survey == "PS1" ==>
            && UniqueKeys(t.rows, meta.hostColumn)
            && KeysOf(t.rows, meta.hostColumn) == KeysOf(all, meta.hostColumn)
            && (forall x :: x in t.rows ==> x in all)
            && (forall x, y :: x in t.rows && y in all && Get(x, meta.hostColumn) == Get(y, meta.hostColumn)
                  ==> MagLe(Get(x, meta.magColumn), Get(y, meta.magColumn))))
  {
    var all := ReferenceRows(files[meta.fileName].rows, meta, parse);
    assert forall x :: x in all ==> x.Keys == {meta.hostColumn, meta.magColumn} && !Get(x, meta.magColumn).Text?;
  }

  /** The loader load_host_metadata runs for each entry of the mapping. */
  function Loader(files: map<string, Table>, parse: string -> Option<real>): (string, SurveyMeta) -> Result<Table> {
    (survey, meta) => LoadSurvey(survey, meta, files, parse)
  }

  /** The dictionary load_host_metadata builds, entry after entry of `mapping`. */
  function HostMetadata(mapping: seq<(string, SurveyMeta)>, files: map<string, Table>,
                        parse: string -> Option<real>): (r: Result<map<string, Table>>)
    ensures r.Ok? ==> forall i :: 0 <= i < |mapping| ==> mapping[i].0 in r.value
  {
    Collect(mapping, Loader(files, parse))
  }

  /** Loading succeeds exactly when every survey's file is there with its
      host and magnitude columns. */
  lemma HostMetadataOk(mapping: seq<(string, SurveyMeta)>, files: map<string, Table>,
                       parse: string -> Option<real>)
    ensures HostMetadata(mapping, files, parse).Ok? <==>
      forall i :: 0 <= i < |mapping| ==> LoadSurvey(mapping[i].0, mapping[i].1, files, parse).Ok?
  {
    CollectOk(mapping, Loader(files, parse));
  }

  /** When loading fails, the error is that of the first survey that fails. */
  lemma HostMetadataFirstError(mapping: seq<(string, SurveyMeta)>, files: map<string, Table>,
                               parse: string -> Option<real>)
    requires HostMetadata(mapping, files, parse).Err?
    ensures exists i :: (0 <= i < |mapping|
      && LoadSurvey(mapping[i].0, mapping[i].1, files, parse) == Err(HostMetadata(mapping, files, parse).error)
      && forall j :: 0 <= j < i ==> LoadSurvey(mapping[j].0, mapping[j].1, files, parse).Ok?)
  {
    CollectFirstError(mapping, Loader(files, parse));
  }

  /** After loading, the dictionary has an entry for every survey of the
      mapping and no other, each holding that survey's loaded table. */
  lemma HostMetadataContents(mapping: seq<(string, SurveyMeta)>, files: map<string, Table>,
                             parse: string -> Option<real>)
    requires HostMetadata(mapping, files, parse).Ok?
    ensures var dfs := HostMetadata(mapping, files, parse).value;
      && (forall s :: s in dfs <==> Lookup(mapping, s).Some?)
      && (forall s :: s in dfs ==> LoadSurvey(s, Lookup(mapping, s).value, files, parse) == Ok(dfs[s]))
  {
    CollectContents(mapping, Loader(files, parse));
  }

  /** load_host_metadata: fills the dictionary survey by survey. */
  method LoadHostMetadata(mapping: seq<(string, SurveyMeta)>, files: map<string, Table>,
                          parse: string -> Option<real>) returns (r: Result<map<string, Table>>)
    ensures r == HostMetadata(mapping, files, parse)
  {
    var hostDfs: map<string, Table> := map[];
    var i := 0;
    while i < |mapping|
      invariant 0 <= i <= |mapping|
      invariant HostMetadata(mapping[..i], files, parse) == Ok(hostDfs)
    {
      var (survey, meta) := mapping[i];
      var df := LoadSurvey(survey, meta, files, parse);
      assert mapping[..i + 1][..i] == mapping[..i];
      CollectSnoc(mapping[..i + 1], Loader(files, parse));
      if df.Err? {
        CollectErrPrefix(mapping, i + 1, Loader(files, parse));
        return Err(df.error);
      }
      hostDfs := hostDfs[survey := df.value];
      i := i + 1;
    }
    assert mapping[..i] == mapping;
    r := Ok(hostDfs);
  }

  /** After loading, the PS1 reference table has one row per host. */
  lemma HostMetadataPS1Unique(mapping: seq<(string, SurveyMeta)>, files: map<string, Table>,
                              parse: string -> Option<real>)
    requires HostMetadata(mapping, files, parse).Ok? && "PS1" in HostMetadata(mapping, files, parse).value
    ensures Lookup(mapping, "PS1").Some?
    ensures var dfs := HostMetadata(mapping, files, parse).value;
      UniqueKeys(dfs["PS1"].rows, Lookup(mapping, "PS1").value.hostColumn)
  {
    HostMetadataContents(mapping, files, parse);
    LoadSurveyRows("PS1", Lookup(mapping, "PS1").value, files, parse);
  }

  // ---------------------------------------------------------------------------
  // merge_with_host_metadata

  function LowerChar(c: char): char {
    if 'A' <= c <= 'Z' then (c as int + 32) as char else c
  }

  /** `str.lower()` on ASCII letters (no other character lowers to one of "none"). */
  function LowerAscii(s: string): (r: string)
    ensures |r| == |s|
    ensures forall i :: 0 <= i < |s| ==> r[i] == LowerChar(s[i])
  {
    if s == [] then [] else [LowerChar(s[0])] + LowerAscii(s[1..])
  }

  /** Which characters lower-case to the lower-case letter `lo`. */
  lemma LowerCharIs(c: char, lo: char)
    requires 'a' <= lo <= 'z'
    ensures LowerChar(c) == lo <==> c == lo || c as int == lo as int - 32
  {
  }

  /** The sentinel test `cat_val.lower() == "none"`: "none" in any mix of cases. */
  lemma NoneSentinel(v: string)
    ensures LowerAscii(v) == "none" <==>
      |v| == 4 && (v[0] == 'n' || v[0] == 'N') && (v[1] == 'o' || v[1] == 'O')
               && (v[2] == 'n' || v[2] == 'N') && (v[3] == 'e' || v[3] == 'E')
  {
    var w := LowerAscii(v);
    IsNone(w);
    if |v| == 4 {
      LowerCharIs(v[0], 'n');
      LowerCharIs(v[1], 'o');
      LowerCharIs(v[2], 'n');
      LowerCharIs(v[3], 'e');
    }
  }

  /** The string "none", character by character. */
  lemma IsNone(w: string)
    ensures w == "none" <==> |w| == 4 && w[0] == 'n' && w[1] == 'o' && w[2] == 'n' && w[3] == 'e'
  {
    if |w| == 4 && w[0] == 'n' && w[1] == 'o' && w[2] == 'n' && w[3] == 'e' {
      assert w == ['n', 'o', 'n', 'e'];
    }
  }

  /** `results_df[results_df[catCol] == catVal]`: the rows matched against that catalogue. */
  function Selected(results: Table, catCol: string, catVal: string): (t: Table)
    ensures t.columns == results.columns
    ensures forall x :: x in t.rows <==> x in results.rows && Get(x, catCol) == Text(catVal)
  {
    Where(results, r => CellEq(Get(r, catCol), Text(catVal)))
  }

  /** A mapping entry the merge loop skips: a fixed role, or the "none" sentinel. */
  predicate Skipped(survey: string, catVal: string) {
    survey == "catalogue" || survey == "host_column" || LowerAscii(catVal) == "none"
  }

  /** One iteration of merge_with_host_metadata: nothing for a skipped entry,
      otherwise the selected result rows left-joined to the survey's hosts and
      tagged with the survey. */
  function SurveyBlock(results: Table, cm: seq<(string, string)>, hostDfs: map<string, Table>,
                       meta: seq<(string, SurveyMeta)>, survey: string, catVal: string): (r: Result<Option<Table>>)
    ensures Skipped(survey, catVal) ==> r == Ok(None)
    ensures r.Ok? && !Skipped(survey, catVal) ==> r.value.Some?
    ensures r.Ok? && r.value.Some? ==> forall x :: x in r.value.value.rows ==> Get(x, "survey") == Text(survey)
    ensures r.Ok? && r.value.Some? ==>
      && survey in hostDfs && Lookup(meta, survey).Some?
      && "survey" in r.value.value.columns && hostDfs[survey].columns <= r.value.value.columns
  {
    if survey == "catalogue" || survey == "host_column" then Ok(None)
    else if LowerAscii(catVal) == "none" then Ok(None)
    else match Lookup(cm, "catalogue")
      case None => Err(KeyError(Text("catalogue")))
      case Some(catCol) =>
        if catCol !in results.columns then Err(KeyError(Text(catCol)))
        else
          var subset := Selected(results, catCol, catVal);
          if survey !in hostDfs then Err(KeyError(Text(survey)))
          else match Lookup(meta, survey)
            case None => Err(KeyError(Text(survey)))
            case Some(m) =>
              match Lookup(cm, "host_column")
              case None => Err(KeyError(Text("host_column")))
              case Some(hostCol) =>
                match Joins.Merge(subset, hostDfs[survey], hostCol, m.hostColumn, Joins.Left)
                case Err(e) => Err(e)
                case Ok(joined) =>
                  var tagged := SetColumn(joined, "survey", Text(survey));
                  assert forall x :: x in tagged.rows ==> Get(x, "survey") == Text(survey);
                  Ok(Some(tagged))
  }

  /** The blocks merge_with_host_metadata collects for the entries `items`. */
  function Blocks(results: Table, cm: seq<(string, string)>, items: seq<(string, string)>,
                  hostDfs: map<string, Table>, meta: seq<(string, SurveyMeta)>): (r: Result<seq<Table>>)
    ensures r.Ok? ==> forall b :: b in r.value ==>
      exists i :: 0 <= i < |items| && SurveyBlock(results, cm, hostDfs, meta, items[i].0, items[i].1) == Ok(Some(b))
  {
    if items == [] then Ok([])
    else
      var init, last := items[..|items| - 1], items[|items| - 1];
      assert forall i :: 0 <= i < |init| ==> init[i] == items[i];
      match Blocks(results, cm, init, hostDfs, meta)
      case Err(e) => Err(e)
      case Ok(bs) =>
        match SurveyBlock(results, cm, hostDfs, meta, last.0, last.1)
        case Err(e) => Err(e)
        case Ok(None) => Ok(bs)
        case Ok(Some(b)) => Ok(bs + [b])
  }

  /** merge_with_host_metadata's result: the blocks concatenated, or an empty
      table when no survey was processed. */
  function MergedWithHosts(results: Table, cm: seq<(string, string)>, hostDfs: map<string, Table>,
                           meta: seq<(string, SurveyMeta)>): (r: Result<Table>)
    ensures r.Err? <==> Blocks(results, cm, cm, hostDfs, meta).Err?
    ensures r.Ok? ==> |r.value.rows| == RowCount(Blocks(results, cm, cm, hostDfs, meta).value)
  {
    match Blocks(results, cm, cm, hostDfs, meta)
    case Err(e) => Err(e)
    case Ok(bs) => ConcatLength(bs); Ok(if bs == [] then Table({}, []) else Concat(bs))
  }

  /** One more mapping entry: its block, if any, goes after the earlier ones. */
  lemma BlocksStep(results: Table, cm: seq<(string, string)>, i: nat,
                   hostDfs: map<string, Table>, meta: seq<(string, SurveyMeta)>)
    requires i < |cm| && Blocks(results, cm, cm[..i], hostDfs, meta).Ok?
    requires SurveyBlock(results, cm, hostDfs, meta, cm[i].0, cm[i].1).Ok?
    ensures var b := SurveyBlock(results, cm, hostDfs, meta, cm[i].0, cm[i].1).value;
      Blocks(results, cm, cm[..i + 1], hostDfs, meta) ==
        if b.None? then Blocks(results, cm, cm[..i], hostDfs, meta)
        else Ok(Blocks(results, cm, cm[..i], hostDfs, meta).value + [b.value])
  {
    assert cm[..i + 1][..i] == cm[..i];
  }

  lemma {:induction false} BlocksErrPrefix(results: Table, cm: seq<(string, string)>, k: nat,
                                           hostDfs: map<string, Table>, meta: seq<(string, SurveyMeta)>)
    requires k <= |cm| && Blocks(results, cm, cm[..k], hostDfs, meta).Err?
    ensures Blocks(results, cm, cm, hostDfs, meta) == Blocks(results, cm, cm[..k], hostDfs, meta)
    decreases |cm| - k
  {
    if k < |cm| {
      assert cm[..k + 1][..k] == cm[..k];
      BlocksErrPrefix(results, cm, k + 1, hostDfs, meta);
    } else {
      assert cm[..k] == cm;
    }
  }

  /** merge_with_host_metadata: appends one block per processed survey. */
  method MergeWithHostMetadata(results: Table, cm: seq<(string, string)>, hostDfs: map<string, Table>,
                               meta: seq<(string, SurveyMeta)>) returns (r: Result<Table>)
    ensures r == MergedWithHosts(results, cm, hostDfs, meta)
  {
    var mergedList: seq<Table> := [];
    var i := 0;
    while i < |cm|
      invariant 0 <= i <= |cm|
      invariant Blocks(results, cm, cm[..i], hostDfs, meta) == Ok(mergedList)
    {
      var (survey, catVal) := cm[i];
      var block := SurveyBlock(results, cm, hostDfs, meta, survey, catVal);
      if block.Err? {
        assert cm[..i + 1][..i] == cm[..i];
        BlocksErrPrefix(results, cm, i + 1, hostDfs, meta);
        return Err(block.error);
      }
      BlocksStep(results, cm, i, hostDfs, meta);
      if block.value.Some? {
        mergedList := mergedList + [block.value.value];
      }
      i := i + 1;
    }
    assert cm[..i] == cm;
    r := Ok(if mergedList == [] then Table({}, []) else Concat(mergedList));
  }

  /** The blocks of the first `i` entries are a prefix of those of the first `n`. */
  lemma {:induction false} BlocksPrefix(results: Table, cm: seq<(string, string)>, i: nat, n: nat,
                                        hostDfs: map<string, Table>, meta: seq<(string, SurveyMeta)>)
    requires i <= n <= |cm| && Blocks(results, cm, cm[..n], hostDfs, meta).Ok?
    ensures Blocks(results, cm, cm[..i], hostDfs, meta).Ok?
    ensures var before := Blocks(results, cm, cm[..i], hostDfs, meta).value;
      var after := Blocks(results, cm, cm[..n], hostDfs, meta).value;
      |before| <= |after| && after[..|before|] == before
    decreases n - i
  {
    if i < n {
      assert cm[..n][..n - 1] == cm[..n - 1];
      BlocksPrefix(results, cm, i, n - 1, hostDfs, meta);
      var before := Blocks(results, cm, cm[..i], hostDfs, meta).value;
      var mid := Blocks(results, cm, cm[..n - 1], hostDfs, meta).value;
      var after := Blocks(results, cm, cm[..n], hostDfs, meta).value;
      assert |mid| <= |after| && after[..|mid|] == mid;
      assert after[..|before|] == mid[..|before|];
    }
  }

  /** The blocks of the first `i` entries are a prefix of all the blocks. */
  lemma BlocksPrefixAll(results: Table, cm: seq<(string, string)>, i: nat,
                        hostDfs: map<string, Table>, meta: seq<(string, SurveyMeta)>)
    requires i <= |cm| && Blocks(results, cm, cm, hostDfs, meta).Ok?
    ensures Blocks(results, cm, cm[..i], hostDfs, meta).Ok?
    ensures var before := Blocks(results, cm, cm[..i], hostDfs, meta).value;
      var bs := Blocks(results, cm, cm, hostDfs, meta).value;
      |before| <= |bs| && bs[..|before|] == before
  {
    assert cm[..|cm|] == cm;
    BlocksPrefix(results, cm, i, |cm|, hostDfs, meta);
  }

  /** merge_with_host_metadata's output in order: the rows of every processed
      entry's block follow, in order, all rows of the blocks of the entries
      before it. */
  lemma MergedInOrder(results: Table, cm: seq<(string, string)>, hostDfs: map<string, Table>,
                      meta: seq<(string, SurveyMeta)>, i: nat)
    requires MergedWithHosts(results, cm, hostDfs, meta).Ok?
    requires i < |cm| && !Skipped(cm[i].0, cm[i].1)
    ensures Blocks(results, cm, cm[..i], hostDfs, meta).Ok?
    ensures SurveyBlock(results, cm, hostDfs, meta, cm[i].0, cm[i].1).Ok?
    ensures SurveyBlock(results, cm, hostDfs, meta, cm[i].0, cm[i].1).value.Some?
    ensures var before := RowCount(Blocks(results, cm, cm[..i], hostDfs, meta).value);
      var b := SurveyBlock(results, cm, hostDfs, meta, cm[i].0, cm[i].1).value.value;
      var merged := MergedWithHosts(results, cm, hostDfs, meta).value;
      before + |b.rows| <= |merged.rows| && merged.rows[before..before + |b.rows|] == b.rows
  {
    BlocksAt(results, cm, hostDfs, meta, i);
    var bs := Blocks(results, cm, cm, hostDfs, meta).value;
    ConcatAt(bs, |Blocks(results, cm, cm[..i], hostDfs, meta).value|);
  }

  /** A processed entry's block comes right after the blocks of the entries before it. */
  lemma BlocksAt(results: Table, cm: seq<(string, string)>, hostDfs: map<string, Table>,
                 meta: seq<(string, SurveyMeta)>, i: nat)
    requires Blocks(results, cm, cm, hostDfs, meta).Ok?
    requires i < |cm| && !Skipped(cm[i].0, cm[i].1)
    ensures Blocks(results, cm, cm[..i], hostDfs, meta).Ok?
    ensures SurveyBlock(results, cm, hostDfs, meta, cm[i].0, cm[i].1).Ok?
    ensures SurveyBlock(results, cm, hostDfs, meta, cm[i].0, cm[i].1).value.Some?
    ensures var pre := Blocks(results, cm, cm[..i], hostDfs, meta).value;
      var bs := Blocks(results, cm, cm, hostDfs, meta).value;
      && |pre| < |bs| && bs[..|pre|] == pre
      && bs[|pre|] == SurveyBlock(results, cm, hostDfs, meta, cm[i].0, cm[i].1).value.value
  {
    BlocksPrefixAll(results, cm, i + 1, hostDfs, meta);
    BlocksOkStep(results, cm, i, hostDfs, meta);
    BlocksStep(results, cm, i, hostDfs, meta);
    PrefixThen(Blocks(results, cm, cm, hostDfs, meta).value, Blocks(results, cm, cm[..i + 1], hostDfs, meta).value,
               Blocks(results, cm, cm[..i], hostDfs, meta).value,
               SurveyBlock(results, cm, hostDfs, meta, cm[i].0, cm[i].1).value.value);
  }

  /** In a sequence that starts with `pre + [x]`, `x` comes right after `pre`. */
  lemma PrefixThen<T>(s: seq<T>, upto: seq<T>, pre: seq<T>, x: T)
    requires |upto| <= |s| && s[..|upto|] == upto && upto == pre + [x]
    ensures |pre| < |s| && s[..|pre|] == pre && s[|pre|] == x
  {
    assert s[..|pre|] == upto[..|pre|];
  }

  /** The blocks of the first `i + 1` entries come out only when those of the
      first `i` and entry `i`'s block do. */
  lemma BlocksOkStep(results: Table, cm: seq<(string, string)>, i: nat,
                     hostDfs: map<string, Table>, meta: seq<(string, SurveyMeta)>)
    requires i < |cm| && Blocks(results, cm, cm[..i + 1], hostDfs, meta).Ok?
    ensures Blocks(results, cm, cm[..i], hostDfs, meta).Ok?
    ensures SurveyBlock(results, cm, hostDfs, meta, cm[i].0, cm[i].1).Ok?
  {
    assert cm[..i + 1][..i] == cm[..i];
  }

  /** Every merged row carries the survey of an entry that was not skipped. */
  lemma MergedSurveys(results: Table, cm: seq<(string, string)>, hostDfs: map<string, Table>,
                      meta: seq<(string, SurveyMeta)>, x: Row)
    requires MergedWithHosts(results, cm, hostDfs, meta).Ok?
    requires x in MergedWithHosts(results, cm, hostDfs, meta).value.rows
    ensures exists i :: 0 <= i < |cm| && !Skipped(cm[i].0, cm[i].1) && Get(x, "survey") == Text(cm[i].0)
  {
    var bs := Blocks(results, cm, cm, hostDfs, meta).value;
    var k :| 0 <= k < |bs| && x in bs[k].rows;
    assert bs[k] in bs;
    var i :| 0 <= i < |cm| && SurveyBlock(results, cm, hostDfs, meta, cm[i].0, cm[i].1) == Ok(Some(bs[k]));
  }

  lemma {:induction false} BlocksAllSkipped(results: Table, cm: seq<(string, string)>, items: seq<(string, string)>,
                                            hostDfs: map<string, Table>, meta: seq<(string, SurveyMeta)>)
    requires forall i :: 0 <= i < |items| ==> Skipped(items[i].0, items[i].1)
    ensures Blocks(results, cm, items, hostDfs, meta) == Ok([])
  {
    if items != [] {
      BlocksAllSkipped(results, cm, items[..|items| - 1], hostDfs, meta);
    }
  }

  /** When every entry is skipped the merge is the empty table. */
  lemma MergedNothingProcessed(results: Table, cm: seq<(string, string)>, hostDfs: map<string, Table>,
                               meta: seq<(string, SurveyMeta)>)
    requires forall i :: 0 <= i < |cm| ==> Skipped(cm[i].0, cm[i].1)
    ensures MergedWithHosts(results, cm, hostDfs, meta) == Ok(Table({}, []))
  {
    BlocksAllSkipped(results, cm, cm, hostDfs, meta);
  }

  /** A merged row, against the reference tables loaded from the same mapping,
      names a survey and a magnitude column that standardize_magnitude finds. */
  lemma MergedRowStandardizes(results: Table, cm: seq<(string, string)>, meta: seq<(string, SurveyMeta)>,
                              files: map<string, Table>, parse: string -> Option<real>, x: Row)
    requires HostMetadata(meta, files, parse).Ok?
    requires MergedWithHosts(results, cm, HostMetadata(meta, files, parse).value, meta).Ok?
    requires x in MergedWithHosts(results, cm, HostMetadata(meta, files, parse).value, meta).value.rows
    ensures StandardizeRow(x, MergedWithHosts(results, cm, HostMetadata(meta, files, parse).value, meta).value.columns,
                           meta).Ok?
  {
    HostMetadataContents(meta, files, parse);
    var hostDfs := HostMetadata(meta, files, parse).value;
    var t := MergedWithHosts(results, cm, hostDfs, meta).value;
    var bs := Blocks(results, cm, cm, hostDfs, meta).value;
    assert bs != [] && x in Concat(bs).rows;
    var k :| 0 <= k < |bs| && x in bs[k].rows;
    assert bs[k] in bs;
    var j :| 0 <= j < |cm| && SurveyBlock(results, cm, hostDfs, meta, cm[j].0, cm[j].1) == Ok(Some(bs[k]));
    var m := Lookup(meta, cm[j].0).value;
    assert m.magColumn in hostDfs[cm[j].0].columns;
    assert forall c :: c in bs[k].columns ==> c in t.columns;
  }

  /** A merge with rows, against the reference tables loaded from the same
      mapping, is one standardize_magnitude accepts. */
  lemma MergedStandardizes(results: Table, cm: seq<(string, string)>, meta: seq<(string, SurveyMeta)>,
                           files: map<string, Table>, parse: string -> Option<real>)
    requires HostMetadata(meta, files, parse).Ok?
    requires MergedWithHosts(results, cm, HostMetadata(meta, files, parse).value, meta).Ok?
    requires MergedWithHosts(results, cm, HostMetadata(meta, files, parse).value, meta).value.rows != []
    ensures StandardizeMagnitude(MergedWithHosts(results, cm, HostMetadata(meta, files, parse).value, meta).value, meta).Ok?
  {
    var t := MergedWithHosts(results, cm, HostMetadata(meta, files, parse).value, meta).value;
    forall i | 0 <= i < |t.rows| ensures StandardizeRow(t.rows[i], t.columns, meta).Ok? {
      MergedRowStandardizes(results, cm, meta, files, parse, t.rows[i]);
    }
    assert StandardizeRow(t.rows[0], t.columns, meta).Ok?;
  }

  /** When no survey is processed, the merge is the empty frame and
      standardize_magnitude raises ValueError on it. */
  lemma NothingProcessedRaises(results: Table, cm: seq<(string, string)>, hostDfs: map<string, Table>,
                               meta: seq<(string, SurveyMeta)>)
    requires forall i :: 0 <= i < |cm| ==> Skipped(cm[i].0, cm[i].1)
    ensures MergedWithHosts(results, cm, hostDfs, meta).Ok?
    ensures StandardizeMagnitude(MergedWithHosts(results, cm, hostDfs, meta).value, meta) == Err(ValueError)
  {
    MergedNothingProcessed(results, cm, hostDfs, meta);
  }

  /** Sherlock's dr9 entry is the sentinel "none", so everything Sherlock
      contributes is matched against PS1. */
  lemma SherlockOnlyPS1(results: Table, hostDfs: map<string, Table>, meta: seq<(string, SurveyMeta)>, x: Row)
    requires MergedWithHosts(results, SherlockColumns, hostDfs, meta).Ok?
    requires x in MergedWithHosts(results, SherlockColumns, hostDfs, meta).value.rows
    ensures Get(x, "survey") == Text("PS1")
  {
    MergedSurveys(results, SherlockColumns, hostDfs, meta, x);
    var i :| 0 <= i < |SherlockColumns| && !Skipped(SherlockColumns[i].0, SherlockColumns[i].1)
             && Get(x, "survey") == Text(SherlockColumns[i].0);
    SherlockEntry(i);
  }

  /** Of Sherlock's entries only PS1 is processed. */
  lemma SherlockEntry(i: nat)
    requires i < |SherlockColumns| && !Skipped(SherlockColumns[i].0, SherlockColumns[i].1)
    ensures SherlockColumns[i].0 == "PS1"
  {
    assert LowerAscii("none") == "none";
  }

  /** A processed survey's block: the selected rows left-joined to the
      survey's reference table, tagged with the survey. */
  lemma SurveyBlockIs(results: Table, cm: seq<(string, string)>, hostDfs: map<string, Table>,
                      meta: seq<(string, SurveyMeta)>, survey: string, catVal: string)
    requires SurveyBlock(results, cm, hostDfs, meta, survey, catVal).Ok?
    requires !Skipped(survey, catVal)
    ensures Lookup(cm, "catalogue").Some? && Lookup(cm, "host_column").Some?
    ensures survey in hostDfs && Lookup(meta, survey).Some?
    ensures var sel := Selected(results, Lookup(cm, "catalogue").value, catVal);
      SurveyBlock(results, cm, hostDfs, meta, survey, catVal).value
      == Some(SetColumn(Table(sel.columns + hostDfs[survey].columns,
                              Joins.JoinRows(sel.rows, hostDfs[survey], Lookup(cm, "host_column").value,
                                             Lookup(meta, survey).value.hostColumn, Joins.Left)),
                        "survey", Text(survey)))
  {
  }

  /** The rows of a processed survey's block: the tagged left join's. */
  lemma SurveyBlockRowsAre(results: Table, cm: seq<(string, string)>, hostDfs: map<string, Table>,
                           meta: seq<(string, SurveyMeta)>, survey: string, catVal: string)
    requires SurveyBlock(results, cm, hostDfs, meta, survey, catVal).Ok?
    requires !Skipped(survey, catVal)
    ensures Lookup(cm, "catalogue").Some? && Lookup(cm, "host_column").Some?
    ensures survey in hostDfs && Lookup(meta, survey).Some?
    ensures var sel := Selected(results, Lookup(cm, "catalogue").value, catVal);
      SurveyBlock(results, cm, hostDfs, meta, survey, catVal).value.value.rows
      == SetColumn(Table(sel.columns + hostDfs[survey].columns,
                         Joins.JoinRows(sel.rows, hostDfs[survey], Lookup(cm, "host_column").value,
                                        Lookup(meta, survey).value.hostColumn, Joins.Left)),
                   "survey", Text(survey)).rows
  {
    SurveyBlockIs(results, cm, hostDfs, meta, survey, catVal);
  }

  /** Row `i` of a left join tagged with its survey, when the right-hand keys are unique. */
  lemma TaggedLeftJoinAt(sel: Table, hosts: Table, hostCol: string, hostColumn: string, tag: Cell, i: nat)
    requires UniqueKeys(hosts.rows, hostColumn) && i < |sel.rows|
    ensures var b := SetColumn(Table(sel.columns + hosts.columns,
                                     Joins.JoinRows(sel.rows, hosts, hostCol, hostColumn, Joins.Left)), "survey", tag);
      |b.rows| == |sel.rows|
      && b.rows[i] == Joins.JoinOne(sel.rows[i], hosts, hostCol, hostColumn, Joins.Left)[0]["survey" := tag]
  {
    Joins.LeftJoinAt(sel.rows, hosts, hostCol, hostColumn, i);
  }

  /** A left join tagged with its survey keeps every left row, and row for row
      when the right-hand keys are unique. */
  lemma TaggedLeftJoin(sel: Table, hosts: Table, hostCol: string, hostColumn: string, tag: Cell)
    ensures var b := SetColumn(Table(sel.columns + hosts.columns,
                                     Joins.JoinRows(sel.rows, hosts, hostCol, hostColumn, Joins.Left)), "survey", tag);
      && |b.rows| >= |sel.rows|
      && (UniqueKeys(hosts.rows, hostColumn) ==>
            && |b.rows| == |sel.rows|
            && forall i :: 0 <= i < |sel.rows| ==>
                 b.rows[i] == Joins.JoinOne(sel.rows[i], hosts, hostCol, hostColumn, Joins.Left)[0]["survey" := tag])
  {
    Joins.LeftJoinKeepsRows(sel.rows, hosts, hostCol, hostColumn);
    if UniqueKeys(hosts.rows, hostColumn) {
      forall i | 0 <= i < |sel.rows| {
        TaggedLeftJoinAt(sel, hosts, hostCol, hostColumn, tag, i);
      }
    }
  }

  /** The left join keeps every selected row: a processed survey's block has at
      least one row per selected result row, and exactly one when the
      reference keys are unique. */
  lemma SurveyBlockRows(results: Table, cm: seq<(string, string)>, hostDfs: map<string, Table>,
                        meta: seq<(string, SurveyMeta)>, survey: string, catVal: string)
    requires SurveyBlock(results, cm, hostDfs, meta, survey, catVal).Ok?
    requires !Skipped(survey, catVal)
    ensures Lookup(cm, "catalogue").Some? && Lookup(cm, "host_column").Some?
    ensures survey in hostDfs && Lookup(meta, survey).Some?
    ensures var block := SurveyBlock(results, cm, hostDfs, meta, survey, catVal).value.value;
      var sel := Selected(results, Lookup(cm, "catalogue").value, catVal);
      var hosts := hostDfs[survey];
      var m := Lookup(meta, survey).value;
      var hostCol := Lookup(cm, "host_column").value;
      && |block.rows| >= |sel.rows|
      && (UniqueKeys(hosts.rows, m.hostColumn) ==>
            && |block.rows| == |sel.rows|
            && forall i :: 0 <= i < |sel.rows| ==>
                 block.rows[i] == Joins.JoinOne(sel.rows[i], hosts, hostCol, m.hostColumn, Joins.Left)[0][
                   "survey" := Text(survey)])
  {
    SurveyBlockIs(results, cm, hostDfs, meta, survey, catVal);
    TaggedLeftJoin(Selected(results, Lookup(cm, "catalogue").value, catVal), hostDfs[survey],
                   Lookup(cm, "host_column").value, Lookup(meta, survey).value.hostColumn, Text(survey));
  }

  /** The left join keeps every selected row, whether or not reference keys
      repeat: selected row `i` yields a non-empty run of block rows, which
      starts right after the runs of the rows selected before it. */
  lemma SurveyBlockRuns(results: Table, cm: seq<(string, string)>, hostDfs: map<string, Table>,
                        meta: seq<(string, SurveyMeta)>, survey: string, catVal: string, i: nat)
    requires SurveyBlock(results, cm, hostDfs, meta, survey, catVal).Ok? && !Skipped(survey, catVal)
    requires Filled(hostDfs[survey])
    requires i < |Selected(results, Lookup(cm, "catalogue").value, catVal).rows|
    ensures var block := SurveyBlock(results, cm, hostDfs, meta, survey, catVal).value.value;
      var sel := Selected(results, Lookup(cm, "catalogue").value, catVal);
      var m := Lookup(meta, survey).value;
      var hostCol := Lookup(cm, "host_column").value;
      var run := Joins.JoinOne(sel.rows[i], hostDfs[survey], hostCol, m.hostColumn, Joins.Left);
      var start := |Joins.JoinRows(sel.rows[..i], hostDfs[survey], hostCol, m.hostColumn, Joins.Left)|;
      |run| >= 1 && start + |run| <= |block.rows|
  {
    var sel := Selected(results, Lookup(cm, "catalogue").value, catVal);
    SurveyBlockRowsAre(results, cm, hostDfs, meta, survey, catVal);
    Joins.JoinRowsRun(sel.rows, hostDfs[survey], Lookup(cm, "host_column").value,
                      Lookup(meta, survey).value.hostColumn, Joins.Left, i);
    Joins.LeftJoinOneKeeps(sel.rows[i], hostDfs[survey], Lookup(cm, "host_column").value,
                           Lookup(meta, survey).value.hostColumn);
  }

  /** Block row `j` inside selected row `i`'s run is, cell by cell, the
      matching joined row with the survey set. */
  lemma SurveyBlockRunCells(results: Table, cm: seq<(string, string)>, hostDfs: map<string, Table>,
                            meta: seq<(string, SurveyMeta)>, survey: string, catVal: string, i: nat, j: nat, c: string)
    requires SurveyBlock(results, cm, hostDfs, meta, survey, catVal).Ok? && !Skipped(survey, catVal)
    requires Filled(hostDfs[survey])
    requires i < |Selected(results, Lookup(cm, "catalogue").value, catVal).rows|
    requires var sel := Selected(results, Lookup(cm, "catalogue").value, catVal);
      var start := |Joins.JoinRows(sel.rows[..i], hostDfs[survey], Lookup(cm, "host_column").value,
                                   Lookup(meta, survey).value.hostColumn, Joins.Left)|;
      var run := Joins.JoinOne(sel.rows[i], hostDfs[survey], Lookup(cm, "host_column").value,
                               Lookup(meta, survey).value.hostColumn, Joins.Left);
      start <= j < start + |run|
    ensures var block := SurveyBlock(results, cm, hostDfs, meta, survey, catVal).value.value;
      var sel := Selected(results, Lookup(cm, "catalogue").value, catVal);
      var start := |Joins.JoinRows(sel.rows[..i], hostDfs[survey], Lookup(cm, "host_column").value,
                                   Lookup(meta, survey).value.hostColumn, Joins.Left)|;
      var run := Joins.JoinOne(sel.rows[i], hostDfs[survey], Lookup(cm, "host_column").value,
                               Lookup(meta, survey).value.hostColumn, Joins.Left);
      && j < |block.rows| && Get(block.rows[j], "survey") == Text(survey)
      && (c != "survey" ==> Get(block.rows[j], c) == Get(run[j - start], c))
  {
    var sel := Selected(results, Lookup(cm, "catalogue").value, catVal);
    var hosts := hostDfs[survey];
    var hostCol := Lookup(cm, "host_column").value;
    var hostColumn := Lookup(meta, survey).value.hostColumn;
    var run := Joins.JoinOne(sel.rows[i], hosts, hostCol, hostColumn, Joins.Left);
    var start := |Joins.JoinRows(sel.rows[..i], hosts, hostCol, hostColumn, Joins.Left)|;
    var block := SurveyBlock(results, cm, hostDfs, meta, survey, catVal).value.value;
    SurveyBlockRowsAre(results, cm, hostDfs, meta, survey, catVal);
    Joins.SetColumnJoinRunCell(block.rows, sel.columns + hosts.columns, sel.rows, hosts, hostCol, hostColumn,
                               Joins.Left, "survey", Text(survey), i, j, c);
  }

  /** So block row `j` inside selected row `i`'s run carries the survey and
      agrees with row `i` on every column the reference table lacks. */
  lemma SurveyBlockRunRows(results: Table, cm: seq<(string, string)>, hostDfs: map<string, Table>,
                           meta: seq<(string, SurveyMeta)>, survey: string, catVal: string, i: nat, j: nat, c: string)
    requires SurveyBlock(results, cm, hostDfs, meta, survey, catVal).Ok? && !Skipped(survey, catVal)
    requires Filled(hostDfs[survey])
    requires i < |Selected(results, Lookup(cm, "catalogue").value, catVal).rows|
    requires var sel := Selected(results, Lookup(cm, "catalogue").value, catVal);
      var start := |Joins.JoinRows(sel.rows[..i], hostDfs[survey], Lookup(cm, "host_column").value,
                                   Lookup(meta, survey).value.hostColumn, Joins.Left)|;
      var run := Joins.JoinOne(sel.rows[i], hostDfs[survey], Lookup(cm, "host_column").value,
                               Lookup(meta, survey).value.hostColumn, Joins.Left);
      start <= j < start + |run|
    ensures var block := SurveyBlock(results, cm, hostDfs, meta, survey, catVal).value.value;
      var sel := Selected(results, Lookup(cm, "catalogue").value, catVal);
      j < |block.rows|
      && (c !in hostDfs[survey].columns && c != "survey" ==> Get(block.rows[j], c) == Get(sel.rows[i], c))
  {
    var sel := Selected(results, Lookup(cm, "catalogue").value, catVal);
    var hosts := hostDfs[survey];
    var run := Joins.JoinOne(sel.rows[i], hosts, Lookup(cm, "host_column").value,
                             Lookup(meta, survey).value.hostColumn, Joins.Left);
    var start := |Joins.JoinRows(sel.rows[..i], hosts, Lookup(cm, "host_column").value,
                                 Lookup(meta, survey).value.hostColumn, Joins.Left)|;
    SurveyBlockRunCells(results, cm, hostDfs, meta, survey, catVal, i, j, c);
    Joins.LeftJoinOneKeepsAt(sel.rows[i], hosts, Lookup(cm, "host_column").value,
                             Lookup(meta, survey).value.hostColumn, j - start, c);
  }

  /** What a processed survey's block holds, row for row, when the reference
      keys are unique: the reference magnitude of the matching host, or NaN
      for a result row whose host is not in the reference table. */
  lemma SurveyBlockMagnitudes(results: Table, cm: seq<(string, string)>, hostDfs: map<string, Table>,
                              meta: seq<(string, SurveyMeta)>, survey: string, catVal: string, i: nat)
    requires SurveyBlock(results, cm, hostDfs, meta, survey, catVal).Ok? && !Skipped(survey, catVal)
    requires Filled(hostDfs[survey])
    requires UniqueKeys(hostDfs[survey].rows, Lookup(meta, survey).value.hostColumn)
    requires var m := Lookup(meta, survey).value;
      m.magColumn in hostDfs[survey].columns && m.magColumn != "survey"
      && m.magColumn != Lookup(cm, "host_column").value
    requires i < |Selected(results, Lookup(cm, "catalogue").value, catVal).rows|
    ensures var block := SurveyBlock(results, cm, hostDfs, meta, survey, catVal).value.value;
      var l := Selected(results, Lookup(cm, "catalogue").value, catVal).rows[i];
      var m := Lookup(meta, survey).value;
      var hostCol := Lookup(cm, "host_column").value;
      var hits := Joins.Matches(hostDfs[survey].rows, m.hostColumn, Get(l, hostCol));
      && i < |block.rows|
      && Get(block.rows[i], "survey") == Text(survey)
      && (hits == [] ==> Get(block.rows[i], m.magColumn) == NaN)
      && (hits != [] ==> hits[0] in hostDfs[survey].rows
                         && Get(hits[0], m.hostColumn) == Get(l, hostCol)
                         && Get(block.rows[i], m.magColumn) == Get(hits[0], m.magColumn))
  {
    var sel := Selected(results, Lookup(cm, "catalogue").value, catVal);
    var m := Lookup(meta, survey).value;
    var hostCol := Lookup(cm, "host_column").value;
    SurveyBlockRowsAre(results, cm, hostDfs, meta, survey, catVal);
    TaggedLeftJoinAt(sel, hostDfs[survey], hostCol, m.hostColumn, Text(survey), i);
    Joins.LeftJoinOne(sel.rows[i], hostDfs[survey], hostCol, m.hostColumn, m.magColumn);
  }

  // ---------------------------------------------------------------------------
  // standardize_magnitude

  /** The magnitude column a row's survey names: `host_meta_mapping[row["survey"]]["mag_column"]`. */
  function MagColumnFor(row: Row, meta: seq<(string, SurveyMeta)>): (r: Result<string>)
    ensures r.Ok? <==> Get(row, "survey").Text? && Lookup(meta, Get(row, "survey").s).Some?
    ensures r.Ok? ==> r.value == Lookup(meta, Get(row, "survey").s).value.magColumn
  {
    match Get(row, "survey")
    case Text(s) =>
      (match Lookup(meta, s)
       case Some(m) => Ok(m.magColumn)
       case None => Err(KeyError(Text(s))))
    case c => Err(KeyError(c))
  }

  /** The lambda standardize_magnitude applies to one row. */
  function StandardizeRow(row: Row, columns: set<string>, meta: seq<(string, SurveyMeta)>): (r: Result<Row>)
    ensures r.Ok? <==> "survey" in columns && MagColumnFor(row, meta).Ok? && MagColumnFor(row, meta).value in columns
    ensures r.Ok? ==> Get(r.value, "magnitude") == Get(row, MagColumnFor(row, meta).value)
    ensures r.Ok? ==> forall c :: c != "magnitude" ==> Get(r.value, c) == Get(row, c)
  {
    if "survey" !in columns then Err(KeyError(Text("survey")))
    else match MagColumnFor(row, meta)
      case Err(e) => Err(e)
      case Ok(magCol) =>
        if magCol !in columns then Err(KeyError(Text(magCol)))
        else Ok(row["magnitude" := Get(row, magCol)])
  }

  /** `df.apply(..., axis=1)`: row after row; the first row that fails raises. */
  function StandardizeRows(rows: seq<Row>, columns: set<string>, meta: seq<(string, SurveyMeta)>): (r: Result<seq<Row>>)
    ensures r.Ok? <==> forall i :: 0 <= i < |rows| ==> StandardizeRow(rows[i], columns, meta).Ok?
    ensures r.Ok? ==> (|r.value| == |rows| &&
      forall i :: 0 <= i < |rows| ==> StandardizeRow(rows[i], columns, meta) == Ok(r.value[i]))
  {
    if rows == [] then Ok([])
    else
      var init, last := rows[..|rows| - 1], rows[|rows| - 1];
      assert forall i :: 0 <= i < |init| ==> init[i] == rows[i];
      match StandardizeRows(init, columns, meta)
      case Err(e) => Err(e)
      case Ok(done) =>
        match StandardizeRow(last, columns, meta)
        case Err(e) => Err(e)
        case Ok(row) => Ok(done + [row])
  }

  /** The error standardize_magnitude raises is that of the first row that fails. */
  lemma {:induction false} StandardizeRowsFirstError(rows: seq<Row>, columns: set<string>, meta: seq<(string, SurveyMeta)>)
    requires StandardizeRows(rows, columns, meta).Err?
    ensures exists i :: (0 <= i < |rows|
      && StandardizeRow(rows[i], columns, meta) == Err(StandardizeRows(rows, columns, meta).error)
      && forall j :: 0 <= j < i ==> StandardizeRow(rows[j], columns, meta).Ok?)
  {
    var init, last := rows[..|rows| - 1], rows[|rows| - 1];
    assert forall i :: 0 <= i < |init| ==> init[i] == rows[i];
    if StandardizeRows(init, columns, meta).Err? {
      StandardizeRowsFirstError(init, columns, meta);
      var i :| 0 <= i < |init|
        && StandardizeRow(init[i], columns, meta) == Err(StandardizeRows(init, columns, meta).error)
        && forall j :: 0 <= j < i ==> StandardizeRow(init[j], columns, meta).Ok?;
      assert StandardizeRow(rows[i], columns, meta) == Err(StandardizeRows(rows, columns, meta).error);
    } else {
      assert StandardizeRow(rows[|rows| - 1], columns, meta) == Err(StandardizeRows(rows, columns, meta).error);
    }
  }

  /** standardize_magnitude: every row gets `magnitude` from its survey's
      magnitude column and keeps every other cell; a row whose survey has no
      mapping raises KeyError. On a frame without rows (or without columns)
      `apply` never gets a value from the lambda and returns a copy of the
      frame; assigning that copy to the single column `magnitude` raises
      ValueError unless the frame has exactly one column. */
  function StandardizeMagnitude(t: Table, meta: seq<(string, SurveyMeta)>): (r: Result<Table>)
    ensures r.Ok? <==> if t.rows == [] || t.columns == {} then |t.columns| == 1
                       else forall i :: 0 <= i < |t.rows| ==> StandardizeRow(t.rows[i], t.columns, meta).Ok?
    ensures r.Err? && (t.rows == [] || t.columns == {}) ==> r.error == ValueError
    ensures r.Ok? ==> r.value.columns == t.columns + {"magnitude"} && |r.value.rows| == |t.rows|
    ensures r.Ok? ==> forall i :: 0 <= i < |t.rows| ==>
      && Get(r.value.rows[i], "magnitude") == Get(t.rows[i], MagColumnFor(t.rows[i], meta).value)
      && forall c :: c != "magnitude" ==> Get(r.value.rows[i], c) == Get(t.rows[i], c)
  {
    if t.rows == [] || t.columns == {} then
      if |t.columns| == 1 then Ok(Table(t.columns + {"magnitude"}, t.rows)) else Err(ValueError)
    else
      match StandardizeRows(t.rows, t.columns, meta)
      case Err(e) => Err(e)
      case Ok(rows) => Ok(Table(t.columns + {"magnitude"}, rows))
  }

  // ---------------------------------------------------------------------------
  // filter_magnitude

  predicate InRange(c: Cell, lo: real, hi: real) {
    c.Num? && lo <= c.x && c.x <= hi
  }

  /** filter_magnitude: the rows whose magnitude lies in [lo, hi], both ends
      included; NaN never does. Comparing a text magnitude raises TypeError. */
  function FilterMagnitude(t: Table, lo: real, hi: real): (r: Result<Table>)
    ensures r.Err? <==> "magnitude" !in t.columns || exists x :: x in t.rows && Get(x, "magnitude").Text?
    ensures r.Ok? ==> r.value.columns == t.columns
    ensures r.Ok? ==> forall x :: x in r.value.rows <==> x in t.rows && InRange(Get(x, "magnitude"), lo, hi)
  {
    if "magnitude" !in t.columns then Err(KeyError(Text("magnitude")))
    else if exists i :: 0 <= i < |t.rows| && Get(t.rows[i], "magnitude").Text? then Err(TypeError)
    else Ok(Where(t, x => InRange(Get(x, "magnitude"), lo, hi)))
  }

  /** filter_magnitude keeps the original order: filtering two stacked tables
      stacks the filtered tables. */
  lemma FilterMagnitudeOrder(a: Table, b: Table, lo: real, hi: real)
    requires FilterMagnitude(a, lo, hi).Ok? && FilterMagnitude(b, lo, hi).Ok?
    requires a.columns == b.columns
    ensures FilterMagnitude(Table(a.columns, a.rows + b.rows), lo, hi).Ok?
    ensures FilterMagnitude(Table(a.columns, a.rows + b.rows), lo, hi).value.rows
         == FilterMagnitude(a, lo, hi).value.rows + FilterMagnitude(b, lo, hi).value.rows
  {
    FilterAppend(a.rows, b.rows, x => InRange(Get(x, "magnitude"), lo, hi));
  }

  /** A table already inside the interval passes through unchanged. */
  lemma FilterMagnitudeIdempotent(t: Table, lo: real, hi: real)
    requires FilterMagnitude(t, lo, hi).Ok?
    ensures FilterMagnitude(FilterMagnitude(t, lo, hi).value, lo, hi) == FilterMagnitude(t, lo, hi)
  {
    var once := FilterMagnitude(t, lo, hi).value;
    FilterAll(once.rows, x => InRange(Get(x, "magnitude"), lo, hi));
  }

  // ---------------------------------------------------------------------------
  // percentage_outside_ztf_limit

  /** One line of the summary table. */
  datatype SurveyStats = SurveyStats(survey: Cell, totalHosts: nat, outsideZtfLimit: nat, percentageOutside: real)

  /** `df[df["survey"] == s]`. */
  function SurveyRows(rows: seq<Row>, s: Cell): (part: seq<Row>)
    ensures forall x :: x in part <==> x in rows && CellEq(Get(x, "survey"), s)
  {
    Filter(rows, x => CellEq(Get(x, "survey"), s))
  }

  predicate Fainter(x: Row, limit: real) {
    Get(x, "magnitude").Num? && Get(x, "magnitude").x > limit
  }

  /** `100 * outside / total` (before the rounding to two places): a percentage. */
  function Percentage(outside: nat, total: nat): (p: real)
    requires 0 < total && outside <= total
    ensures 0.0 <= p <= 100.0
    ensures p * total as real == 100.0 * outside as real
  {
    var p := 100.0 * outside as real / total as real;
    var t := total as real;
    assert p * t == 100.0 * outside as real;
    assert 100.0 * outside as real <= 100.0 * t;
    SignOfProduct(p, t);
    SignOfProduct(p - 100.0, t);
    p
  }

  /** Multiplying by a positive number keeps the sign. */
  lemma SignOfProduct(a: real, t: real)
    requires t > 0.0
    ensures a * t <= 0.0 <==> a <= 0.0
    ensures a * t >= 0.0 <==> a >= 0.0
  {
  }

  /** `(part["magnitude"] > limit).sum()`: NaN compares false. */
  function FainterCount(part: seq<Row>, limit: real): (n: nat)
    ensures n <= |part|
    ensures n == 0 <==> forall x :: x in part ==> !Fainter(x, limit)
  {
    if part == [] then 0
    else FainterCount(part[..|part| - 1], limit) + if Fainter(part[|part| - 1], limit) then 1 else 0
  }

  /** The count is the number of positions whose magnitude is strictly above the limit. */
  lemma {:induction false} FainterCountIndices(part: seq<Row>, limit: real)
    ensures FainterCount(part, limit) == |set i | 0 <= i < |part| && Fainter(part[i], limit)|
  {
    if part != [] {
      var init, last := part[..|part| - 1], part[|part| - 1];
      FainterCountIndices(init, limit);
      var all := set i | 0 <= i < |part| && Fainter(part[i], limit);
      var before := set i | 0 <= i < |init| && Fainter(init[i], limit);
      var extra := if Fainter(last, limit) then {|init|} else {};
      forall i ensures i in all <==> i in before + extra {
        if 0 <= i < |init| {
          assert part[i] == init[i];
        }
      }
      assert all == before + extra;
    }
  }

  /** A magnitude `>` cannot compare with a number. */
  predicate TextMagnitude(x: Row) {
    Get(x, "magnitude").Text?
  }

  /** One iteration of the summary loop: nothing for an empty partition. */
  function StatsFor(t: Table, s: Cell, limit: real): (r: Result<Option<SurveyStats>>)
    ensures r.Ok? && r.value.Some? ==>
      var e := r.value.value;
      && e.survey == s
      && e.totalHosts == |SurveyRows(t.rows, s)| > 0
      && e.outsideZtfLimit == FainterCount(SurveyRows(t.rows, s), limit) <= e.totalHosts
      && 0.0 <= e.percentageOutside <= 100.0
      && e.percentageOutside == Percentage(e.outsideZtfLimit, e.totalHosts)
    ensures r == Ok(None) <==> SurveyRows(t.rows, s) == []
  {
    var part := SurveyRows(t.rows, s);
    if |part| == 0 then Ok(None)
    else if "magnitude" !in t.columns then Err(KeyError(Text("magnitude")))
    else if exists x :: x in part && TextMagnitude(x) then Err(TypeError)
    else
      var total := |part|;
      var outside := FainterCount(part, limit);
      Ok(Some(SurveyStats(s, total, outside, Percentage(outside, total))))
  }

  /** The summary lines for the surveys `ss`, in their order. */
  function ZtfStats(t: Table, ss: seq<Cell>, limit: real): (r: Result<seq<SurveyStats>>)
    ensures r.Ok? ==> forall e :: e in r.value ==>
      exists i :: 0 <= i < |ss| && StatsFor(t, ss[i], limit) == Ok(Some(e))
  {
    if ss == [] then Ok([])
    else
      var init, last := ss[..|ss| - 1], ss[|ss| - 1];
      assert forall i :: 0 <= i < |init| ==> init[i] == ss[i];
      match ZtfStats(t, init, limit)
      case Err(e) => Err(e)
      case Ok(es) =>
        match StatsFor(t, last, limit)
        case Err(e) => Err(e)
        case Ok(None) => Ok(es)
        case Ok(Some(e)) => Ok(es + [e])
  }

  /** percentage_outside_ztf_limit's result. */
  function PercentageOutside(t: Table, limit: real): (r: Result<seq<SurveyStats>>)
    ensures "survey" !in t.columns ==> r == Err(KeyError(Text("survey")))
  {
    if "survey" !in t.columns then Err(KeyError(Text("survey")))
    else ZtfStats(t, Unique(Cells(t.rows, "survey")), limit)
  }

  /** A summary line names a survey value of the table, counts at least one
      host, no more outside the limit than hosts, and a percentage between 0
      and 100. */
  lemma PercentageOutsideBounds(t: Table, limit: real, e: SurveyStats)
    requires PercentageOutside(t, limit).Ok? && e in PercentageOutside(t, limit).value
    ensures e.survey in Cells(t.rows, "survey")
    ensures 0 < e.totalHosts && e.outsideZtfLimit <= e.totalHosts
    ensures 0.0 <= e.percentageOutside <= 100.0
  {
    var u := Unique(Cells(t.rows, "survey"));
    var i :| 0 <= i < |u| && StatsFor(t, u[i], limit) == Ok(Some(e));
    assert u[i] in u;
  }

  /** One more survey: its summary line, if any, goes after the earlier ones. */
  lemma ZtfStatsStep(t: Table, ss: seq<Cell>, i: nat, limit: real)
    requires i < |ss| && ZtfStats(t, ss[..i], limit).Ok? && StatsFor(t, ss[i], limit).Ok?
    ensures StatsFor(t, ss[i], limit).value.None? ==>
      ZtfStats(t, ss[..i + 1], limit) == ZtfStats(t, ss[..i], limit)
    ensures StatsFor(t, ss[i], limit).value.Some? ==>
      ZtfStats(t, ss[..i + 1], limit) ==
        Ok(ZtfStats(t, ss[..i], limit).value + [StatsFor(t, ss[i], limit).value.value])
  {
    assert ss[..i + 1][..i] == ss[..i];
  }

  lemma {:induction false} ZtfStatsErrPrefix(t: Table, ss: seq<Cell>, k: nat, limit: real)
    requires k <= |ss| && ZtfStats(t, ss[..k], limit).Err?
    ensures ZtfStats(t, ss, limit) == ZtfStats(t, ss[..k], limit)
    decreases |ss| - k
  {
    if k < |ss| {
      assert ss[..k + 1][..k] == ss[..k];
      ZtfStatsErrPrefix(t, ss, k + 1, limit);
    } else {
      assert ss[..k] == ss;
    }
  }

  // ---------------------------------------------------------------------------
  // What the summary table says about the rows

  /** A survey value that gets a summary line: anything but NaN. */
  predicate Labelled(c: Cell) {
    !c.NaN?
  }

  function StatsSurveys(es: seq<SurveyStats>): (ss: seq<Cell>)
    ensures |ss| == |es|
  {
    if es == [] then [] else StatsSurveys(es[..|es| - 1]) + [es[|es| - 1].survey]
  }

  /** `totalHosts` for a survey value: `len(df[df["survey"] == s])`. */
  function TotalHosts(es: seq<SurveyStats>): nat {
    if es == [] then 0 else TotalHosts(es[..|es| - 1]) + es[|es| - 1].totalHosts
  }

  /** A survey partition has as many rows as the survey column has that value. */
  lemma {:induction false} SurveyRowsCount(rows: seq<Row>, s: Cell)
    requires Labelled(s)
    ensures |SurveyRows(rows, s)| == Count(Cells(rows, "survey"), s)
  {
    if rows != [] {
      SurveyRowsCount(rows[..|rows| - 1], s);
      assert Cells(rows, "survey")[..|rows| - 1] == Cells(rows[..|rows| - 1], "survey");
    }
  }

  /** A survey value of the column gets no summary line exactly when it is
      NaN: NaN compares unequal to itself, so its partition is empty. */
  lemma StatsForNone(t: Table, s: Cell, limit: real)
    requires s in Cells(t.rows, "survey")
    ensures StatsFor(t, s, limit) == Ok(None) <==> s == NaN
  {
    var part := SurveyRows(t.rows, s);
    assert |part| == 0 || part[0] in part;
    if !s.NaN? {
      var i :| 0 <= i < |t.rows| && Cells(t.rows, "survey")[i] == s;
      assert t.rows[i] in part;
    }
  }

  /** The summary lines name the non-NaN survey values, in the order given. */
  lemma {:induction false} ZtfStatsSurveys(t: Table, ss: seq<Cell>, limit: real)
    requires ZtfStats(t, ss, limit).Ok?
    requires forall s :: s in ss ==> s in Cells(t.rows, "survey")
    ensures StatsSurveys(ZtfStats(t, ss, limit).value) == Filter(ss, Labelled)
  {
    if ss != [] {
      var init, last := ss[..|ss| - 1], ss[|ss| - 1];
      assert forall s :: s in init ==> s in ss;
      ZtfStatsSurveys(t, init, limit);
      StatsForNone(t, last, limit);
      var es := ZtfStats(t, init, limit).value;
      var stats := StatsFor(t, last, limit);
      if stats.value.Some? {
        assert (es + [stats.value.value])[..|es|] == es;
      }
    }
  }

  /** Each summary line counts the rows of its survey. */
  lemma StatsTotals(t: Table, ss: seq<Cell>, limit: real, e: SurveyStats)
    requires ZtfStats(t, ss, limit).Ok? && e in ZtfStats(t, ss, limit).value
    ensures Labelled(e.survey)
    ensures e.totalHosts == Count(Cells(t.rows, "survey"), e.survey)
  {
    var i :| 0 <= i < |ss| && StatsFor(t, ss[i], limit) == Ok(Some(e));
    var part := SurveyRows(t.rows, ss[i]);
    assert part[0] in part;
    SurveyRowsCount(t.rows, e.survey);
  }

  lemma {:induction false} TotalHostsCounts(es: seq<SurveyStats>, col: seq<Cell>)
    requires forall e :: e in es ==> e.totalHosts == Count(col, e.survey)
    ensures TotalHosts(es) == Total(CountsFor(StatsSurveys(es), col))
  {
    if es != [] {
      var init, last := es[..|es| - 1], es[|es| - 1];
      assert forall e :: e in init ==> e in es;
      TotalHostsCounts(init, col);
      assert last in es;
      TotalCountsForSnoc(StatsSurveys(init), last.survey, col);
    }
  }

  /** The summary lines are the distinct non-NaN survey values in order of
      first appearance, and their totals add up to the rows whose survey is
      not NaN: every such host is counted once. */
  lemma PercentageOutsideCoversRows(t: Table, limit: real)
    requires PercentageOutside(t, limit).Ok?
    ensures var col := Cells(t.rows, "survey");
      var es := PercentageOutside(t, limit).value;
      && StatsSurveys(es) == Filter(Unique(col), Labelled)
      && TotalHosts(es) == |Filter(col, Labelled)|
  {
    var col := Cells(t.rows, "survey");
    var u := Unique(col);
    var es := PercentageOutside(t, limit).value;
    ZtfStatsSurveys(t, u, limit);
    forall e | e in es ensures e.totalHosts == Count(col, e.survey) {
      StatsTotals(t, u, limit, e);
    }
    TotalHostsCounts(es, col);
    FilterDistinct(u, Labelled);
    TotalCounts(Filter(u, Labelled), col);
    CountInFilter(col, Filter(u, Labelled), Labelled);
  }

  /** percentage_outside_ztf_limit: one summary line per survey value, skipping
      empty partitions. */
  method PercentageOutsideZtfLimit(t: Table, limit: real) returns (r: Result<seq<SurveyStats>>)
    ensures r == PercentageOutside(t, limit)
  {
    if "survey" !in t.columns {
      return Err(KeyError(Text("survey")));
    }
    var surveys := Unique(Cells(t.rows, "survey"));
    var results: seq<SurveyStats> := [];
    var i := 0;
    while i < |surveys|
      invariant 0 <= i <= |surveys|
      invariant ZtfStats(t, surveys[..i], limit) == Ok(results)
    {
      var stats := StatsFor(t, surveys[i], limit);
      if stats.Err? {
        assert surveys[..i + 1][..i] == surveys[..i];
        ZtfStatsErrPrefix(t, surveys, i + 1, limit);
        return Err(stats.error);
      }
      ZtfStatsStep(t, surveys, i, limit);
      if stats.value.Some? {
        results := results + [stats.value.value];
      }
      i := i + 1;
    }
    assert surveys[..i] == surveys;
    r := Ok(results);
  }

  // ---------------------------------------------------------------------------
  // The script's top level

  /** Prost's mapping processes both surveys, so its rows are matched against
      PS1 or against dr9. */
  lemma ProstPS1OrDr9(results: Table, hostDfs: map<string, Table>, meta: seq<(string, SurveyMeta)>, x: Row)
    requires MergedWithHosts(results, ProstColumns, hostDfs, meta).Ok?
    requires x in MergedWithHosts(results, ProstColumns, hostDfs, meta).value.rows
    ensures Get(x, "survey") in {Text("PS1"), Text("dr9")}
  {
    MergedSurveys(results, ProstColumns, hostDfs, meta, x);
    var i :| 0 <= i < |ProstColumns| && !Skipped(ProstColumns[i].0, ProstColumns[i].1)
             && Get(x, "survey") == Text(ProstColumns[i].0);
    ProstEntry(i);
  }

  /** Of Prost's entries only PS1 and dr9 are processed. */
  lemma ProstEntry(i: nat)
    requires i < |ProstColumns| && !Skipped(ProstColumns[i].0, ProstColumns[i].1)
    ensures ProstColumns[i].0 == "PS1" || ProstColumns[i].0 == "dr9"
  {
  }

  /** The stacked merges standardized against `meta`, kept within magnitudes
      10 to 30 and summarized against the ZTF r-band limit. */
  function Summary(stacked: Table, meta: seq<(string, SurveyMeta)>): Result<seq<SurveyStats>> {
    match StandardizeMagnitude(stacked, meta)
    case Err(e) => Err(e)
    case Ok(all) =>
      match FilterMagnitude(all, 10.0, 30.0)
      case Err(e) => Err(e)
      case Ok(kept) => PercentageOutside(kept, ZtfRLimit)
  }

  /** The script's statements after the loading of the two result files, for
      a host metadata mapping and the two results' column mappings: host
      metadata loaded, both results merged with it, stacked and summarized. */
  function MagnitudeStats(sherlock: Table, prost: Table, files: map<string, Table>, parse: string -> Option<real>,
                          meta: seq<(string, SurveyMeta)>, sherlockColumns: seq<(string, string)>,
                          prostColumns: seq<(string, string)>): Result<seq<SurveyStats>>
  {
    match HostMetadata(meta, files, parse)
    case Err(e) => Err(e)
    case Ok(hostDfs) =>
      match MergedWithHosts(sherlock, sherlockColumns, hostDfs, meta)
      case Err(e) => Err(e)
      case Ok(sherlockMerged) =>
        match MergedWithHosts(prost, prostColumns, hostDfs, meta)
        case Err(e) => Err(e)
        case Ok(prostMerged) => Summary(Concat([sherlockMerged, prostMerged]), meta)
  }

  /** The surveys of the host metadata mapping, as survey cells. */
  const MappedSurveys: set<Cell> := {Text("PS1"), Text("dr9")}

  /** Every row's survey is one of `ss`. */
  ghost predicate SurveysIn(rows: seq<Row>, ss: set<Cell>) {
    forall x :: x in rows ==> Get(x, "survey") in ss
  }

  /** Every survey a column mapping's merge processes is one of `ss`. */
  ghost predicate ProcessedIn(cm: seq<(string, string)>, ss: set<Cell>) {
    forall i :: 0 <= i < |cm| && !Skipped(cm[i].0, cm[i].1) ==> Text(cm[i].0) in ss
  }

  /** A merge's rows carry only surveys its mapping processes. */
  lemma MergedSurveysIn(results: Table, cm: seq<(string, string)>, hostDfs: map<string, Table>,
                        meta: seq<(string, SurveyMeta)>, ss: set<Cell>)
    requires MergedWithHosts(results, cm, hostDfs, meta).Ok? && ProcessedIn(cm, ss)
    ensures SurveysIn(MergedWithHosts(results, cm, hostDfs, meta).value.rows, ss)
  {
    forall x | x in MergedWithHosts(results, cm, hostDfs, meta).value.rows ensures Get(x, "survey") in ss {
      MergedSurveys(results, cm, hostDfs, meta, x);
    }
  }

  /** Stacking keeps each row's survey. */
  lemma ConcatSurveys(a: Table, b: Table, ss: set<Cell>)
    requires SurveysIn(a.rows, ss) && SurveysIn(b.rows, ss)
    ensures SurveysIn(Concat([a, b]).rows, ss)
  {
    forall x | x in Concat([a, b]).rows ensures Get(x, "survey") in ss {
      var i :| 0 <= i < 2 && x in [a, b][i].rows;
    }
  }

  /** standardize_magnitude leaves each row's survey as it was. */
  lemma StandardizeKeepsSurveys(t: Table, meta: seq<(string, SurveyMeta)>, ss: set<Cell>)
    requires StandardizeMagnitude(t, meta).Ok? && SurveysIn(t.rows, ss)
    ensures SurveysIn(StandardizeMagnitude(t, meta).value.rows, ss)
  {
    var rows := StandardizeMagnitude(t, meta).value.rows;
    forall y | y in rows ensures Get(y, "survey") in ss {
      var j :| 0 <= j < |rows| && rows[j] == y;
      assert t.rows[j] in t.rows;
    }
  }

  /** filter_magnitude only drops rows. */
  lemma FilterKeepsSurveys(t: Table, lo: real, hi: real, ss: set<Cell>)
    requires FilterMagnitude(t, lo, hi).Ok? && SurveysIn(t.rows, ss)
    ensures SurveysIn(FilterMagnitude(t, lo, hi).value.rows, ss)
  {
  }

  /** A summary line names the survey of some row. */
  lemma StatsSurveysIn(t: Table, limit: real, ss: set<Cell>, e: SurveyStats)
    requires PercentageOutside(t, limit).Ok? && e in PercentageOutside(t, limit).value
    requires SurveysIn(t.rows, ss)
    ensures e.survey in ss
  {
    PercentageOutsideBounds(t, limit, e);
    var i :| 0 <= i < |t.rows| && Cells(t.rows, "survey")[i] == e.survey;
    assert t.rows[i] in t.rows;
  }

  /** Standardizing, filtering and summarizing keep each row's survey, so a
      summary line names a survey of the stacked rows. */
  lemma SummarySurveys(stacked: Table, meta: seq<(string, SurveyMeta)>, ss: set<Cell>)
    requires SurveysIn(stacked.rows, ss)
    ensures Summary(stacked, meta).Ok? ==> forall e :: e in Summary(stacked, meta).value ==> e.survey in ss
  {
    if Summary(stacked, meta).Ok? {
      var all := StandardizeMagnitude(stacked, meta).value;
      StandardizeKeepsSurveys(stacked, meta, ss);
      FilterKeepsSurveys(all, 10.0, 30.0, ss);
      forall e | e in Summary(stacked, meta).value ensures e.survey in ss {
        StatsSurveysIn(FilterMagnitude(all, 10.0, 30.0).value, ZtfRLimit, ss, e);
      }
    }
  }

  /** The summary names only surveys that the two column mappings process. */
  lemma MagnitudeStatsSurveys(sherlock: Table, prost: Table, files: map<string, Table>, parse: string -> Option<real>,
                              meta: seq<(string, SurveyMeta)>, sherlockColumns: seq<(string, string)>,
                              prostColumns: seq<(string, string)>, ss: set<Cell>)
    requires ProcessedIn(sherlockColumns, ss) && ProcessedIn(prostColumns, ss)
    ensures var r := MagnitudeStats(sherlock, prost, files, parse, meta, sherlockColumns, prostColumns);
      r.Ok? ==> forall e :: e in r.value ==> e.survey in ss
  {
    if MagnitudeStats(sherlock, prost, files, parse, meta, sherlockColumns, prostColumns).Ok? {
      var hostDfs := HostMetadata(meta, files, parse).value;
      var s := MergedWithHosts(sherlock, sherlockColumns, hostDfs, meta).value;
      var p := MergedWithHosts(prost, prostColumns, hostDfs, meta).value;
      MergedSurveysIn(sherlock, sherlockColumns, hostDfs, meta, ss);
      MergedSurveysIn(prost, prostColumns, hostDfs, meta, ss);
      ConcatSurveys(s, p, ss);
      SummarySurveys(Concat([s, p]), meta, ss);
    }
  }

  /** Both result mappings process PS1 and dr9 at most (Sherlock's only PS1). */
  lemma ScriptMappingsProcess()
    ensures ProcessedIn(SherlockColumns, MappedSurveys)
    ensures ProcessedIn(ProstColumns, MappedSurveys)
  {
    forall i | 0 <= i < |SherlockColumns| && !Skipped(SherlockColumns[i].0, SherlockColumns[i].1)
      ensures Text(SherlockColumns[i].0) in MappedSurveys
    {
      SherlockEntry(i);
    }
    forall i | 0 <= i < |ProstColumns| && !Skipped(ProstColumns[i].0, ProstColumns[i].1)
      ensures Text(ProstColumns[i].0) in MappedSurveys
    {
      ProstEntry(i);
    }
  }

  /** With the script's mappings the summary names PS1 and dr9 at most. */
  lemma ScriptStatsSurveys(sherlock: Table, prost: Table, files: map<string, Table>, parse: string -> Option<real>)
    ensures var r := MagnitudeStats(sherlock, prost, files, parse, HostMetaDataMapping, SherlockColumns, ProstColumns);
      r.Ok? ==> forall e :: e in r.value ==> e.survey in MappedSurveys
  {
    ScriptMappingsProcess();
    MagnitudeStatsSurveys(sherlock, prost, files, parse, HostMetaDataMapping, SherlockColumns, ProstColumns,
                          MappedSurveys);
  }

  /** The script's own run: its mappings and limits. The summary has a line
      for PS1 and dr9 at most. */
  function HostMagnitudeStats(sherlock: Table, prost: Table, files: map<string, Table>,
                              parse: string -> Option<real>): (r: Result<seq<SurveyStats>>)
    ensures r.Ok? ==> forall e :: e in r.value ==> e.survey in MappedSurveys
  {
    ScriptStatsSurveys(sherlock, prost, files, parse);
    MagnitudeStats(sherlock, prost, files, parse, HostMetaDataMapping, SherlockColumns, ProstColumns)
  }
}
