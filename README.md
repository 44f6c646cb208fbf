# Host magnitudes and association counts, modelled in Dafny

This project models the relational core of two analysis scripts for
hostless transient candidates:

- **scripts/plot_magnitude_distribution.py** loads each survey's
  host-galaxy reference catalogue. It keeps two columns, coerces the
  magnitude to a number, and for Pan-STARRS (PS1) keeps only the brightest
  row per host. It then left-joins the Sherlock and Prost cross-match
  results to those catalogues survey by survey. It tags each block with
  its survey, copies the survey's own magnitude column into a unified
  `magnitude` column, and keeps magnitudes in a closed interval. Finally it
  counts, per survey, how many hosts are fainter than the ZTF r-band limit
  (20.7), with their percentage.
- **scripts/plot_sherlock_prost_association_count.py** relabels Prost's
  catalogue-release codes to display categories, with a "Without host"
  default. It keeps only the candidates that have a TNS classification and
  inner-joins both cross-match tables to them on `objectId`. It tabulates
  the category counts before and after the join, with absent categories
  filled with zero. It splits Sherlock's counts into "Without association"
  (catalogue value `'0'`) and "With association".

Modules:

- `Frames` (frames.dfy) is the pandas vocabulary the scripts use.
  - A table is a set of column names plus a sequence of rows. A row is a
    map from column name to cell. A cell is text, an exact real number or
    NaN.
  - A missing column raises `KeyError` and a comparison with text raises
    `TypeError`; both are modelled as `Err` results.
  - Python dicts are sequences of entries in insertion order. `Lookup`
    returns the value of the last entry for a key, which is the value a dict
    literal keeps for a repeated key. Iterating the sequence visits every
    entry, whereas iterating such a dict visits a repeated key once; the
    scripts' dicts have distinct keys (see "Left out").
  - `Frames` also holds boolean-mask filtering, `unique`,
    `value_counts(dropna=False)`, column assignment, `concat`, and a fold
    (`Collect`) that fills a dict entry by entry.
- `Joins` (joins.dfy) is `DataFrame.merge` with `how="left"` and
  `how="inner"`.
- `Dedup` (dedup.dfy) is `sort_values(...).drop_duplicates(keep="first")`,
  i.e. keeping the brightest row per host.
- `MagnitudeDistribution` (magnitude_distribution.dfy) is the
  host-metadata pipeline.
  - The three loops of the script are methods: the `host_dfs` dict, the
    `merged_list` accumulation, and the `results` accumulation.
  - Each method is proved equal to a specification function.
  - The lemmas state what those functions promise.
- `AssociationCount` (association_count.dfy) is the whole-table
  tabulation script.

## Model

| member | source | states |
|---|---|---|
| Frames.Lookup | scripts/plot_magnitude_distribution.py:91-92 | A dict lookup finds nothing exactly when no entry has the key; otherwise it returns the value of the last entry with that key. |
| Frames.Collect | scripts/plot_magnitude_distribution.py:54-69 | Once the dict is built, every entry's key is in it. |
| Frames.CollectOk | scripts/plot_magnitude_distribution.py:56-67 | The dict is built exactly when every entry's load succeeds. |
| Frames.CollectFirstError | scripts/plot_magnitude_distribution.py:56-67 | A failed build reports the error of the first entry whose load fails; every earlier entry loaded. |
| Frames.CollectContents | scripts/plot_magnitude_distribution.py:56-67 | The built dict has exactly the keys of the entries, and each key holds the load of its last entry (a later key overwrites an earlier one). |
| Frames.CollectErrPrefix | scripts/plot_magnitude_distribution.py:56-67 | Once a prefix of the entries has failed, the rest of the loop does not change the outcome. |
| Frames.Filter | scripts/plot_magnitude_distribution.py:87-89 | A boolean-mask selection keeps exactly the rows satisfying the mask, never more rows than the input. |
| Frames.FilterAppend | scripts/plot_magnitude_distribution.py:117 | Selection distributes over concatenation, so it keeps the original row order. |
| Frames.Where | scripts/plot_sherlock_prost_association_count.py:26 | A masked table keeps its columns and holds exactly the rows satisfying the mask. |
| Frames.Count | scripts/plot_sherlock_prost_association_count.py:34-35 | The count of a value is at most the column length, and is zero exactly when the value does not occur. |
| Frames.CountAppend | scripts/plot_sherlock_prost_association_count.py:34-35 | Counts of concatenated columns add up. |
| Frames.Unique | scripts/plot_magnitude_distribution.py:123 | `unique()` has no repeated value and holds exactly the values of the column. |
| Frames.UniqueOrder | scripts/plot_magnitude_distribution.py:123 | `unique()` lists values in order of first appearance. |
| Frames.ValueCounts | scripts/plot_sherlock_prost_association_count.py:34-35 | `value_counts(dropna=False)` has one entry per distinct value (NaN included), each holding that value's number of occurrences. |
| Frames.ValueCountsTotal | scripts/plot_sherlock_prost_association_count.py:34-35 | The counts of `value_counts(dropna=False)` sum to the column length. |
| Frames.ValueCountsLookup | scripts/plot_sherlock_prost_association_count.py:50 | Looking a value up in the counts gives its number of occurrences, and nothing when it does not occur. |
| Frames.TotalCounts | scripts/plot_sherlock_prost_association_count.py:34-35 | Counting a column against distinct labels sums to the number of cells that carry one of the labels. |
| Frames.SetColumn | scripts/plot_magnitude_distribution.py:101 | Assigning a constant column adds it to the columns, keeps the row count, sets that cell in every row and leaves every other cell unchanged. |
| Frames.Concat | scripts/plot_magnitude_distribution.py:104 | `pd.concat` has the union of the columns and exactly the rows of the parts. |
| Frames.ConcatLength | scripts/plot_magnitude_distribution.py:104 | `pd.concat` has as many rows as its parts together. |
| Frames.ConcatAt | scripts/plot_magnitude_distribution.py:104 | With `ignore_index=True` the rows of part i sit, in their order, in the result right after the rows of the parts before it. |
| Frames.UniqueKeysCount | scripts/plot_magnitude_distribution.py:64 | With unique keys, there are as many distinct keys as rows. |
| Frames.FilterUniqueKeys | scripts/plot_magnitude_distribution.py:87-89 | A selection of rows with unique keys still has unique keys. |
| Joins.Matches | scripts/plot_magnitude_distribution.py:94-99 | The right-hand rows matching a key are exactly the right rows whose key column equals it. |
| Joins.Unmatched | scripts/plot_magnitude_distribution.py:94-99 | A left row without a match gets NaN in every right-hand column except the join key, and keeps its own cells elsewhere. |
| Joins.Merge | scripts/plot_magnitude_distribution.py:94-99 | A merge fails with KeyError exactly when a join column is missing on its side; otherwise it has both sides' columns, and its rows are each left row's matches in order. |
| Joins.LeftJoinKeepsRows | scripts/plot_magnitude_distribution.py:94-99 | A left join has at least as many rows as its left side. |
| Joins.MatchesUnique | scripts/plot_magnitude_distribution.py:94-99 | With unique right-hand keys, a key matches at most one right row. |
| Joins.LeftJoinLength | scripts/plot_magnitude_distribution.py:94-99 | With unique right-hand keys, a left join has exactly as many rows as its left side. |
| Joins.LeftJoinAt | scripts/plot_magnitude_distribution.py:94-99 | With unique right-hand keys, row i of a left join is left row i joined to its single match, or left row i with NaN right-hand cells. |
| Joins.LeftJoinOne | scripts/plot_magnitude_distribution.py:94-99 | With unique right-hand keys, one left row yields one row; a right-hand column there is NaN without a match and the matching reference row's value with one. |
| Joins.JoinRowsRun | scripts/plot_magnitude_distribution.py:94-99 | A merge keeps the left table's order: the output rows of left row i form one contiguous run, placed right after the runs of the left rows before it. |
| Joins.LeftJoinOneKeeps | scripts/plot_magnitude_distribution.py:94-99 | In a left join every left row yields at least one output row, and each of them agrees with it on every column the right table does not have. |
| Joins.LeftJoinKeepsLeftCells | scripts/plot_magnitude_distribution.py:94-99 | Every left-join row agrees with some left row on every column the right side does not have. |
| Joins.InnerJoinSound | scripts/plot_sherlock_prost_association_count.py:28-32 | Every inner-join row is some left row joined to a right row with the same key. |
| Joins.InnerJoinComplete | scripts/plot_sherlock_prost_association_count.py:28-32 | Every left row joined to a right row with the same key is in the inner join. |
| Joins.InnerJoinMembers | scripts/plot_sherlock_prost_association_count.py:28-32 | A row is in the inner join if and only if it is a left row joined to a right row with an equal key. |
| Joins.InnerJoinOneMembers | scripts/plot_sherlock_prost_association_count.py:43-47 | One left row's inner-join rows are exactly its joins with the right rows of equal key. |
| Joins.InnerJoinKeys | scripts/plot_sherlock_prost_association_count.py:43-47 | Every row of an inner join on `objectId` has an `objectId` present in both inputs. |
| Joins.InnerJoinOne | scripts/plot_sherlock_prost_association_count.py:28-32 | With unique right-hand keys, a left row yields at most one inner-join row, which keeps the left row's value in a column the right side lacks. |
| Joins.InnerJoinCountsBounded | scripts/plot_sherlock_prost_association_count.py:34-40 | With unique right-hand keys, an inner join has no more rows than its left side, and no category of a left-only column is counted more often after the join than before. |
| Dedup.Insert | scripts/plot_magnitude_distribution.py:63 | Inserting a row into the sorted prefix adds exactly that row to the multiset of rows. |
| Dedup.InsertSorted | scripts/plot_magnitude_distribution.py:63 | Inserting into a sorted sequence keeps it sorted by magnitude, NaN last. |
| Dedup.SortValues | scripts/plot_magnitude_distribution.py:63 | `sort_values` returns a permutation of the rows sorted by magnitude ascending with NaN last. |
| Dedup.SortValuesSorted | scripts/plot_magnitude_distribution.py:63 | Sorting already sorted rows changes nothing. |
| Dedup.DropDuplicates | scripts/plot_magnitude_distribution.py:64 | `drop_duplicates(keep="first")` keeps only input rows, loses no key and leaves each key once. |
| Dedup.DropDuplicatesFirst | scripts/plot_magnitude_distribution.py:64 | `keep="first"`: the kept rows appear in their input order, and each is the first input row with its key. |
| Dedup.DropDuplicatesSorted | scripts/plot_magnitude_distribution.py:64 | Dropping duplicates from sorted rows leaves them sorted. |
| Dedup.DropDuplicatesUnique | scripts/plot_magnitude_distribution.py:64 | Rows whose keys are already unique are returned unchanged. |
| Dedup.KeptIsLeast | scripts/plot_magnitude_distribution.py:62-65 | After sorting, the row kept for a key is no fainter than any row with that key. |
| Dedup.DropDuplicatesKeepsLeast | scripts/plot_magnitude_distribution.py:62-65 | For sorted rows, every kept row is no fainter than every row sharing its key. |
| Dedup.KeepBrightest | scripts/plot_magnitude_distribution.py:61-65 | The PS1 deduplication keeps only input rows, keeps every host key, keeps one row per host, and keeps for each host a magnitude no fainter than any other row of that host (NaN sorts last). |
| Dedup.KeepBrightestMinimum | scripts/plot_magnitude_distribution.py:61-65 | When a host has a numeric magnitude, its kept row has a numeric magnitude at most as large. |
| Dedup.KeepBrightestIdempotent | scripts/plot_magnitude_distribution.py:61-65 | Deduplicating twice is the same as deduplicating once. |
| Dedup.OneHostOneRow | scripts/plot_magnitude_distribution.py:61-65 | Rows that all share one host collapse to a single row. |
| Dedup.KeepBrightestExample | scripts/plot_magnitude_distribution.py:61-65 | Of two rows for host A with magnitudes 18.2 and 17.9, the 17.9 row is kept. |
| MagnitudeDistribution.ToNumeric | scripts/plot_magnitude_distribution.py:59 | `to_numeric(errors="coerce")` never yields text; a string becomes its parsed number, or NaN when it does not parse; other cells are unchanged. |
| MagnitudeDistribution.ReferenceRows | scripts/plot_magnitude_distribution.py:58-59 | The projection keeps one row per input row, holding only the host column and the coerced magnitude. |
| MagnitudeDistribution.LoadSurvey | scripts/plot_magnitude_distribution.py:57-65 | Loading a survey fails exactly when its file is missing or lacks the host or magnitude column; otherwise the table has exactly those two columns. |
| MagnitudeDistribution.LoadSurveyRows | scripts/plot_magnitude_distribution.py:58-65 | A loaded table has both columns in every row and no text magnitude. A non-PS1 survey keeps every projected row. PS1 keeps, per host key, one projected row no fainter than the others, and keeps every key. |
| MagnitudeDistribution.HostMetadata | scripts/plot_magnitude_distribution.py:53-69 | When loading succeeds, every survey of the mapping has an entry in `host_dfs`. |
| MagnitudeDistribution.HostMetadataOk | scripts/plot_magnitude_distribution.py:53-69 | `load_host_metadata` succeeds exactly when every survey in the mapping loads. |
| MagnitudeDistribution.HostMetadataFirstError | scripts/plot_magnitude_distribution.py:53-69 | When it fails, it raises the error of the first survey that fails to load. |
| MagnitudeDistribution.HostMetadataContents | scripts/plot_magnitude_distribution.py:53-69 | The dict has exactly the mapping's surveys as keys, and each holds that survey's loaded table. |
| MagnitudeDistribution.LoadHostMetadata | scripts/plot_magnitude_distribution.py:53-69 | The loop that fills `host_dfs` computes the dict specified above, or the first load error. |
| MagnitudeDistribution.HostMetadataPS1Unique | scripts/plot_magnitude_distribution.py:61-67 | The PS1 table in `host_dfs` has unique host keys. |
| MagnitudeDistribution.LowerAscii | scripts/plot_magnitude_distribution.py:84 | `str.lower()` keeps the length and lowers each character. |
| MagnitudeDistribution.NoneSentinel | scripts/plot_magnitude_distribution.py:84 | A catalogue value lowers to "none" exactly when it is "none" in any mix of upper and lower case. |
| MagnitudeDistribution.Selected | scripts/plot_magnitude_distribution.py:87-89 | The per-survey subset keeps the columns and exactly the result rows whose catalogue column equals the survey's catalogue value. |
| MagnitudeDistribution.SurveyBlock | scripts/plot_magnitude_distribution.py:81-102 | The `catalogue` and `host_column` entries and "none" sentinels produce no block. A processed survey produces a block tagged with its survey in every row, containing the reference table's columns. A survey with no `host_dfs` or metadata entry fails. |
| MagnitudeDistribution.Blocks | scripts/plot_magnitude_distribution.py:81-102 | Every collected block is the block of some mapping entry. |
| MagnitudeDistribution.BlocksErrPrefix | scripts/plot_magnitude_distribution.py:81-102 | Once an entry has raised, the later entries do not change the outcome. |
| MagnitudeDistribution.MergedWithHosts | scripts/plot_magnitude_distribution.py:72-104 | The merge fails exactly when some survey's block fails, and otherwise has as many rows as the collected blocks together (none when no survey is processed). |
| MagnitudeDistribution.BlocksPrefixAll | scripts/plot_magnitude_distribution.py:81-102 | The blocks collected for the first i mapping entries are a prefix of the blocks collected for all of them: a later entry never reorders an earlier block. |
| MagnitudeDistribution.BlocksAt | scripts/plot_magnitude_distribution.py:81-102 | Every processed entry i contributes its block, placed right after the blocks of the entries before it. |
| MagnitudeDistribution.MergedInOrder | scripts/plot_magnitude_distribution.py:81-104 | Every processed entry's block appears in the merged table, rows in order, right after the rows of the blocks of the earlier entries: nothing is lost and mapping order is kept. |
| MagnitudeDistribution.MergeWithHostMetadata | scripts/plot_magnitude_distribution.py:72-104 | The loop that fills `merged_list` and concatenates it computes the specified merged table (or the error raised). |
| MagnitudeDistribution.MergedSurveys | scripts/plot_magnitude_distribution.py:81-104 | Every merged row is tagged with a mapping survey that is neither `catalogue`/`host_column` nor a "none" sentinel. |
| MagnitudeDistribution.BlocksAllSkipped | scripts/plot_magnitude_distribution.py:81-85 | When every entry is skipped, no block is collected. |
| MagnitudeDistribution.MergedNothingProcessed | scripts/plot_magnitude_distribution.py:104 | When no survey is processed, the result is the empty table. |
| MagnitudeDistribution.SherlockOnlyPS1 | scripts/plot_magnitude_distribution.py:13-18 | With Sherlock's column mapping, dr9 contributes no rows: every merged row is a PS1 row. |
| MagnitudeDistribution.MergedRowStandardizes | scripts/plot_magnitude_distribution.py:81-112 | Each merged row, against the `host_dfs` loaded from the same mapping, names a survey and a magnitude column that `standardize_magnitude` finds. |
| MagnitudeDistribution.MergedStandardizes | scripts/plot_magnitude_distribution.py:206-217 | A merge with at least one row, against the loaded `host_dfs`, is a table on which `standardize_magnitude` succeeds. |
| MagnitudeDistribution.NothingProcessedRaises | scripts/plot_magnitude_distribution.py:104-112 | When no survey is processed the merge is the empty frame, and `standardize_magnitude` raises ValueError on it. |
| MagnitudeDistribution.ProstPS1OrDr9 | scripts/plot_magnitude_distribution.py:20-25 | With Prost's column mapping every merged row is a PS1 or a dr9 row. |
| MagnitudeDistribution.SurveyBlockIs | scripts/plot_magnitude_distribution.py:87-101 | A processed block is the left join of the selected rows with the survey's reference table, with the `survey` column set. |
| MagnitudeDistribution.SurveyBlockRows | scripts/plot_magnitude_distribution.py:87-101 | A block has at least as many rows as were selected; when the reference keys are unique it has exactly one per selected row, and row i is selected row i left-joined to its host and tagged with the survey. |
| MagnitudeDistribution.SurveyBlockRuns | scripts/plot_magnitude_distribution.py:87-101 | Whatever the reference keys, selected row i yields a non-empty run of block rows, which starts right after the runs of the rows selected before it and lies inside the block. (What the run holds is stated by SurveyBlockRunCells and SurveyBlockRunRows.) |
| MagnitudeDistribution.SurveyBlockRunCells | scripts/plot_magnitude_distribution.py:94-101 | Whatever the reference keys, block row j inside selected row i's run equals, cell by cell, the matching row of the left join of row i with the reference table, with `survey` set to the survey. |
| MagnitudeDistribution.SurveyBlockRunRows | scripts/plot_magnitude_distribution.py:94-101 | So block row j inside selected row i's run lies inside the block and agrees with row i on every column the reference table lacks, except `survey`. |
| MagnitudeDistribution.SurveyBlockMagnitudes | scripts/plot_magnitude_distribution.py:87-101 | With unique reference keys, block row i is tagged with the survey. Its magnitude is NaN when selected row i has no matching host, and the matching host's magnitude otherwise. |
| MagnitudeDistribution.MagColumnFor | scripts/plot_magnitude_distribution.py:110 | The magnitude column of a row is found exactly when its survey is a text value in the metadata mapping, and it is that survey's `mag_column`. |
| MagnitudeDistribution.StandardizeRow | scripts/plot_magnitude_distribution.py:109-112 | A row succeeds exactly when its survey's magnitude column exists; then `magnitude` holds that column's value and every other cell is unchanged. |
| MagnitudeDistribution.StandardizeRows | scripts/plot_magnitude_distribution.py:109-112 | All rows succeed exactly when each row does, and the result row-for-row matches the single-row step. |
| MagnitudeDistribution.StandardizeRowsFirstError | scripts/plot_magnitude_distribution.py:109-112 | A failure is the error of the first failing row. |
| MagnitudeDistribution.StandardizeMagnitude | scripts/plot_magnitude_distribution.py:107-113 | On a frame with rows and columns, `standardize_magnitude` fails (KeyError) exactly when some row's survey or magnitude column is unknown. On a frame without rows or columns it raises ValueError unless the frame has exactly one column. When it succeeds it adds `magnitude`, keeps the row count, sets each row's `magnitude` from its survey's column and leaves every other cell unchanged. |
| MagnitudeDistribution.FilterMagnitude | scripts/plot_magnitude_distribution.py:116-117 | The filter fails when `magnitude` is missing or some magnitude is text. Otherwise it keeps the columns and exactly the rows with a numeric magnitude in the closed interval; NaN rows are dropped. |
| MagnitudeDistribution.FilterMagnitudeOrder | scripts/plot_magnitude_distribution.py:116-117 | Filtering concatenated tables is the concatenation of the filtered parts, so the original order is kept. |
| MagnitudeDistribution.FilterMagnitudeIdempotent | scripts/plot_magnitude_distribution.py:116-117 | Filtering twice with the same bounds is the same as filtering once. |
| MagnitudeDistribution.SurveyRows | scripts/plot_magnitude_distribution.py:124 | A survey's subset holds exactly the rows whose `survey` cell equals it under pandas `==` (NaN matches nothing). |
| MagnitudeDistribution.Percentage | scripts/plot_magnitude_distribution.py:131 | The percentage is exactly 100·outside/total and lies in [0, 100]. |
| MagnitudeDistribution.FainterCount | scripts/plot_magnitude_distribution.py:130 | The number of hosts strictly fainter than the limit is at most the subset size, and zero exactly when none is fainter. |
| MagnitudeDistribution.FainterCountIndices | scripts/plot_magnitude_distribution.py:130 | The count is exactly the number of rows whose magnitude is a number strictly above the limit; NaN never counts. |
| MagnitudeDistribution.StatsFor | scripts/plot_magnitude_distribution.py:124-138 | A survey whose subset is empty gives no entry. Otherwise its entry has `total_hosts` = subset size > 0, `outside` = the number of subset rows strictly fainter than the limit (so ≤ `total_hosts`), and percentage = 100·outside/total in [0, 100]. |
| MagnitudeDistribution.ZtfStats | scripts/plot_magnitude_distribution.py:123-138 | Every summary entry is the entry of one of the surveys iterated. |
| MagnitudeDistribution.ZtfStatsErrPrefix | scripts/plot_magnitude_distribution.py:123-138 | Once a survey has raised, the later surveys do not change the outcome. |
| MagnitudeDistribution.SurveyRowsCount | scripts/plot_magnitude_distribution.py:124-126 | A labelled survey's subset has as many rows as the survey column holds that value. |
| MagnitudeDistribution.StatsForNone | scripts/plot_magnitude_distribution.py:123-128 | Among the surveys that occur, only NaN gives no entry (`total == 0`). |
| MagnitudeDistribution.ZtfStatsSurveys | scripts/plot_magnitude_distribution.py:123-138 | The entries' surveys are the iterated surveys in order, minus NaN. |
| MagnitudeDistribution.StatsTotals | scripts/plot_magnitude_distribution.py:124-135 | Every entry is for a labelled survey, and its `total_hosts` is that survey's count in the survey column. |
| MagnitudeDistribution.TotalHostsCounts | scripts/plot_magnitude_distribution.py:126 | Summed `total_hosts` equal the summed counts of the entries' surveys. |
| MagnitudeDistribution.PercentageOutside | scripts/plot_magnitude_distribution.py:120-124 | Without a `survey` column the summary raises KeyError. |
| MagnitudeDistribution.PercentageOutsideBounds | scripts/plot_magnitude_distribution.py:120-140 | Every summary line names a survey value of the table, counts at least one host and no more outside the limit than hosts, with a percentage in [0, 100]. |
| MagnitudeDistribution.PercentageOutsideCoversRows | scripts/plot_magnitude_distribution.py:120-140 | The summary has one entry per distinct labelled survey in first-appearance order, and its `total_hosts` sum to the number of labelled rows. |
| MagnitudeDistribution.PercentageOutsideZtfLimit | scripts/plot_magnitude_distribution.py:120-140 | The loop that fills `results` computes the specified summary (or the error raised). |
| MagnitudeDistribution.MagnitudeStatsSurveys | scripts/plot_magnitude_distribution.py:203-229 | For any column mappings, the final summary names only surveys those mappings process: merging tags rows with processed surveys, and stacking, standardizing and filtering keep each row's survey. |
| MagnitudeDistribution.ScriptStatsSurveys | scripts/plot_magnitude_distribution.py:13-25 | With Sherlock's and Prost's column mappings, which process only PS1 and dr9, the summary names only those two surveys. |
| MagnitudeDistribution.HostMagnitudeStats | scripts/plot_magnitude_distribution.py:203-229 | The script's run with its own mappings, bounds 10 to 30 and the ZTF limit 20.7: every line of the summary is for PS1 or dr9. |
| AssociationCount.Relabel | scripts/plot_sherlock_prost_association_count.py:15-24 | Every relabelled cell is one of the three display names or "Without host". |
| AssociationCount.RelabelCases | scripts/plot_sherlock_prost_association_count.py:15-24 | dr9, dr2 and latest go to their display names, and exactly the other values (NaN included) go to "Without host". |
| AssociationCount.RelabelCatalogue | scripts/plot_sherlock_prost_association_count.py:20-24 | Relabelling fails exactly when `best_cat_release` is missing. Otherwise it keeps the columns and row count, relabels that column in every row and changes nothing else. |
| AssociationCount.RelabelledCategories | scripts/plot_sherlock_prost_association_count.py:20-24 | Every relabelled value is one of the four display categories. |
| AssociationCount.ClassifiedCandidates | scripts/plot_sherlock_prost_association_count.py:26 | `filtered_candidates` fails exactly when the classification column is missing; otherwise it holds exactly the candidates with a classification. |
| AssociationCount.ClassifiedOrder | scripts/plot_sherlock_prost_association_count.py:26 | Filtering keeps the original row order (it distributes over concatenation). |
| AssociationCount.JoinedClassified | scripts/plot_sherlock_prost_association_count.py:26-32 | Every joined row is classified and has an `objectId` present in the left table and among the filtered (classified) candidates, so a row whose `objectId` is not among the filtered candidates does not appear. |
| AssociationCount.JoinedKeepsColumn | scripts/plot_sherlock_prost_association_count.py:43-47 | A column only the cross-match table has keeps, in every joined row, a value taken from that table. |
| AssociationCount.CountOf | scripts/plot_sherlock_prost_association_count.py:40 | A category missing from a count series counts zero (`fillna(0)`). |
| AssociationCount.CountOfValueCounts | scripts/plot_sherlock_prost_association_count.py:34-40 | A category's zero-filled count is its number of occurrences in the column. |
| AssociationCount.CountRows | scripts/plot_sherlock_prost_association_count.py:37-40 | The count table has one row per category, holding its before and after counts, zero-filled. |
| AssociationCount.CountRowsTotals | scripts/plot_sherlock_prost_association_count.py:37-40 | Each column of the count table sums to the counts of its categories. |
| AssociationCount.LabelsOfValueCounts | scripts/plot_sherlock_prost_association_count.py:34-35 | The categories of `value_counts` are exactly the values of the column. |
| AssociationCount.CountsTable | scripts/plot_sherlock_prost_association_count.py:37-40 | The count table lists each category once, each a label of one of the two series, with its count in each series and 0 where a series lacks it. |
| AssociationCount.CountsTableLabels | scripts/plot_sherlock_prost_association_count.py:37-40 | The count table lists every category of either series exactly once, and no other. |
| AssociationCount.CountsTableCounts | scripts/plot_sherlock_prost_association_count.py:37-40 | Each category's "before" and "after" entries are its occurrences before and after the join, so one absent after the join counts 0. |
| AssociationCount.CountsTableTotals | scripts/plot_sherlock_prost_association_count.py:34-40 | The "before" column sums to the Prost row count and the "after" column to the joined row count. |
| AssociationCount.TwoCategories | scripts/plot_sherlock_prost_association_count.py:49-55 | "Without association" and "With association" sum to the total count. |
| AssociationCount.CountAssociated | scripts/plot_sherlock_prost_association_count.py:49-55 | The `'0'` cells and the cells other than `'0'` (NaN included) partition the column. |
| AssociationCount.TwoCategoriesOfColumn | scripts/plot_sherlock_prost_association_count.py:49-62 | "Without association" is the number of `'0'` values (0 if none). "With association" is the number of all other values, NaN included. The two sum to the row count. |
| AssociationCount.Tabulate | scripts/plot_sherlock_prost_association_count.py:20-62 | The tabulation fails (KeyError) exactly when one of the columns it reads is missing: `best_cat_release` or `objectId` in the Prost table, the classification or `objectId` in the candidates, `objectId` or `catalogue_table_name` in the Sherlock table. |
| AssociationCount.TabulateTotals | scripts/plot_sherlock_prost_association_count.py:20-67 | The "Hostless candidates" column of the Prost table sums to the Prost row count. Sherlock's split before the join covers its rows, and the split after covers the joined rows. |
| AssociationCount.TabulateBounded | scripts/plot_sherlock_prost_association_count.py:20-67 | With unique candidate ids, no Prost category counts more after the join than before, every listed category occurs before the join, and Sherlock's "Without association" does not grow. |

## Left out

- Reading CSV files, creating directories and saving figures. The files
  `read_csv` would read are the parameter `files` (file name to table); the
  cross-match results and candidate tables are parameters.
- All plotting: `plot_magnitude_distribution` and the bar charts.
- The display renaming through `survey_name_map`. Summary entries carry the
  survey value itself.
- scripts/plot_tns_distribution.py, which is plotting plus statistics over
  floating point.
- The module-level statements of scripts/plot_magnitude_distribution.py
  are `HostMagnitudeStats`, without the loading of the two result files
  (they are parameters) and without printing the summary.
- MagnitudeDistribution.SurveyBlockRunCells compares the run's rows cell by
  cell through `Get`, which reads a missing column as NaN. It therefore does
  not tell a missing cell from a NaN one; the unique-key case of
  SurveyBlockRows states whole-row equality.
- MagnitudeDistribution.HostMagnitudeStats skips the plot the script draws
  before the summary, and with it the error that `plt.subplots(nrows=0)`
  raises when no row survives the magnitude filter. The script then stops
  before printing any summary, whereas the model returns an empty summary.
- Joins.Merge lists each left row's matches in left-row order. pandas does
  this for inner and left merges from version 2.2 on; earlier versions
  grouped the rows of an inner merge by key, in order of first appearance.
  Every count in the model is independent of this order.
- Frames.Collect, MagnitudeDistribution.HostMetadata and
  MagnitudeDistribution.MergedWithHosts iterate every entry of their
  mapping. Iterating a Python dict visits a repeated key once, at its first
  position, with its last value. The mappings in both scripts have distinct
  keys, where the two agree; a mapping with a repeated key is not modelled
  faithfully.
- `pd.to_numeric(errors="coerce")` is the number parser `parse`, given as a
  parameter; float parsing and rounding are not modelled. Magnitudes are
  exact reals, and the percentage is exact rather than floating point.
- NaN is a cell of its own. pandas compares it unequal to everything in
  boolean masks, and the model does the same (`CellEq`). In merge keys,
  however, the model matches NaN with NaN, as pandas does.
- The `_x`/`_y` suffixes `merge` adds to columns present on both sides.
  In the model the right-hand value wins on such a clash.
- Dedup.SortValues: the sort is a stable insertion sort, whereas pandas'
  default sort is not stable. Which of several tied rows survives
  `drop_duplicates` is therefore not promised; `Dedup.KeepBrightest` states
  only that the kept magnitude is the least of its host (NaN last).
- `str.lower()` is modelled on ASCII letters only. No other character
  lowers to one of the letters of "none".
- Frames.ValueCounts lists categories in first-appearance order, not by
  descending count. Order is presentation only: every lemma about counts is
  order-free. The index order of the count table is not modelled either.
- The messages pandas attaches to `KeyError` and `TypeError` are not
  modelled. Which column is missing is recorded only where the model
  raises it.
- Integer widths: counts are unbounded naturals, which is faithful for
  tables that fit in memory.
