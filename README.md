# Control-data pipeline, modelled in Dafny

This project models the mouse control-data script `generate_control_data.py`. The script reads observation records
spread over many partition files. It keeps thirteen requested columns and concatenates the partitions
into one table, `lazy_df`. From that table it produces two outputs:

- **the unknown-colony table**: the rows whose `colony_id` is `"unknown"`, with four columns renamed, deduplicated;
- **the joined table**: the rows of the control group whose colony is known, without allele and gene,
  deduplicated, then left-joined on `colony_id` with the deduplicated (allele, gene, colony) triples of the
  experimental group, with the same four columns renamed. This table is written *without* a final
  deduplication: the deduplicated result at line 130 is discarded.

At every checkpoint the script prints the number of rows and of distinct rows
(`get_unique_and_statistics`). The model returns these counts as `Statistics` values instead of printing them.

Modules:

- `Wrappers` holds `Option` and `Result`.
- `Columns` holds the column names used by the script, as a datatype.
- `Frames` gives the meaning of the engine operators the script uses on an in-memory table:
  - `Select` for `select`
  - `Concat` for `concat`
  - `Filter` for `filter` with `==` and `!=` against a literal
  - `Drop` for `drop`
  - `Unique` for `unique`
  - `LeftJoin` for `join(how="left")`
  - `Rename` for `rename`
- `ControlData` holds the script itself: its constants, each stage as a function, and the whole run (`Script`,
  `Run`). It also holds lemmas that state what the script's outputs are in terms of the rows of `lazy_df`.

A table is a `Frame`: a list of distinct column names and a sequence of rows. Each row has one cell per column. A cell is
`Option<string>`, where `None` is null. Comparisons follow the engine's null rules:
- a null cell satisfies neither `== lit` nor `!= lit`, so both filters drop it;
- a null join key matches nothing.

Operations the engine rejects are `Failure` results:
- a missing column in `select`, `drop`, `filter`, `join` or `rename`;
- a duplicate name;
- an empty `concat`;
- partitions with different schemas.

What the script does not do, and the model therefore does not do either:
- It does not truncate dates.
- It does not replace nulls with `"NA"`.
- It does not rename `gene_accession_id`.
- It does not reorder the output columns: the joined table has the eleven control columns, renamed, then
  `allele_accession_id` and `gene_accession_id`.
- The unknown-colony table keeps all thirteen requested columns, allele and gene included, with four renamed.
- A missing input directory is not reported as such. The glob is then empty and `concat` fails, modelled as
  `Failure(NothingToConcatenate)`.

## Model

| member | source | states |
|---|---|---|
| Frames.Select | hmgu/control_data/generate_control_data.py:48 | succeeds exactly when every selected name exists and none is repeated; the result has those columns in that order and keeps every row |
| Frames.SelectCells | hmgu/control_data/generate_control_data.py:48 | cell j of selected row i is row i's cell under the j-th selected name |
| Frames.SelectSuffix | hmgu/control_data/generate_control_data.py:105 | selecting the names from position d on keeps each row's cells from position d on |
| Frames.SelectAll | hmgu/control_data/generate_control_data.py:47-50 | selecting from every partition succeeds exactly when it succeeds on each one, and returns the selections in order |
| Frames.Concat | hmgu/control_data/generate_control_data.py:53 | fails on no input or differing schemas; otherwise has the common columns, and each row occurs in it as often as in all inputs together |
| Frames.ConcatCount | hmgu/control_data/generate_control_data.py:53-56 | the concatenation has as many rows as all inputs together |
| Frames.Filter | hmgu/control_data/generate_control_data.py:81 | succeeds exactly when the column exists; keeps exactly the rows whose cell satisfies the comparison (a null never does), each with all its copies, and drops every copy of the others; columns unchanged |
| Frames.FilterAt | hmgu/control_data/generate_control_data.py:98 | by position: a row is kept exactly when it is an input row whose cell at that position satisfies the comparison, and then as many times as it occurs in the input |
| Frames.FilterPartition | hmgu/control_data/generate_control_data.py:79-98 | the `== v` filter keeps as many rows as there are cells equal to v; the `== v` rows, the `!= v` rows and the null rows add up to every row |
| Frames.HoldsMeaning | hmgu/control_data/generate_control_data.py:81 | `== v` holds exactly on a non-null v; `!= v` holds exactly on a non-null cell other than v |
| Frames.Drop | hmgu/control_data/generate_control_data.py:105 | succeeds exactly when every dropped name exists; keeps exactly the other columns and every row |
| Frames.DropGet | hmgu/control_data/generate_control_data.py:105 | the kept columns are the others in their order, and every kept column holds the same cell as before |
| Frames.Unique | hmgu/control_data/generate_control_data.py:16 | no duplicate rows, exactly the same set of rows, at most as many rows, and as many exactly when the input had no duplicates |
| Frames.Dedup | hmgu/control_data/generate_control_data.py:16 | the deduplicated sequence is duplicate-free with the same elements, and is the input itself exactly when the input had no duplicates |
| Frames.DistinctSameElements | hmgu/control_data/generate_control_data.py:16 | two duplicate-free sequences with the same elements are permutations of each other |
| Frames.LeftJoin | hmgu/control_data/generate_control_data.py:117-121 | succeeds exactly when both sides have the key and the joined names are distinct; columns are the left ones, then the right non-key ones |
| Frames.LeftJoinFanOut | hmgu/control_data/generate_control_data.py:117-121 | a left row occurring n times, whose key matches m right rows, starts exactly n * max(m, 1) output rows |
| Frames.LeftJoinRowShape | hmgu/control_data/generate_control_data.py:117-121 | every output row is a left row followed by a matching right row without its key, or by nulls when nothing matches |
| Frames.LeftJoinPairs | hmgu/control_data/generate_control_data.py:117-121 | every left row paired with every right row of the same non-null key is in the output |
| Frames.LeftJoinDistinct | hmgu/control_data/generate_control_data.py:117-121 | duplicate-free inputs give a duplicate-free output |
| Frames.MatchCountMeaning | hmgu/control_data/generate_control_data.py:117-121 | a key matches nothing exactly when no right row has it (a null key never matches); over distinct right rows the count is the number of distinct matching rows |
| Frames.JoinRowsMembers | hmgu/control_data/generate_control_data.py:117-121 | the output rows are exactly what the left rows contribute |
| Frames.Rename | hmgu/control_data/generate_control_data.py:123-128 | succeeds exactly when every old name exists and the new names are distinct; rows untouched, each column renamed in place |
| Frames.NewName | hmgu/control_data/generate_control_data.py:82-87 | a name outside the mapping is kept; a mapped name becomes the name the mapping pairs it with |
| Frames.RenameGet | hmgu/control_data/generate_control_data.py:82-87 | under its new name every column holds what it held before |
| ControlData.GetUniqueAndStatistics | hmgu/control_data/generate_control_data.py:15-19 | same columns, duplicate-free, same set of rows; reports the row count and the distinct count, which are equal exactly when the input had no duplicates |
| ControlData.GetUniqueIdempotent | hmgu/control_data/generate_control_data.py:15-19 | deduplicating a deduplicated table removes nothing and reports equal counts |
| ControlData.SelectRequested | hmgu/control_data/generate_control_data.py:21-35 | reducing a partition to the requested columns succeeds exactly when it has them all, and keeps each row's cells under those names |
| ControlData.LazyDf | hmgu/control_data/generate_control_data.py:46-56 | succeeds exactly when there is a partition and each has the requested columns; has those thirteen columns, as many rows as all partitions, and each requested row of the partitions as often as it occurs in them together |
| ControlData.UnknownStage | hmgu/control_data/generate_control_data.py:79-89 | the unknown-colony table: the renamed columns, duplicate-free, exactly the rows with colony "unknown"; reports the number of "unknown" colony cells |
| ControlData.UnknownRenamed | hmgu/control_data/generate_control_data.py:82-87 | the renaming turns the requested columns into the unknown-colony table's columns |
| ControlData.FilteredDf | hmgu/control_data/generate_control_data.py:98 | exactly the rows whose colony is neither null nor "unknown", each as often as in `lazy_df`; same columns |
| ControlData.PartitionCount | hmgu/control_data/generate_control_data.py:79-98 | the "unknown" rows, the filtered rows and the null-colony rows count every row once |
| ControlData.PartitionComplete | hmgu/control_data/generate_control_data.py:79-98 | every row of `lazy_df` with a colony is kept by exactly one of the "unknown" filter and the `!= "unknown"` filter; a row with a null colony is kept by neither |
| ControlData.ControlOfSource | hmgu/control_data/generate_control_data.py:98-106 | every control-group row of `lazy_df` whose colony is known reaches the control table, without allele and gene |
| ControlData.DropAlleleAndGene | hmgu/control_data/generate_control_data.py:105 | dropping allele and gene leaves the control columns and cells 2 to 12 of every row |
| ControlData.ControlDropped | hmgu/control_data/generate_control_data.py:105 | dropping allele and gene leaves the eleven control columns |
| ControlData.ControlStage | hmgu/control_data/generate_control_data.py:101-106 | eleven columns, duplicate-free, exactly the rows of the control group without allele and gene; reports the number of control cells |
| ControlData.SelectExperimental | hmgu/control_data/generate_control_data.py:112 | the selection keeps cells 0, 1 and 6 (allele, gene, colony) of every row |
| ControlData.ExperimentalStage | hmgu/control_data/generate_control_data.py:109-114 | three columns, duplicate-free, exactly the (allele, gene, colony) triples of the experimental rows; reports the number of experimental cells |
| ControlData.JoinedJoin | hmgu/control_data/generate_control_data.py:117-121 | the join's columns are the control columns, then allele and gene, with no `_right` suffix |
| ControlData.JoinedRenamed | hmgu/control_data/generate_control_data.py:123-128 | the renaming turns them into the output table's thirteen columns |
| ControlData.JoinedDf | hmgu/control_data/generate_control_data.py:117-128 | has the thirteen output columns, and its rows are the join of the control rows with the experimental rows on their colony cells |
| ControlData.JoinedShape | hmgu/control_data/generate_control_data.py:117-121 | every joined row is a control row followed by the allele and gene of an experimental row of its colony, or by two nulls when there is none |
| ControlData.JoinedKeeps | hmgu/control_data/generate_control_data.py:117-121 | every control row appears next to each experimental row of its colony, or next to two nulls when there is none |
| ControlData.JoinedFanOut | hmgu/control_data/generate_control_data.py:117-121 | a control row occurring n times starts n * max(m, 1) joined rows, m being the experimental rows of its colony |
| ControlData.JoinedNoDuplicates | hmgu/control_data/generate_control_data.py:117-121 | duplicate-free control and experimental tables give a duplicate-free join |
| ControlData.Script | hmgu/control_data/generate_control_data.py:55-133 | reports the row count of `lazy_df`; both tables have their output columns; the unknown-colony table holds exactly the rows with colony "unknown"; neither table has duplicate rows, and the counts reported about the joined table are equal |
| ControlData.ScriptStatistics | hmgu/control_data/generate_control_data.py:89-114 | the first three reports, in order: the unknown, control and experimental cell counts, each with its distinct rows |
| ControlData.Run | hmgu/control_data/generate_control_data.py:46-133 | fails exactly when there is no partition or one lacks a requested column; otherwise reports the total row count of all partitions and runs the script on `lazy_df` |
| ControlData.JoinedRowsOf | hmgu/control_data/generate_control_data.py:98-128 | every output row is a control row of `lazy_df` with a known colony, without allele and gene, followed by the allele and gene of an experimental row of that colony, or by nulls when it has none |
| ControlData.JoinedPairsOf | hmgu/control_data/generate_control_data.py:98-128 | every such control row appears next to every experimental row of its colony, or next to nulls when it has none |
| ControlData.JoinedFanOutOf | hmgu/control_data/generate_control_data.py:98-128 | every such control row starts exactly max(m, 1) output rows, m being the number of distinct experimental (allele, gene, colony) triples of its colony |
| ControlData.JoinedKnownColonies | hmgu/control_data/generate_control_data.py:98-128 | no output row has a null or "unknown" colony, and every output row is of the control group |
| ControlData.ExperimentalOfColony | hmgu/control_data/generate_control_data.py:109-121 | the experimental rows that the join matches for a known colony are that colony's distinct triples |

## Left out

- Reading the partitions: the glob, the lazy scan and the output-directory creation. The partitions are a
  parameter (`Run(files)`). Writing the CSV files and `collect` are not modelled: `Script` returns the two tables.
- The printed messages: the counts are returned as `Statistics`, and their text is not modelled.
- The allele diagnostics (`allele_rows`, lines 59-72) only print counts that nothing else uses.
- The notebook cells that show the schema and a sample (lines 136 onwards).
- Row order: the model fixes one order, but the order of the files the glob (line 49) lists is not fixed, and
  the engine's `unique` and `join` do not promise one.
  Every statement about tables is about which rows they hold and how many copies of each.
- Lazy evaluation, the query plan and memory use: tables are values.
- Column types: every cell is a nullable string, so weight and dates are kept as given.
- `Run` never fails on a dtype mismatch between partitions, which the engine rejects at `concat` (for
  example `weight` as a float in one file and a string in another).
- Row counts are unbounded `nat`s. The engine's default build limits a table to 2^32 - 1 rows, and the
  `pl.len()` counts are 32-bit integers; that limit is not modelled.
- Column names: the ones the script uses are constructors of `Column`. Any other name is `Other(n)`, and the
  `_right` names of a clashing join are `Suffixed(c)`, which the script never produces (`JoinedJoin`).
- Engine error kinds: `pl.concat` of an empty list raises a `ValueError` at once, at line 53; the engine raises
  the other errors when the plan is collected. The model returns `ColumnNotFound`, `DuplicateColumn`,
  `SchemaMismatch` or `NothingToConcatenate` at the operator that fails.
