# Duplicate-address selection, modelled in Dafny

This project models the core of `yandex-data`. That core is the pipeline that finds
property-transfer records whose address occurs more than twice, and that keeps exactly
the original rows belonging to those addresses. It has three steps:

1. **Composite key.** `concat_cols` and `add_join_column` (`src/common/functions.py`)
   assign a string column to a frame in place. The column joins a row's key values with
   a divider, `|` by default.
2. **Duplicate groups.** `process_grouping_data` (`src/process.py`) counts rows per tuple
   of group-column values, keeps the tuples counted more than twice, and drops the count.
3. **Semi-join back.** `process_joining_data` (`src/process.py`) adds the key to the
   group frame and inner-joins the source with it on the key. It then drops every row
   with a missing cell, the right-hand `_r` copies of the group columns, and the key and
   its copy. With no group, it is meant to return an empty frame; as written it raises
   (see Findings).
4. **Orchestration.** `process_data` chains these steps. Its lines 153-162 are the part
   modelled here.

Files:

- `tables.dfy` (module `Tables`) holds the data model and the frame operations:
  - a cell is `Option<string>`, where `None` is a missing value;
  - a row maps column names to cells;
  - a `Table` is an ordered schema plus rows in order;
  - `Assign` is `df[name] = values`, and `Drop`, `DropNA` and `RemoveNames` are the
    frame operations the code uses;
  - the class `Frame` is a frame changed in place.
- `functions.dfy` (module `Functions`) models the two key builders.
  - `ConcatCols` is a method whose loop assigns the accumulating column step by step.
    It is proved equal to the fold `ConcatLoop`, and the key properties are proved about
    that fold.
  - `AddJoinColumn` is a method proved against `AddJoinColumnSpec`.
  - `Join` and `Split` give the key its meaning: a key is its segments joined by the
    divider.
- `process.dfy` (module `Process`) models grouping, the join chain and the pipeline.
  - Grouping is the fold `Aggregate`, a count per tuple in first-occurrence order, with
    `KeyCounts` as the map view. `Having` applies the strict `> 2` filter.
  - The join is the vaex inner join with `rsuffix="_r"`, followed by `dropna` and the
    two drops.
  - `Expand` is the reference definition of what that chain yields. `SemiJoinRows` is
    the semi-join it equals when the group keys are distinct.
  - `Pipeline` and the method `ProcessData` model `process_data`.

The main theorem is `PipelineSelectsDuplicates`. Assume an opened frame has the six
address columns, no `concat_col`, none of the seven columns `paon_r`, `street_r`,
`locality_r`, `towncity_r`, `district_r`, `country_r` and `concat_col_r`, and no `|`
inside an address value.
Then the pipeline returns the opened frame's schema and exactly the rows that are
complete and whose address tuple occurs more than twice. Each such row appears once, in
source order.

Points where the model states behaviour that is easy to get wrong:

- **Missing address values.** `add_join_column` does not replace a missing address value
  with `""`. vaex string `+` with a missing operand gives a missing result, so the key
  of such a row is missing (`JoinKeyFixedOrder`). Only `concat_cols` fills missing
  values with `""`.
- **Which rows are dropped.** The code does not drop rows whose key is all empty as
  such: `dropna()` drops every row with a missing cell in any column, key columns or not.
- **Grouping versus joining.** Grouping uses the tuple of group-column values, but the
  join matches on the string key. When a value contains `|`, two different tuples can
  share a key (`KeyCollision`), and the join can then repeat a row (`Expand` counts one
  copy per matching group row). The main theorem therefore assumes that no value
  contains `|`.
- **Row order.** The library does not promise an output order. The model fixes one: left
  (source) row order, then right-row order for each left row. It also fixes
  first-occurrence order for groups.
- **No duplicate group.** With no duplicated group the result is meant to be an empty
  frame, but the code raises instead (see Findings). The model uses the intended empty
  result and keeps the code as written beside it.

## Model

| member | source | states |
|---|---|---|
| `Tables.Frame.SetColumn` | src/common/functions.py:70-82 | Assigning a column changes the frame in place. The new frame is `Assign` of the old one: the column is appended when new and overwritten otherwise. Well-formedness is kept. |
| `Tables.RemoveNames` | src/process.py:91-96 | The schema after `drop`: a name remains iff it was in the schema and is not dropped. |
| `Tables.CompleteRows` | src/process.py:89 | `dropna()`: a row is kept iff it is an input row with no missing cell; every kept row is complete and one of the input rows. |
| `Tables.DropColumns` | src/process.py:91-96 | `drop` succeeds iff every named column is in the frame, and then removes exactly those names from the schema and every row; otherwise it raises for an absent named column. |
| `Functions.ConcatCols` | src/common/functions.py:54-65 | The loop assigns `dt[name]` column by column. The frame after the call, and the name returned or the error raised, equal the fold `ConcatColsSpec` over the old frame. An absent column raises and leaves the earlier steps' assignments in place. |
| `Functions.ConcatColsKey` | src/common/functions.py:56-60 | Take a non-empty list of present columns that excludes `name`. Every row's new cell is its values in list order, missing ones as `""`, with the divider between adjacent values only. The call returns `name`. |
| `Functions.ConcatColsNeverMissing` | src/common/functions.py:56-63 | After a successful call with at least one column, no row's key is missing, even when all of the row's key values are missing. |
| `Functions.ConcatColsEmpty` | src/common/functions.py:56-63 | With an empty column list the loop assigns nothing. Line 63 then raises unless the frame already has column `name`, which is left unchanged. |
| `Functions.ConcatColsChangesOnly` | src/common/functions.py:54-65 | Success or failure, only column `name` is added or overwritten. Every other cell and the row count stay the same, and success returns `name`. |
| `Functions.ConcatColsKeyInjective` | src/common/functions.py:56-60 | With a one-character divider that no value contains, two rows get equal keys iff their values on `cols`, missing read as `""`, are pairwise equal. |
| `Functions.ConcatColsKeyShape` | src/common/functions.py:56-60 | With an unescaped one-character divider, a key over k columns holds exactly k - 1 dividers. Splitting it at them gives back the row's values. |
| `Functions.StepExtends` | src/common/functions.py:60 | A step after the first extends every row's key by the divider and the next value. |
| `Functions.SplitJoin` | src/common/functions.py:56-60 | Round trip: splitting a joined key at its divider returns the parts when no part contains the divider. |
| `Functions.JoinInjective` | src/common/functions.py:56-60 | Joining with an unescaped divider is injective, in both directions. |
| `Functions.JoinDividerCount` | src/common/functions.py:56-60 | A key joined from k unescaped parts contains k - 1 dividers. |
| `Tables.FirstMissing` | src/common/functions.py:70-82 | Reports an absent column iff one of the listed columns is not in the schema, and reports one that is absent. |
| `Functions.AddJoinColumn` | src/common/functions.py:68-83 | If all six address columns exist, it returns `name` and the frame becomes `AddJoinColumnSpec` of the old frame. Otherwise it raises for an absent column, and the frame is unchanged. |
| `Functions.JoinKeyFixedOrder` | src/common/functions.py:70-82 | The key is the values of `paon`, `street`, `locality`, `towncity`, `district` and `country` in that order, with the divider between adjacent values only. It is missing exactly when one of the six values is missing. |
| `Functions.JoinKeyIgnores` | src/common/functions.py:70-82 | The key reads only the six address cells: setting any other column leaves it unchanged. |
| `Functions.AddJoinColumnShape` | src/common/functions.py:68-83 | The call succeeds iff the six address columns exist. It then adds or overwrites column `name` only, and each row's new cell is that row's key. |
| `Functions.AddJoinAgreesWithConcat` | src/common/functions.py:54-82 | `concat_cols` over the address columns always gives a key. `add_join_column` gives the same key iff none of the six values is missing. |
| `Functions.JoinKeyInjective` | src/common/functions.py:70-82 | Take two rows with present keys and no divider character in any address value. Their keys are equal iff their six address values are equal. |
| `Functions.KeyCollision` | src/common/functions.py:70-82 | The divider is not escaped: a row whose first two address values are `1`+divider+`A` and `B`, and one whose values are `1` and `A`+divider+`B`, differ but get the same key. |
| `Process.BumpCounts` | src/process.py:60-62 | Counting one more row raises its tuple's count by one and leaves the other counts alone. The total grows by one. |
| `Process.BumpKeys` | src/process.py:60-62 | Counting one more row keeps the group keys distinct; the keys afterwards are the old keys plus the new tuple. |
| `Process.AggregateCounts` | src/process.py:60-62 | The group keys are pairwise distinct and are exactly the tuples seen. Each group's count is the number of rows with that tuple. The counts sum to the row count. |
| `Process.KeyCountsCorrect` | src/process.py:60-62 | Read as a map, the counts have exactly the seen tuples as keys, each mapped to its number of occurrences. |
| `Process.HavingKeys` | src/process.py:63 | The filter keeps a group iff its count is strictly greater than 2, and it keeps only existing groups. |
| `Process.HavingDistinct` | src/process.py:63 | The filter keeps the group keys distinct. |
| `Process.TupleRowFacts` | src/process.py:60-63 | A group row holds exactly the group-by columns, and its values are the group's tuple. |
| `Process.ProcessGroupingData` | src/process.py:56-65 | Grouping succeeds iff every group column exists. The result's schema is then exactly the group columns, so the count column has been dropped. |
| `Process.GroupingSelects` | src/process.py:56-65 | The grouped frame is well formed and its tuples are pairwise distinct. A tuple is present iff more than two source rows have it, so one seen twice is left out and one seen three times is kept. |
| `Process.GroupCountsSum` | src/process.py:60-62 | Before the threshold is applied, the per-group counts sum to the number of rows. |
| `Process.EmptyBranchDefect` | src/process.py:97-99 | With an empty group frame, the code as written raises on the unset configuration, while the intended result is an empty frame with the source's columns (key column removed). With a non-empty group frame the two agree. |
| `Process.ProcessJoiningData` | src/process.py:68-100 | Returns `JoiningSpec` of its inputs. In the non-empty branch `dh` is changed in place, gaining the key column; in the empty branch `dh` is left alone. |
| `Process.MergeFacts` | src/process.py:87 | A joined row holds the left row's cells unchanged plus each right cell under its `_r` name. |
| `Process.MergeComplete` | src/process.py:87-89 | A joined row survives `dropna` iff its left row is complete and its right row has every cell. |
| `Process.MatchHead` | src/process.py:87-96 | One right row contributes, after `dropna` and the drops, the left row without its key iff the keys are equal, the left row is complete and the right row has all its cells. |
| `Process.MatchesClean` | src/process.py:87-96 | After `dropna` and the drops, the joined rows of one complete left row are that row, key removed, once per complete right row with an equal key. An incomplete left row contributes nothing. |
| `Process.JoinRowsClean` | src/process.py:87-96 | The same holds for the whole join, left row by left row in order. |
| `Process.MatchCountKeys` | src/process.py:86-89 | A group row matches a source row iff the two carry the same present key, because a group row's key is missing exactly when one of its address values is. |
| `Process.ColumnsAfterJoin` | src/process.py:87-96 | After the join and the two drops, the schema is the source's without the key. |
| `Process.ChainExpands` | src/process.py:86-96 | The join chain on the keyed group frame yields `Expand`: each complete source row, key removed, once per group row with the same present key. The schema is the source's without the key. |
| `Process.KeyNotSuffixed` | src/process.py:91-96 | No right-hand copy of an address column is `concat_col` or `concat_col_r`, so the first drop leaves both for the second. |
| `Process.KeyedGroupFrame` | src/process.py:83-86 | Keying the grouped frame succeeds, appends `concat_col` to the six address columns, and each row's new cell is the key of its own address values. |
| `Process.JoiningExpands` | src/process.py:83-96 | Under the pipeline's hypotheses, the non-empty branch of `process_joining_data` yields `Expand` over the group frame's keys. |
| `Process.CountKeyPositive` | src/process.py:87 | A source row has a join partner iff its key is present and is one of the group keys. |
| `Process.CountKeyAtMostOne` | src/process.py:87 | With distinct present group keys, a source row has at most one join partner. |
| `Process.ExpandSound` | src/process.py:87-89 | Soundness: every output row has no missing cell. It is a complete source row, key removed, whose key is one of the group keys. |
| `Process.ExpandComplete` | src/process.py:87-89 | Completeness: every complete source row whose key is a group key is in the output, key removed. |
| `Process.ExpandSemiJoin` | src/process.py:87-89 | With distinct present group keys, the inner join is exactly the semi-join: each qualifying source row appears once, in source order. |
| `Process.JoiningContract` | src/process.py:68-100 | Soundness and completeness hold in both branches, and no output cell is missing. The schema is the source's without the key, so it holds neither `concat_col`, `concat_col_r` nor any `<group column>_r`. |
| `Process.ProcessData` | src/process.py:153-162 | Returns `Pipeline` of the opened frame. The opened frame gains the key column in place. |
| `Process.OccurrencesPositive` | src/process.py:60-62 | A tuple is counted at least once iff some row has it. |
| `Process.GroupRowsUnescaped` | src/process.py:60-63 | Every group row's address values come from a source row, so they contain no divider character when the source's values do not. |
| `Process.GroupKeysDistinct` | src/process.py:86 | Distinct group tuples without the divider character give distinct present join keys. |
| `Process.KeyMatchesTuple` | src/common/functions.py:70-82 | For a source row with all six address values, a group row has the same key iff it has the same address tuple. |
| `Process.RowSelected` | src/process.py:86-89 | A source row with its key added survives the join chain iff it is complete and its address tuple occurs more than twice. |
| `Process.PipelineSelectsDuplicates` | src/process.py:153-162 | Assume the opened frame has the address columns, no `concat_col`, none of `paon_r`, `street_r`, `locality_r`, `towncity_r`, `district_r`, `country_r` and `concat_col_r`, and no divider character in an address value. Then the pipeline returns the frame's schema and exactly the complete rows whose address tuple occurs more than twice, each once, in source order. |
| `Process.NoDuplicatesRaises` | src/process.py:97-99 | When no address tuple occurs more than twice, the code as written raises. The intended pipeline returns the source schema with zero rows. |
| `Process.PipelineExample` | src/process.py:153-162 | Six complete rows with address tuples A, A, A, B, B, C give exactly the three A rows. B, seen twice, is not more than two. |

## Left out

- **Not modelled:** downloading the source file, the path helpers, reading the raw CSV for the empty frame, CSV to HDF5 conversion, opening the HDF5 file and the CSV export (`src/common/functions.py:25-45,86-119`, `src/process.py:29-53,103-122`). All of these are file and network I/O.
- **Configuration:** Hydra configuration loading, `.env` loading, the `DEBUG` switch, row limits, timing (`calculate_elapsed_time`) and progress output. These are environment, clock and console concerns. The configured group columns become the `groupby` parameter, and the theorems take them to be the six address columns that `add_join_column` hard-codes.
- **Concurrency:** vaex's chunked, parallel evaluation is not modelled. The model computes each step over the whole table at once.
- **Empty frame:** the header of `empty_dataframe` comes from the raw CSV file. It is modelled as the source frame `df`'s columns without the key column; no join happens in that branch.
- **Row order:** vaex does not promise an order for `groupby` groups or for inner-join output. The model fixes first-occurrence group order and left-then-right join order.
- **Duplicate right-hand keys:** the library may refuse a join whose right-hand keys repeat. The model joins each pair instead. Under the pipeline's hypotheses the present keys are proved distinct (`GroupKeysDistinct`), so this matters only for missing keys or `|` collisions.
- **Cell types:** all cells are strings or missing. The key is built from strings, and the count column is never exported.
- Process.ProcessData: requires pairwise distinct group columns, because a frame with a repeated column name cannot be represented in this model.
- Functions.ConcatCols: the final `astype("string")` on line 63 is modelled as a read of column `name` (raising when it is absent). It changes no value, since every cell is already a string or missing.

## Findings

| source | as written | input that shows it | evidently intended | confidence | as-written member | corrected member |
|---|---|---|---|---|---|---|
| src/process.py:97-99 | `process_data` assigns `HYDRA_CONFIG` at line 128 without a `global` statement, so the module-level value stays `None`. The empty branch then calls `empty_dataframe(None)`, which raises when it reads `config.processed.path`. | Any opened frame in which no address tuple occurs more than twice, e.g. five rows with distinct addresses. | An empty result with the source's columns and zero rows, so that nothing is exported. | not executed | `Process.JoiningAsWritten`, exhibited by `Process.EmptyBranchDefect` and `Process.NoDuplicatesRaises` | `Process.JoiningSpec`, proved by `Process.JoiningContract` and `Process.PipelineSelectsDuplicates` |
