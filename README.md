# csv join: a verified model of the hash join

The program joins two CSV tables on a column named by the user. It finds the
key column in each table's header, merges the two headers, and loads every
data row of the secondary ("join") table into a hash map keyed by that
column. A later row with the same key replaces an earlier one. It then
streams the primary ("from") table. For each row whose key is in the map it
writes the primary row followed by the secondary row without its key column.
Rows with no partner are dropped.

This project models that core in Dafny, following `src/main.rs`:

- `types.dfy` (module `Types`): rows as `seq<string>`, the index as
  `map<string, Row>`, `Option`/`Result`, and the count of rows too short to
  hold a given field.
- `key_lookup.dfy` (module `KeyLookup`): `find_key_position` as the function
  `FindKeyPosition`. Its search loop is the recursive function `SearchFrom`.
- `row_merge.dfy` (module `RowMerge`): `join_rows` as the method `JoinRows`,
  keeping the source's two push loops. It is specified by the function
  `Merge` = `from + Without(to, exclude)`.
- `join_index.dfy` (module `JoinIndex`): the index-build loop of `main` as
  the method `BuildIndex`, specified by `IndexOf` (insertion in input order,
  overwrite on a repeated key) and `ShortCount`.
- `stream_join.dfy` (module `Streaming`): the primary-table loop of `main`
  as the method `StreamJoin`, specified by `JoinedRows` (emitted rows) and
  `MissCount` (keys not in the index).
- `pipeline.dfy` (module `Pipeline`): `main` without I/O, as the method
  `Join`. It resolves both key positions, merges the headers, builds the
  index and streams the primary rows. The result is either the written rows
  (header first) with the two key positions and the five counters, or
  `KeyNotFound`.

Points where the model follows the code rather than the prose description
of the system:

- A primary row too short to hold the key is counted only in the total.
  The code has no counter for it (`src/main.rs:112`). `no_key_in_join_count`
  counts only keys missing from the index.
- `KeyNotFound` carries the key and the header searched, as the code's error
  message does. It does not name the file.
- The counters are reported in the result of `Join`. The code only prints
  them.

## Model

| member | source | states |
|---|---|---|
| KeyLookup.SearchFrom | src/main.rs:13-17 | The scan from `start` returns the first position whose field equals the key. All fields before it differ. It returns None exactly when no field from `start` on equals the key. |
| KeyLookup.FindKeyPosition | src/main.rs:12-20 | On success the position is in range, its field equals the key exactly, and no earlier field does. It fails exactly when the key is not in the header. The error is `KeyNotFound` carrying the key and the header. |
| RowMerge.WithoutIsSliceRemoval | src/main.rs:28-32 | Skipping position `exclude` while walking `to` gives `to[..exclude] + to[exclude+1..]` when `exclude` is a position of `to`, and `to` unchanged otherwise. |
| RowMerge.MergeFields | src/main.rs:22-35 | The merged row starts with `from` unchanged. It has `|from| + |to| - 1` fields when `exclude < |to|` and `|from| + |to|` otherwise. Field `|from| + i` is `to[i]` before `exclude` and `to[i+1]` from `exclude` on. |
| RowMerge.JoinRows | src/main.rs:22-35 | Pushing every field of `from`, then every field of `to` except the one at `exclude`, yields exactly `Merge(from, to, exclude)`. |
| Types.ShortCount | src/main.rs:88-92 | The number of rows without a field at the key position is at most the number of rows. It is zero exactly when every row has that field. |
| JoinIndex.IndexOf | src/main.rs:85-93 | Every entry of the index is a row whose field at the key position is that entry's key, so short rows never enter it. |
| JoinIndex.IndexHoldsLastRow | src/main.rs:82-89 | Last write wins. A key is in the index exactly when some secondary row has it at the key position. The index then holds the last such row in input order. |
| JoinIndex.IndexSize | src/main.rs:88-92 | The index has at most one entry per keyed row. It has exactly one per keyed row when no two secondary rows share a key. |
| JoinIndex.BuildIndex | src/main.rs:79-93 | The loop's map is `IndexOf(rows, joinIndex)`. The total counter is the number of rows. The failed counter is the number of rows without a field at `joinIndex`. Every stored row has its key at `joinIndex`. |
| Streaming.JoinedRowsAppend | src/main.rs:109-121 | The join is order-preserving and streams. The output for two consecutive runs of primary rows is the output of the first followed by the output of the second. |
| Streaming.JoinedRowsSoundAndComplete | src/main.rs:112-119 | Every emitted row is the merge of some primary row that has a key field whose key is in the index, with the indexed row. Every such primary row contributes its merged row. |
| Streaming.CountsPartition | src/main.rs:106-121 | Each primary row is counted exactly once: as emitted, as a miss, or as too short to hold the key. |
| Streaming.StreamJoin | src/main.rs:106-121 | The loop emits exactly `JoinedRows` in primary order. The total is the number of primary rows. The matched counter is the number of emitted rows. The miss counter is `MissCount`. Matched + misses + short rows = total. |
| Pipeline.Join | src/main.rs:57-121 | Fails exactly when the key is missing from either header. The primary header is resolved first, so its error wins. On success the reported key positions are those `FindKeyPosition` finds in each header. The output is the merged header followed by `JoinedRows` over the index of the secondary rows, and all five counters are as above. |
| Pipeline.OutputHeaderShape | src/main.rs:73 | The output header starts with the primary header and has one column fewer than the two headers together. When the secondary header names each column once, the key name does not reappear after the primary columns. |
| Pipeline.MatchUsesLastSecondaryRow | src/main.rs:112-115 | For a primary row with a key field, a miss happens exactly when no secondary row carries that key. Otherwise the row is merged with the LAST secondary row carrying it. The merged row has one field fewer than the two rows together. |
| Pipeline.EmittedRowWidth | src/main.rs:113-115 | Every emitted row has the field count of a primary row plus that of a secondary row, minus one. |
| Pipeline.ScenarioOneMatchOneMiss | src/main.rs:109-121 | Headers `id,name` and `id,age` merge to `id,name,age`. Primary rows `[1,Alice]`, `[3,Carol]` against secondary `[1,30]` emit only `[1,Alice,30]` and count one miss. |
| Pipeline.ScenarioDuplicateKey | src/main.rs:82-89 | With secondary rows `[1,30]`, `[1,31]`, the primary row `[1,Alice]` is joined with age 31. |

## Left out

- Command-line parsing (clap and its YAML description): values come in as
  parameters of `Join`.
- Progress output and wall-clock timing (`println!`, `Instant`): these have
  no effect on the join.
- CSV reading, parsing, quoting and writing, including `flush`: the csv
  crate is not part of this model. The tables are given as header rows plus
  sequences of rows. The output file is the returned sequence of rows,
  header first. Whether the reader can yield a row shorter than its header
  depends on that crate's configuration. The model follows `main.rs` and
  accepts any rows.
- The `?` abort paths on a malformed record or a failed write: their causes
  lie inside the csv crate. The model has no read or write errors, so the
  partial output left after such an abort is not modelled.
- The text of the error message (`format!` with the header's debug form):
  the model keeps the key and the header it names in `KeyNotFound`.
- Pipeline.Join: the counters are unbounded naturals. In the source their
  type is inferred as `i32`, and wrap-around or overflow past 2^31 - 1 rows
  is not modelled.
- Hashing and performance of `HashMap`: the index is a Dafny `map` with
  overwrite on insert.
