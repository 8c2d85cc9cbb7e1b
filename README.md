# TableStatsMeta: a verified model of Doris's statistics-freshness record

In the Apache Doris frontend, `TableStatsMeta` is the record the statistics
subsystem keeps for each table. It tells the auto-analyze scheduler how fresh
the table's statistics are. It holds:

- the table's identity (catalog, database and table ids and names), fixed at construction;
- the table-level stamps `rowCount`, `updatedTime`, `updatedRows`, `newPartitionLoaded`, `userInjected` and `jobType`;
- a map from column name to per-column metadata (`ColStatsMeta`);
- a map from index id to row count.

Its central operation turns a finished analysis job (`AnalysisInfo`) into new
values of all of these. It does so in six steps:

1. It parses the job's column list, written like `"[col1, col2]"`.
2. It inserts an entry for each parsed column, or re-stamps the existing one.
3. It overwrites the table-level job type.
4. For an OLAP table, it adopts the job's row count, merges the job's index row counts and prunes the index map.
5. It applies a "full coverage" rule: when the job covered every supported base-schema column, the update counter is zeroed and the new-partition flag is cleared.
6. It clears the user-injected flag after a manual analyze.

The project has five modules:

- `Wrappers`: an `Option` type, standing in for a Java reference that may be null.
- `StatsTypes`: the records the class reads, as datatypes:
  - `ColStatsMeta`;
  - `AnalysisInfo`, holding only the fields update reads;
  - `TableHandle`, a table reduced to whether it is OLAP, its index ids and its base schema;
  - the job-type, analysis-method and analysis-type enums.
- `ColumnNames`: the column-list parser, built from Java's `String.trim` and `String.split`. It also proves the parser's laws: split/join inverse, and parse after render.
- `StatsUpdate`: update as a function `Updated` on a value `StatsState` holding every mutable field. Beside it are lemmas stating what update does to each field, that it is idempotent, and two scenarios.
- `Statistics`: the class `TableStatsMeta` itself:
  - mutable fields, with the three fields that may be null after deserialisation typed as `Option`;
  - `Valid()`, which says none of those three is null;
  - the abstraction `State()`;
  - one method per mutating operation, proved to change the fields exactly as `StatsUpdate` or its own postcondition says.

Java's `ConcurrentHashMap`, `AtomicLong` and `AtomicBoolean` become `map`, `int`
and `bool`. Java `long` is modelled as an unbounded `int`: nothing in the class
does arithmetic, so width never matters.

## Two repairs after deserialisation

After parsing, `read` repairs only a null column map. `gsonPostProcess` repairs all three fields that can be null. The model keeps the two apart as `ReadFixUp` and `GsonPostProcess`.

The pruning step of update does not do what its name says. See "## Findings".

## Model

| member | source | states |
|---|---|---|
| ColumnNames.LeadingEnd | fe/fe-core/src/main/java/org/apache/doris/statistics/TableStatsMeta.java:179 | the first index from `i` whose char is not at or below U+0020; every char before it from `i` is blank |
| ColumnNames.TrailingStart | fe/fe-core/src/main/java/org/apache/doris/statistics/TableStatsMeta.java:179 | the index where a backward walk over blank chars stops, never below `lo`; the char before it is not blank |
| ColumnNames.Trim | fe/fe-core/src/main/java/org/apache/doris/statistics/TableStatsMeta.java:179 | String.trim: the result is a slice of the input, everything before and after it is blank, and neither of its ends is blank |
| ColumnNames.TrimBlankPrefix | fe/fe-core/src/main/java/org/apache/doris/statistics/TableStatsMeta.java:179 | one more leading blank char does not change what trim returns |
| ColumnNames.Split | fe/fe-core/src/main/java/org/apache/doris/statistics/TableStatsMeta.java:178 | String.split on ',': at least one piece, no piece contains the separator, and joining the pieces with it gives the input back |
| ColumnNames.SplitJoin | fe/fe-core/src/main/java/org/apache/doris/statistics/TableStatsMeta.java:178 | splitting the join of separator-free pieces gives those pieces back (the other half of the split/join inverse) |
| ColumnNames.TrimNonEmpty | fe/fe-core/src/main/java/org/apache/doris/statistics/TableStatsMeta.java:178-179 | map(String::trim).filter(!isEmpty): no more names than pieces, and every name is non-empty and trimmed; which names they are is stated by TrimNonEmptyMembers |
| ColumnNames.TrimNonEmptyFreeOf | fe/fe-core/src/main/java/org/apache/doris/statistics/TableStatsMeta.java:178-179 | trimming and filtering introduce no char the pieces did not contain |
| ColumnNames.TrimNonEmptyMember | fe/fe-core/src/main/java/org/apache/doris/statistics/TableStatsMeta.java:178-179 | a given string is among the names exactly when it is non-empty and is what trim makes of one of the pieces |
| ColumnNames.TrimNonEmptyMembers | fe/fe-core/src/main/java/org/apache/doris/statistics/TableStatsMeta.java:178-179 | the same for every string at once: the names are exactly the non-empty trims of the pieces (the partner of TrimNonEmpty) |
| ColumnNames.StripBrackets | fe/fe-core/src/main/java/org/apache/doris/statistics/TableStatsMeta.java:175-177 | one '[' and one ']' are removed only when the text starts with '[' and ends with ']'; any other text is returned unchanged |
| ColumnNames.Parse | fe/fe-core/src/main/java/org/apache/doris/statistics/TableStatsMeta.java:172-179 | every parsed column name is non-empty, trimmed and free of ',' |
| ColumnNames.ParseMembers | fe/fe-core/src/main/java/org/apache/doris/statistics/TableStatsMeta.java:172-179 | for any column-list text, a name is parsed exactly when it is the non-empty trim of one of the comma-separated pieces of the bracket-stripped text |
| ColumnNames.ParseRender | fe/fe-core/src/main/java/org/apache/doris/statistics/TableStatsMeta.java:173-179 | parsing the "[col1, col2]" rendering of well-formed names gives exactly those names back |
| ColumnNames.ParseBracketedExample | fe/fe-core/src/main/java/org/apache/doris/statistics/TableStatsMeta.java:172-179 | "[a, b]" parses to [a, b] |
| ColumnNames.ParsePlainExample | fe/fe-core/src/main/java/org/apache/doris/statistics/TableStatsMeta.java:172-179 | "a,b" parses to [a, b] |
| ColumnNames.ParseSpellingsAgree | fe/fe-core/src/main/java/org/apache/doris/statistics/TableStatsMeta.java:172-179 | "a,b" and "[a, b]" parse to the same names, so one pair of brackets changes nothing |
| StatsUpdate.Touched | fe/fe-core/src/main/java/org/apache/doris/statistics/TableStatsMeta.java:181-190 | definition of one turn of the column loop; its ensures give the entry the job's time, method, type and job type, and keep the old resettable part (0 for a new entry) |
| StatsUpdate.UpsertAll | fe/fe-core/src/main/java/org/apache/doris/statistics/TableStatsMeta.java:180-191 | definition of the whole column loop, name by name in list order; its laws are UpsertAllEntries and UpsertAllIdempotent |
| StatsUpdate.SupportedNames | fe/fe-core/src/main/java/org/apache/doris/statistics/TableStatsMeta.java:200-202 | definition of the set of supported base-schema names; every supported column's name is in it and every member is the name of a supported column |
| StatsUpdate.FullyCovered | fe/fe-core/src/main/java/org/apache/doris/statistics/TableStatsMeta.java:199-202 | definition of the coverage test; its law is FullyCoveredColumns |
| StatsUpdate.FullyCoveredColumns | fe/fe-core/src/main/java/org/apache/doris/statistics/TableStatsMeta.java:199-202 | coverage holds exactly when every supported base-schema column's name is a key of colToPartitions |
| StatsUpdate.RemoveListedIndexes | fe/fe-core/src/main/java/org/apache/doris/statistics/TableStatsMeta.java:234-243 | definition of the pruning as written: the keys left are the old keys minus the listed ids, each with its old value |
| StatsUpdate.RemoveUnlistedIndexes | fe/fe-core/src/main/java/org/apache/doris/statistics/TableStatsMeta.java:234-243 | the pruning the method's name promises, not used by update: the keys left are the old keys that are listed, each with its old value |
| StatsUpdate.PruningsPartition | fe/fe-core/src/main/java/org/apache/doris/statistics/TableStatsMeta.java:234-243 | the as-written and the intended pruning keep disjoint key sets, and together they give back the whole map |
| StatsUpdate.UnlistedPruningScenario | fe/fe-core/src/main/java/org/apache/doris/statistics/TableStatsMeta.java:234-243 | with ids [1, 2], the intended pruning of {1: 10, 2: 20, 3: 99} keeps exactly {1: 10, 2: 20} |
| StatsUpdate.MergedIndexes | fe/fe-core/src/main/java/org/apache/doris/statistics/TableStatsMeta.java:196-197 | definition of putAll followed by the pruning; an id keeps an entry exactly when it is unlisted and present in the old map or the job, and the job's count wins. Its laws are UpdateRowCounts and MergedIndexesIdempotent |
| StatsUpdate.Updated | fe/fe-core/src/main/java/org/apache/doris/statistics/TableStatsMeta.java:167-211 | definition of the whole of update as a function on the state; its laws are UpdateColumns, UpdateStamps, UpdateCoverage, UpdateRowCounts, UpdateUserInjected and UpdateIdempotent |
| StatsUpdate.UpsertAllEntries | fe/fe-core/src/main/java/org/apache/doris/statistics/TableStatsMeta.java:180-191 | after the column loop the keys are the old keys plus the listed names; each listed name has its new or re-stamped entry; every other entry is unchanged |
| StatsUpdate.UpdateColumns | fe/fe-core/src/main/java/org/apache/doris/statistics/TableStatsMeta.java:168-191 | after update every parsed name has an entry with the job's time, method, type and job type, keeping its old resettable part (0 if new); other names keep their entry or their absence |
| StatsUpdate.UpdateStamps | fe/fe-core/src/main/java/org/apache/doris/statistics/TableStatsMeta.java:168-192 | update sets updatedTime to the job's table update time and jobType to the job's type, and leaves queriedTimes alone |
| StatsUpdate.UpdateCoverage | fe/fe-core/src/main/java/org/apache/doris/statistics/TableStatsMeta.java:193-205 | with a table whose supported base-schema names are all keys of colToPartitions, updatedRows becomes 0 and newPartitionLoaded false; otherwise, including when the table is null, both keep their values |
| StatsUpdate.UpdateRowCounts | fe/fe-core/src/main/java/org/apache/doris/statistics/TableStatsMeta.java:193-198 | for an OLAP table: rowCount is the job's; an index id has an entry exactly when the old map or the job has one and the id is not listed by the table; the job's counts win. For a non-OLAP or null table: rowCount and the index map are unchanged |
| StatsUpdate.UpdateUserInjected | fe/fe-core/src/main/java/org/apache/doris/statistics/TableStatsMeta.java:169-209 | userInjected afterwards holds exactly when the job injects, or it held before and this is not a MANUAL job on a non-null table |
| StatsUpdate.UpsertAllIdempotent | fe/fe-core/src/main/java/org/apache/doris/statistics/TableStatsMeta.java:180-191 | running the column loop twice with the same names and job gives the map running it once gives |
| StatsUpdate.MergedIndexesIdempotent | fe/fe-core/src/main/java/org/apache/doris/statistics/TableStatsMeta.java:196-197 | merging and pruning the same job's index counts a second time changes nothing |
| StatsUpdate.UpdateIdempotent | fe/fe-core/src/main/java/org/apache/doris/statistics/TableStatsMeta.java:167-211 | applying update twice with the same job and table leaves the state that applying it once leaves |
| StatsUpdate.StaleIndexScenario | fe/fe-core/src/main/java/org/apache/doris/statistics/TableStatsMeta.java:234-243 | with index ids [1, 2] and stored counts for 1, 2 and 3, update on an OLAP table leaves only the count for 3 |
| StatsUpdate.TwoColumnFirstJob | fe/fe-core/src/main/java/org/apache/doris/statistics/TableStatsMeta.java:180-191 | a job over names [a, b] on a record without column entries leaves exactly the entries a and b, both stamped with the job's time |
| StatsUpdate.FirstAnalysisScenario | fe/fe-core/src/main/java/org/apache/doris/statistics/TableStatsMeta.java:172-191 | a first job whose column list is "[a, b]" leaves exactly the entries a and b, both stamped with the job's time |
| Statistics.TableStatsMeta.constructor | fe/fe-core/src/main/java/org/apache/doris/statistics/TableStatsMeta.java:110-120 | copies the identity, sets idxId to -1, and leaves the state given by update of the initial field values, with the given row count, by the first job |
| Statistics.TableStatsMeta.Fresh | fe/fe-core/src/main/java/org/apache/doris/statistics/TableStatsMeta.java:68-95 | definition of the field initialisers: zero counters and time, no job type, false flags and empty maps; the constructor runs update from it |
| Statistics.TableStatsMeta.FindColumnStatsMeta | fe/fe-core/src/main/java/org/apache/doris/statistics/TableStatsMeta.java:146-148 | None exactly when the column has no entry; otherwise the column's entry |
| Statistics.TableStatsMeta.FindColumnLastUpdateTime | fe/fe-core/src/main/java/org/apache/doris/statistics/TableStatsMeta.java:138-144 | 0 when the column has no entry; otherwise that entry's updatedTime |
| Statistics.TableStatsMeta.AnalyzeColumns | fe/fe-core/src/main/java/org/apache/doris/statistics/TableStatsMeta.java:158-160 | a name is in the result exactly when findColumnStatsMeta finds an entry for it |
| Statistics.TableStatsMeta.GetRowCount | fe/fe-core/src/main/java/org/apache/doris/statistics/TableStatsMeta.java:226-228 | -1 when the index has no entry; otherwise its stored count |
| Statistics.TableStatsMeta.RemoveColumn | fe/fe-core/src/main/java/org/apache/doris/statistics/TableStatsMeta.java:150-152 | only the key colName leaves the column map; every other field is unchanged |
| Statistics.TableStatsMeta.RemoveAllColumn | fe/fe-core/src/main/java/org/apache/doris/statistics/TableStatsMeta.java:154-156 | the column map becomes empty; every other field is unchanged |
| Statistics.TableStatsMeta.ClearIndexesRowCount | fe/fe-core/src/main/java/org/apache/doris/statistics/TableStatsMeta.java:230-232 | the index map becomes empty; every other field is unchanged |
| Statistics.TableStatsMeta.Reset | fe/fe-core/src/main/java/org/apache/doris/statistics/TableStatsMeta.java:162-165 | updatedTime becomes 0; the column keys stay the same; each entry becomes clear of its old value; nothing else changes |
| Statistics.TableStatsMeta.Update | fe/fe-core/src/main/java/org/apache/doris/statistics/TableStatsMeta.java:167-211 | the new state is Updated of the old state, the parsed column list, the job and the table, so every StatsUpdate lemma applies to it |
| Statistics.TableStatsMeta.UpdateWithNames | fe/fe-core/src/main/java/org/apache/doris/statistics/TableStatsMeta.java:168-210 | update's field assignments, with the column list already parsed: the new state is Updated of the old state, the names, the job and the table |
| Statistics.TableStatsMeta.UpsertColumns | fe/fe-core/src/main/java/org/apache/doris/statistics/TableStatsMeta.java:180-191 | the in-place column loop leaves the column map UpsertAll describes; every other field is unchanged |
| Statistics.TableStatsMeta.GsonPostProcess | fe/fe-core/src/main/java/org/apache/doris/statistics/TableStatsMeta.java:213-224 | all three nullable fields are non-null afterwards; each one already present is kept as it was; a missing one becomes empty (or false); nothing else changes |
| Statistics.TableStatsMeta.ReadFixUp | fe/fe-core/src/main/java/org/apache/doris/statistics/TableStatsMeta.java:131-134 | only a missing column map is replaced, by an empty one; the index map and newPartitionLoaded stay as they are, even when missing |
| Statistics.TableStatsMeta.ClearStaleIndexRowCount | fe/fe-core/src/main/java/org/apache/doris/statistics/TableStatsMeta.java:234-243 | the iterator-remove loop removes exactly the entries whose id is in the table's index-id list (as written) and keeps every other entry and field |

## Findings

| source | as written | input that shows it | evidently intended | confidence | as-written member | corrected member |
|---|---|---|---|---|---|---|
| fe/fe-core/src/main/java/org/apache/doris/statistics/TableStatsMeta.java:239 | `clearStaleIndexRowCount` removes every index row count whose id is in `table.getIndexIds()`, so the ids of live indexes are the ones dropped | stored counts {1: 10, 2: 20, 3: 99}, table index ids [1, 2], no counts in the job: the map left is {3: 99} | by the method's name a stale entry is one whose index is no longer listed: keep {1: 10, 2: 20} and drop 3 | high (from reading the code; not executed) | StatsUpdate.StaleIndexScenario | StatsUpdate.UnlistedPruningScenario |

`StatsUpdate.RemoveListedIndexes` is the as-written pruning and `StatsUpdate.RemoveUnlistedIndexes` is the intended one. `StatsUpdate.PruningsPartition` proves that each keeps exactly what the other removes. `Updated` and the class keep the as-written pruning, because they model the code.

## Left out

- JSON serialisation (`write`, `read`'s Gson parsing, `Text.writeString`/`readString`) is foreign library I/O. Only the null-to-empty repair after reading is modelled (`ReadFixUp`, `GsonPostProcess`).
- The no-argument constructor (lines 97-106) is annotated for tests only. It is not part of this model.
- Catalog navigation in the constructor (`table.getDatabase().getCatalog()...`) is not modelled. The identity is passed in as an `Identity` value, and the exceptions that navigation could raise are out of scope.
- Thread safety of the concurrent maps and atomic fields is the library's concern. Every operation is modelled as running alone.
- `StatisticsUtil.isUnsupportedType` is not visible. Each schema column carries a `supported` flag instead.
- `ColStatsMeta.clear` is not visible. `Reset` takes it as a function parameter.
- `queriedTimes` is a field that nothing in the class changes. Every postcondition states that it is kept.
- `findColumnStatsMeta` in Java returns the live `ColStatsMeta` object, which callers can mutate.
  - The model gives `ColStatsMeta` value semantics.
  - Aliasing between the map's entries and such callers is not captured.
  - Update's in-place field writes to an existing entry become a replacement of that entry by an updated copy.
- AnalyzeColumns: Java returns `keySet()`, a live view of the column map. Later changes to the map show through it, and removing a name from it removes the entry. The model returns the key set as a value at the time of the call.
- Java's `split` also drops trailing empty pieces. `Split` keeps them. The filter of empty names drops them anyway, so `Parse`'s result is the same.
- `Trim` treats every char at or below U+0020 as blank, as `String.trim` does. Java strings are UTF-16 code units; the model's `char` is a code point, and no surrogate pair is at or below U+0020.
- `be/src/pipeline/pipeline_task.cpp` belongs to query execution, not to this record. It is not part of this model.
