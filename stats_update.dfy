/**
 * TableStatsMeta.update as a function on the record's mutable state, and the
 * laws it obeys. The class in module Statistics is proved to change its
 * fields exactly as Updated says.
 */
module StatsUpdate {
  import opened Wrappers
  import opened StatsTypes
  import ColumnNames

  /** Every field of a TableStatsMeta that one of its methods can change. */
  datatype StatsState = StatsState(
    rowCount: int,
    updatedTime: int,
    updatedRows: int,
    queriedTimes: int,
    jobType: Option<JobType>,
    newPartitionLoaded: bool,
    userInjected: bool,
    columns: map<string, ColStatsMeta>,
    indexesRowCount: map<int, int>)

  /**
   * The entry for `col` after one turn of update's column loop: a new entry
   * stamped by the job, or the existing one with its time, method, type and
   * job type overwritten.
   */
  function Touched(m: map<string, ColStatsMeta>, col: string, job: AnalysisInfo): (e: ColStatsMeta)
    ensures e.updatedTime == job.tblUpdateTime && e.analysisMethod == job.analysisMethod
    ensures e.analysisType == job.analysisType && e.jobType == job.jobType
    ensures e.resettable == if col in m then m[col].resettable else 0
  {
    if col in m then
      m[col].(updatedTime := job.tblUpdateTime, analysisType := job.analysisType,
              analysisMethod := job.analysisMethod, jobType := job.jobType)
    else
      ColStatsMeta(job.tblUpdateTime, job.analysisMethod, job.analysisType, job.jobType, 0)
  }

  /** The column loop of update run over `cols`, first name first. */
  function UpsertAll(m: map<string, ColStatsMeta>, cols: seq<string>, job: AnalysisInfo): map<string, ColStatsMeta>
    decreases |cols|
  {
    if |cols| == 0 then m
    else
      var prev := UpsertAll(m, cols[..|cols| - 1], job);
      var col := cols[|cols| - 1];
      prev[col := Touched(prev, col, job)]
  }

  /** The names of the base-schema columns whose type statistics support. */
  function SupportedNames(schema: seq<SchemaColumn>): (names: set<string>)
    ensures forall i :: 0 <= i < |schema| && schema[i].supported ==> schema[i].name in names
    ensures forall n :: n in names ==> exists i :: 0 <= i < |schema| && schema[i].supported && schema[i].name == n
  {
    set c | c in schema && c.supported :: c.name
  }

  /** The job's partition map has a key for every supported base-schema column. */
  predicate FullyCovered(job: AnalysisInfo, table: TableHandle) {
    SupportedNames(table.baseSchema) <= job.colToPartitions.Keys
  }

  /** FullyCovered is the containsAll of the job's partition keys over the supported column names. */
  lemma FullyCoveredColumns(job: AnalysisInfo, table: TableHandle)
    ensures FullyCovered(job, table) <==>
              forall i :: 0 <= i < |table.baseSchema| && table.baseSchema[i].supported ==>
                table.baseSchema[i].name in job.colToPartitions
  {
  }

  /**
   * clearStaleIndexRowCount as the code is written: it removes every entry
   * whose id IS in the table's index-id list (TableStatsMeta.java:239),
   * although by the method's name a stale entry is one whose index is no
   * longer listed.
   */
  function RemoveListedIndexes(m: map<int, int>, ids: seq<int>): (r: map<int, int>)
    ensures r.Keys == m.Keys - (set k | k in ids)
    ensures forall k :: k in r ==> r[k] == m[k]
  {
    map k | k in m && k !in ids :: m[k]
  }

  /**
   * What the method's name promises: only the entries of indexes the table
   * still lists survive. Not used by Updated, which follows the code.
   */
  function RemoveUnlistedIndexes(m: map<int, int>, ids: seq<int>): (r: map<int, int>)
    ensures r.Keys == m.Keys * (set k | k in ids)
    ensures forall k :: k in r ==> r[k] == m[k]
  {
    map k | k in m && k in ids :: m[k]
  }

  /** The as-written pruning removes exactly the entries the intended one keeps. */
  lemma PruningsPartition(m: map<int, int>, ids: seq<int>)
    ensures RemoveListedIndexes(m, ids).Keys !! RemoveUnlistedIndexes(m, ids).Keys
    ensures RemoveListedIndexes(m, ids) + RemoveUnlistedIndexes(m, ids) == m
  {
    var both := RemoveListedIndexes(m, ids) + RemoveUnlistedIndexes(m, ids);
    assert both.Keys == m.Keys;
  }

  /** With live ids 1 and 2 and a leftover count for 3, the intended pruning keeps 1 and 2 and drops 3. */
  lemma UnlistedPruningScenario()
    ensures RemoveUnlistedIndexes(map[1 := 10, 2 := 20, 3 := 99], [1, 2]) == map[1 := 10, 2 := 20]
  {
    var r := RemoveUnlistedIndexes(map[1 := 10, 2 := 20, 3 := 99], [1, 2]);
    assert 1 in r && 2 in r && 3 !in r;
    assert r.Keys == {1, 2};
  }

  /** The index map after putAll of the job's counts and the pruning of clearStaleIndexRowCount. */
  function MergedIndexes(m: map<int, int>, job: AnalysisInfo, table: TableHandle): (r: map<int, int>)
    ensures forall id :: id in r <==> id !in table.indexIds && (id in m || id in job.indexesRowCount)
    ensures forall id :: id in r ==> r[id] == if id in job.indexesRowCount then job.indexesRowCount[id] else m[id]
  {
    RemoveListedIndexes(m + job.indexesRowCount, table.indexIds)
  }

  /**
   * The state update(job, table) leaves when the job's column list parses to
   * `names`: update leaves Updated(st, names, job, table).
   * `table` None is a null TableIf.
   */
  function Updated(st: StatsState, names: seq<string>, job: AnalysisInfo, table: Option<TableHandle>): StatsState {
    var st1 := st.(updatedTime := job.tblUpdateTime,
                   userInjected := st.userInjected || job.userInject,
                   columns := UpsertAll(st.columns, names, job),
                   jobType := Some(job.jobType));
    match table
    case None => st1
    case Some(t) =>
      var st2 :=
        if t.isOlap then
          st1.(rowCount := job.rowCount,
               indexesRowCount := MergedIndexes(st.indexesRowCount, job, t))
        else st1;
      var st3 := if FullyCovered(job, t) then st2.(updatedRows := 0, newPartitionLoaded := false) else st2;
      if job.jobType == Manual && !job.userInject then st3.(userInjected := false) else st3
  }

  /** What the column loop leaves: every listed name has its touched entry, every other entry is as it was. */
  lemma {:induction false} UpsertAllEntries(m: map<string, ColStatsMeta>, cols: seq<string>, job: AnalysisInfo)
    ensures UpsertAll(m, cols, job).Keys == m.Keys + (set c | c in cols)
    ensures forall c :: c in cols ==> UpsertAll(m, cols, job)[c] == Touched(m, c, job)
    ensures forall c :: c in m && c !in cols ==> UpsertAll(m, cols, job)[c] == m[c]
    decreases |cols|
  {
    if |cols| > 0 {
      var init := cols[..|cols| - 1];
      var col := cols[|cols| - 1];
      UpsertAllEntries(m, init, job);
      assert cols == init + [col];
      assert (set c | c in cols) == (set c | c in init) + {col};
      forall c | c in cols ensures UpsertAll(m, cols, job)[c] == Touched(m, c, job) {
        if c != col {
          assert c in init;
        }
      }
    }
  }

  /**
   * After update, every parsed name has an entry stamped with the job's time,
   * method, type and job type, keeping its old resettable part (0 for a new
   * entry); entries for all other names are untouched, and none is added.
   */
  lemma UpdateColumns(st: StatsState, names: seq<string>, job: AnalysisInfo, table: Option<TableHandle>)
    ensures var r := Updated(st, names, job, table).columns;
            forall c :: c in names ==>
              && c in r
              && r[c].updatedTime == job.tblUpdateTime
              && r[c].analysisMethod == job.analysisMethod
              && r[c].analysisType == job.analysisType
              && r[c].jobType == job.jobType
              && r[c].resettable == (if c in st.columns then st.columns[c].resettable else 0)
    ensures var r := Updated(st, names, job, table).columns;
            forall c :: c !in names ==>
              (c in r <==> c in st.columns) && (c in st.columns ==> r[c] == st.columns[c])
  {
    UpsertAllEntries(st.columns, names, job);
  }

  /** update always stamps the table-level time and job type, and never touches queriedTimes. */
  lemma UpdateStamps(st: StatsState, names: seq<string>, job: AnalysisInfo, table: Option<TableHandle>)
    ensures Updated(st, names, job, table).updatedTime == job.tblUpdateTime
    ensures Updated(st, names, job, table).jobType == Some(job.jobType)
    ensures Updated(st, names, job, table).queriedTimes == st.queriedTimes
  {
  }

  /**
   * Full coverage zeroes updatedRows and clears newPartitionLoaded; without a
   * table, or without full coverage, both keep their values.
   */
  lemma UpdateCoverage(st: StatsState, names: seq<string>, job: AnalysisInfo, table: Option<TableHandle>)
    ensures table.Some? && FullyCovered(job, table.value) ==>
              Updated(st, names, job, table).updatedRows == 0 && !Updated(st, names, job, table).newPartitionLoaded
    ensures !(table.Some? && FullyCovered(job, table.value)) ==>
              Updated(st, names, job, table).updatedRows == st.updatedRows
              && Updated(st, names, job, table).newPartitionLoaded == st.newPartitionLoaded
  {
  }

  /**
   * For an OLAP table the row count is the job's, and an index id has an
   * entry exactly when it is not in the table's index list and the old map or
   * the job has one, the job's count winning. Otherwise both are unchanged.
   */
  lemma UpdateRowCounts(st: StatsState, names: seq<string>, job: AnalysisInfo, table: Option<TableHandle>)
    ensures var r := Updated(st, names, job, table);
            table.Some? && table.value.isOlap ==>
              && r.rowCount == job.rowCount
              && (forall id :: id in r.indexesRowCount <==>
                    id !in table.value.indexIds && (id in st.indexesRowCount || id in job.indexesRowCount))
              && (forall id :: id in r.indexesRowCount && id in job.indexesRowCount ==>
                    r.indexesRowCount[id] == job.indexesRowCount[id])
              && (forall id :: id in r.indexesRowCount && id !in job.indexesRowCount ==>
                    r.indexesRowCount[id] == st.indexesRowCount[id])
    ensures var r := Updated(st, names, job, table);
            !(table.Some? && table.value.isOlap) ==>
              r.rowCount == st.rowCount && r.indexesRowCount == st.indexesRowCount
  {
  }

  /**
   * userInjected is set by an injecting job, cleared by a non-injecting
   * MANUAL job on a non-null table, and otherwise kept.
   */
  lemma UpdateUserInjected(st: StatsState, names: seq<string>, job: AnalysisInfo, table: Option<TableHandle>)
    ensures Updated(st, names, job, table).userInjected <==>
              job.userInject || (st.userInjected && !(table.Some? && job.jobType == Manual))
  {
  }

  /** Touching an entry twice with one job is touching it once. */
  lemma UpsertAllIdempotent(m: map<string, ColStatsMeta>, cols: seq<string>, job: AnalysisInfo)
    ensures UpsertAll(UpsertAll(m, cols, job), cols, job) == UpsertAll(m, cols, job)
  {
    var once := UpsertAll(m, cols, job);
    UpsertAllEntries(m, cols, job);
    UpsertAllEntries(once, cols, job);
    var twice := UpsertAll(once, cols, job);
    assert twice.Keys == once.Keys;
    forall c | c in once ensures twice[c] == once[c] {
      if c in cols {
        assert c in once;
      }
    }
  }

  /** Merging the same job's index counts a second time changes nothing. */
  lemma MergedIndexesIdempotent(m: map<int, int>, job: AnalysisInfo, table: TableHandle)
    ensures MergedIndexes(MergedIndexes(m, job, table), job, table) == MergedIndexes(m, job, table)
  {
  }

  /** Applying update twice with the same job and table leaves the state applying it once leaves. */
  lemma UpdateIdempotent(st: StatsState, names: seq<string>, job: AnalysisInfo, table: Option<TableHandle>)
    ensures Updated(Updated(st, names, job, table), names, job, table) == Updated(st, names, job, table)
  {
    UpsertAllIdempotent(st.columns, names, job);
    if table.Some? && table.value.isOlap {
      MergedIndexesIdempotent(st.indexesRowCount, job, table.value);
    }
  }
  /**
   * clearStaleIndexRowCount run as written (TableStatsMeta.java:239): with
   * live index ids 1 and 2 the entries for 1 and 2 are the ones removed, and
   * the stale entry for the dropped index 3 survives.
   */
  lemma StaleIndexScenario(st: StatsState, names: seq<string>, job: AnalysisInfo, table: TableHandle)
    requires st.indexesRowCount == map[1 := 10, 2 := 20, 3 := 99]
    requires job.indexesRowCount == map[]
    requires table.isOlap && table.indexIds == [1, 2]
    ensures Updated(st, names, job, Some(table)).indexesRowCount == map[3 := 99]
  {
  }

  /** A job whose column list parses to [a, b], run on a record without column entries. */
  lemma TwoColumnFirstJob(st: StatsState, names: seq<string>, job: AnalysisInfo, table: Option<TableHandle>)
    requires st.columns == map[] && names == ["a", "b"]
    ensures var r := Updated(st, names, job, table).columns;
            r.Keys == {"a", "b"} && r["a"].updatedTime == job.tblUpdateTime && r["b"].updatedTime == job.tblUpdateTime
  {
    UpsertAllEntries(st.columns, names, job);
    assert (set c | c in names) == {"a", "b"};
  }

  /**
   * A first job over "[a, b]" leaves exactly two column entries, both stamped
   * with the job's time, whatever the table.
   */
  lemma FirstAnalysisScenario(st: StatsState, job: AnalysisInfo, table: Option<TableHandle>)
    requires st.columns == map[] && job.colName == "[a, b]"
    ensures var r := Updated(st, ColumnNames.Parse(job.colName), job, table).columns;
            r.Keys == {"a", "b"} && r["a"].updatedTime == job.tblUpdateTime && r["b"].updatedTime == job.tblUpdateTime
  {
    ColumnNames.ParseBracketedExample();
    TwoColumnFirstJob(st, ColumnNames.Parse(job.colName), job, table);
  }
}
