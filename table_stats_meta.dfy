/**
 * TableStatsMeta: one table's statistics-freshness record, updated in place.
 * The column map, the index map and newPartitionLoaded can be null after
 * deserialisation, so they are Option-typed; Valid() says all three are there.
 */
module Statistics {
  import opened Wrappers
  import opened StatsTypes
  import ColumnNames
  import opened StatsUpdate

  class TableStatsMeta {
    const ctlId: int
    const ctlName: string
    const dbId: int
    const dbName: string
    const tblId: int
    const tblName: string
    const idxId: int

    var updatedRows: int
    var queriedTimes: int
    var rowCount: int
    var updatedTime: int
    var colNameToColStatsMeta: Option<map<string, ColStatsMeta>>
    var jobType: Option<JobType>
    var newPartitionLoaded: Option<bool>
    var userInjected: bool
    var indexesRowCount: Option<map<int, int>>

    /** No field that can be null after deserialisation is null. */
    ghost predicate Valid()
      reads this
    {
      colNameToColStatsMeta.Some? && newPartitionLoaded.Some? && indexesRowCount.Some?
    }

    /** The mutable fields as one value. */
    ghost function State(): StatsState
      reads this
      requires Valid()
    {
      StatsState(rowCount, updatedTime, updatedRows, queriedTimes, jobType,
                 newPartitionLoaded.value, userInjected,
                 colNameToColStatsMeta.value, indexesRowCount.value)
    }

    /**
     * Copies the identity, stores the row count and folds in the first job.
     * The identity is an input here; in the source it is read off the
     * table's database and catalog.
     */
    constructor (id: Identity, rowCount: int, analyzedJob: AnalysisInfo, table: TableHandle)
      ensures ctlId == id.ctlId && ctlName == id.ctlName
      ensures dbId == id.dbId && dbName == id.dbName
      ensures tblId == id.tblId && tblName == id.tblName
      ensures idxId == -1
      ensures Valid()
      ensures State() == Updated(Fresh(rowCount), ColumnNames.Parse(analyzedJob.colName), analyzedJob, Some(table))
    {
      ctlId, ctlName := id.ctlId, id.ctlName;
      dbId, dbName := id.dbId, id.dbName;
      tblId, tblName := id.tblId, id.tblName;
      idxId := -1;
      this.rowCount := rowCount;
      updatedRows, queriedTimes, updatedTime := 0, 0, 0;
      colNameToColStatsMeta := Some(map[]);
      jobType := None;
      newPartitionLoaded := Some(false);
      userInjected := false;
      indexesRowCount := Some(map[]);
      new;
      Update(analyzedJob, Some(table));
    }

    /** The state a new record has before its first update, from the field initialisers. */
    static ghost function Fresh(rowCount: int): StatsState {
      StatsState(rowCount, 0, 0, 0, None, false, false, map[], map[])
    }

    /** The column entry for `colName`, None for a column never analysed. */
    function FindColumnStatsMeta(colName: string): (e: Option<ColStatsMeta>)
      reads this
      requires Valid()
      ensures e.Some? <==> colName in State().columns
      ensures e.Some? ==> e.value == State().columns[colName]
    {
      if colName in colNameToColStatsMeta.value then Some(colNameToColStatsMeta.value[colName]) else None
    }

    /** The column's last update time; 0 when the column has no entry. */
    function FindColumnLastUpdateTime(colName: string): (t: int)
      reads this
      requires Valid()
      ensures FindColumnStatsMeta(colName).None? ==> t == 0
      ensures FindColumnStatsMeta(colName).Some? ==> t == FindColumnStatsMeta(colName).value.updatedTime
    {
      var m := colNameToColStatsMeta.value;
      if colName !in m then 0 else m[colName].updatedTime
    }

    /** The names that have a column entry. */
    function AnalyzeColumns(): (names: set<string>)
      reads this
      requires Valid()
      ensures forall c :: c in names <==> FindColumnStatsMeta(c).Some?
    {
      colNameToColStatsMeta.value.Keys
    }

    /** The stored row count of an index; -1 when the index has no entry. */
    function GetRowCount(indexId: int): (n: int)
      reads this
      requires Valid()
      ensures indexId !in State().indexesRowCount ==> n == -1
      ensures indexId in State().indexesRowCount ==> n == State().indexesRowCount[indexId]
    {
      var m := indexesRowCount.value;
      if indexId in m then m[indexId] else -1
    }

    /** Deletes the entry for `colName`, if any. */
    method RemoveColumn(colName: string)
      requires Valid()
      modifies this
      ensures Valid()
      ensures State() == old(State()).(columns := old(State()).columns - {colName})
    {
      colNameToColStatsMeta := Some(colNameToColStatsMeta.value - {colName});
    }

    /** Deletes every column entry. */
    method RemoveAllColumn()
      requires Valid()
      modifies this
      ensures Valid()
      ensures State() == old(State()).(columns := map[])
    {
      colNameToColStatsMeta := Some(map[]);
    }

    /** Deletes every index row count. */
    method ClearIndexesRowCount()
      requires Valid()
      modifies this
      ensures Valid()
      ensures State() == old(State()).(indexesRowCount := map[])
    {
      indexesRowCount := Some(map[]);
    }

    /**
     * Zeroes the table's update time and applies ColStatsMeta.clear, given
     * here as `clear`, to every column entry; no entry is added or removed.
     */
    method Reset(clear: ColStatsMeta -> ColStatsMeta)
      requires Valid()
      modifies this
      ensures Valid()
      ensures State().columns.Keys == old(State()).columns.Keys
      ensures forall c :: c in State().columns ==> State().columns[c] == clear(old(State()).columns[c])
      ensures State() == old(State()).(updatedTime := 0, columns := State().columns)
    {
      updatedTime := 0;
      ghost var m0 := colNameToColStatsMeta.value;
      ghost var s0 := State();
      var keys := colNameToColStatsMeta.value.Keys;
      while keys != {}
        invariant keys <= m0.Keys
        invariant Valid()
        invariant colNameToColStatsMeta.value.Keys == m0.Keys
        invariant forall c :: c in keys ==> colNameToColStatsMeta.value[c] == m0[c]
        invariant forall c :: c in m0 && c !in keys ==> colNameToColStatsMeta.value[c] == clear(m0[c])
        invariant State() == s0.(columns := colNameToColStatsMeta.value)
        decreases keys
      {
        var c :| c in keys;
        var m := colNameToColStatsMeta.value;
        colNameToColStatsMeta := Some(m[c := clear(m[c])]);
        keys := keys - {c};
      }
    }

    /**
     * Folds a finished analysis job into the record; `table` None is a null
     * TableIf, for which only the column and table-level stamps change.
     */
    method Update(analyzedJob: AnalysisInfo, table: Option<TableHandle>)
      requires Valid()
      modifies this
      ensures Valid()
      ensures State() == Updated(old(State()), ColumnNames.Parse(analyzedJob.colName), analyzedJob, table)
    {
      var cols := ColumnNames.Parse(analyzedJob.colName);
      UpdateWithNames(analyzedJob, cols, table);
    }

    /** The body of update once the job's column list has been parsed into `cols`. */
    method UpdateWithNames(analyzedJob: AnalysisInfo, cols: seq<string>, table: Option<TableHandle>)
      requires Valid()
      modifies this
      ensures Valid()
      ensures State() == Updated(old(State()), cols, analyzedJob, table)
    {
      ghost var s0 := State();
      updatedTime := analyzedJob.tblUpdateTime;
      if analyzedJob.userInject {
        userInjected := true;
      }
      UpsertColumns(cols, analyzedJob);
      jobType := Some(analyzedJob.jobType);
      ghost var s2 := State();
      assert s2 == s0.(updatedTime := analyzedJob.tblUpdateTime,
                       userInjected := s0.userInjected || analyzedJob.userInject,
                       columns := UpsertAll(s0.columns, cols, analyzedJob),
                       jobType := Some(analyzedJob.jobType));
      if table.Some? {
        var t := table.value;
        if t.isOlap {
          rowCount := analyzedJob.rowCount;
          indexesRowCount := Some(indexesRowCount.value + analyzedJob.indexesRowCount);
          ClearStaleIndexRowCount(t);
          assert State() == s2.(rowCount := analyzedJob.rowCount,
                                indexesRowCount := MergedIndexes(s0.indexesRowCount, analyzedJob, t));
        }
        ghost var s3 := State();
        if SupportedNames(t.baseSchema) <= analyzedJob.colToPartitions.Keys {
          updatedRows := 0;
          newPartitionLoaded := Some(false);
        }
        assert State() == if FullyCovered(analyzedJob, t) then s3.(updatedRows := 0, newPartitionLoaded := false) else s3;
        // Set userInjected back to false after a manual analyze.
        if jobType == Some(Manual) && !analyzedJob.userInject {
          userInjected := false;
        }
      }
      assert State() == Updated(s0, cols, analyzedJob, table);
    }

    /**
     * The column loop of update: each listed name gets a new entry stamped by
     * the job, or has its existing entry's time, method, type and job type
     * overwritten in place.
     */
    method UpsertColumns(cols: seq<string>, analyzedJob: AnalysisInfo)
      requires Valid() && updatedTime == analyzedJob.tblUpdateTime
      modifies this
      ensures Valid()
      ensures State() == old(State()).(columns := UpsertAll(old(State()).columns, cols, analyzedJob))
    {
      ghost var s0 := State();
      var i := 0;
      while i < |cols|
        invariant 0 <= i <= |cols|
        invariant Valid() && updatedTime == analyzedJob.tblUpdateTime
        invariant State() == s0.(columns := UpsertAll(s0.columns, cols[..i], analyzedJob))
      {
        ghost var prev := UpsertAll(s0.columns, cols[..i], analyzedJob);
        var col := cols[i];
        var m := colNameToColStatsMeta.value;
        if col !in m {
          m := m[col := ColStatsMeta(updatedTime, analyzedJob.analysisMethod, analyzedJob.analysisType,
                                     analyzedJob.jobType, 0)];
        } else {
          var e := m[col];
          m := m[col := e.(updatedTime := updatedTime, analysisType := analyzedJob.analysisType,
                           analysisMethod := analyzedJob.analysisMethod, jobType := analyzedJob.jobType)];
        }
        colNameToColStatsMeta := Some(m);
        assert cols[..i + 1][..i] == cols[..i] && cols[..i + 1][i] == col;
        i := i + 1;
      }
      assert cols[..|cols|] == cols;
    }

    /**
     * Repairs the three fields an older persisted form may leave null; a
     * field that is there is kept as it is.
     */
    method GsonPostProcess()
      modifies this
      ensures Valid()
      ensures indexesRowCount == if old(indexesRowCount).None? then Some(map[]) else old(indexesRowCount)
      ensures newPartitionLoaded == if old(newPartitionLoaded).None? then Some(false) else old(newPartitionLoaded)
      ensures colNameToColStatsMeta ==
                if old(colNameToColStatsMeta).None? then Some(map[]) else old(colNameToColStatsMeta)
      ensures rowCount == old(rowCount) && updatedTime == old(updatedTime)
      ensures updatedRows == old(updatedRows) && queriedTimes == old(queriedTimes)
      ensures jobType == old(jobType) && userInjected == old(userInjected)
    {
      if indexesRowCount.None? {
        indexesRowCount := Some(map[]);
      }
      if newPartitionLoaded.None? {
        newPartitionLoaded := Some(false);
      }
      if colNameToColStatsMeta.None? {
        colNameToColStatsMeta := Some(map[]);
      }
    }

    /** The repair read does after parsing: only a missing column map is replaced. */
    method ReadFixUp()
      modifies this
      ensures colNameToColStatsMeta ==
                if old(colNameToColStatsMeta).None? then Some(map[]) else old(colNameToColStatsMeta)
      ensures indexesRowCount == old(indexesRowCount) && newPartitionLoaded == old(newPartitionLoaded)
      ensures rowCount == old(rowCount) && updatedTime == old(updatedTime)
      ensures updatedRows == old(updatedRows) && queriedTimes == old(queriedTimes)
      ensures jobType == old(jobType) && userInjected == old(userInjected)
    {
      if colNameToColStatsMeta.None? {
        colNameToColStatsMeta := Some(map[]);
      }
    }

    /**
     * The index-pruning loop, as written: it removes each entry whose id IS
     * in the table's index list (see RemoveListedIndexes).
     */
    method ClearStaleIndexRowCount(table: TableHandle)
      requires Valid()
      modifies this
      ensures Valid()
      ensures State() == old(State()).(indexesRowCount := RemoveListedIndexes(old(State()).indexesRowCount, table.indexIds))
    {
      ghost var m0 := indexesRowCount.value;
      ghost var s0 := State();
      var keys := indexesRowCount.value.Keys;
      var indexIds := table.indexIds;
      while keys != {}
        invariant keys <= m0.Keys
        invariant Valid()
        invariant forall k :: k in indexesRowCount.value <==> k in m0 && (k in keys || k !in indexIds)
        invariant forall k :: k in indexesRowCount.value ==> indexesRowCount.value[k] == m0[k]
        invariant State() == s0.(indexesRowCount := indexesRowCount.value)
        decreases keys
      {
        assert (forall k :: k !in keys) ==> keys == {};
        var key :| key in keys;
        if key in indexIds {
          indexesRowCount := Some(indexesRowCount.value - {key});
        }
        keys := keys - {key};
      }
      ghost var pruned := RemoveListedIndexes(m0, indexIds);
      assert forall k :: k in indexesRowCount.value <==> k in m0 && k !in indexIds;
      assert forall k :: k in pruned <==> k in m0 && k !in indexIds;
      assert indexesRowCount.value.Keys == pruned.Keys;
      assert forall k :: k in pruned ==> indexesRowCount.value[k] == pruned[k];
    }
  }
}
