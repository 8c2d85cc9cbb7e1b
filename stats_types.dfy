/**
 * The values TableStatsMeta works with: its per-column entry, the finished
 * analysis job it folds in, and the parts of the table handle it reads.
 */
module StatsTypes {

  /** AnalysisInfo.JobType: who started the analysis. */
  datatype JobType = Manual | System

  /** AnalysisInfo.AnalysisMethod: sampled or full scan. */
  datatype AnalysisMethod = Sample | Full

  /** AnalysisInfo.AnalysisType: which statistics were collected. */
  datatype AnalysisType = Fundamentals | Index | Histogram

  /**
   * ColStatsMeta, one per analysed column. `resettable` stands for the rest
   * of the entry: the fifth constructor argument, which update seeds with 0,
   * and whatever ColStatsMeta.clear resets. update never changes it.
   */
  datatype ColStatsMeta = ColStatsMeta(
    updatedTime: int,
    analysisMethod: AnalysisMethod,
    analysisType: AnalysisType,
    jobType: JobType,
    resettable: int)

  /** The fields of a finished AnalysisInfo that update reads. */
  datatype AnalysisInfo = AnalysisInfo(
    tblUpdateTime: int,
    userInject: bool,
    colName: string,
    analysisMethod: AnalysisMethod,
    analysisType: AnalysisType,
    jobType: JobType,
    rowCount: int,
    indexesRowCount: map<int, int>,
    colToPartitions: map<string, set<string>>)

  /** A base-schema column; `supported` is the negation of StatisticsUtil.isUnsupportedType of its type. */
  datatype SchemaColumn = SchemaColumn(name: string, supported: bool)

  /** What update reads of a TableIf: whether it is an OlapTable, its index ids and its base schema. */
  datatype TableHandle = TableHandle(isOlap: bool, indexIds: seq<int>, baseSchema: seq<SchemaColumn>)

  /** The identity the constructor copies out of the catalog, database and table. */
  datatype Identity = Identity(
    ctlId: int, ctlName: string,
    dbId: int, dbName: string,
    tblId: int, tblName: string)
}
