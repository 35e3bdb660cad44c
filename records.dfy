/**
  The rows of the two tables the dashboard loads and the filter settings
  chosen in its sidebar. Missing cells are `None`.
*/
module Records {
  import opened Wrappers

  /**
    One row of the differential-expression table. The plotted column
    `Log_RNA_Value_Breast` is not represented: nothing filters or counts it.
  */
  datatype DiffRecord = DiffRecord(
    id: Option<string>,
    studyId: Option<string>,
    contrast: Option<string>,
    log2FoldChange: Option<real>,
    rnaValueBreast: Option<real>)

  /** One row of the target-location table. */
  datatype LocationRecord = LocationRecord(id: Option<string>, locationsClean: string)

  /** The sentinel choice of the two select boxes: no filter on that column. */
  const All: string := "All"

  /** The sidebar and search settings of one interaction. */
  datatype Criteria = Criteria(
    contrast: string,
    regulationThreshold: real,
    rnaThreshold: real,
    studyId: string,
    searchTerm: string)
}
