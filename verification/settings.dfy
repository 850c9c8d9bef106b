/** The import configuration chosen in the settings dialog before the core runs. */
module Settings {

  /** How an import treats a destination table that already exists. */
  datatype ImportMode =
    | Append          // add rows after checking and widening the live schema
    | ClearAndImport  // TRUNCATE the table, then add rows
    | ErrorIfExists   // refuse to touch an existing table

  datatype ImportSettings = ImportSettings(
    tableName: string,
    mode: ImportMode,
    createTableIfNotExists: bool,
    trimStrings: bool,
    skipEmptyRows: bool,
    batchSize: int)

  /** The bounds the settings dialog's batch-size control enforces. */
  predicate ValidBatchSize(b: int) {
    1 <= b <= 10000
  }

  /** A freshly constructed `ImportSettings`. */
  function DefaultSettings(): (s: ImportSettings)
    ensures s.tableName == [] && s.batchSize == 1000 && ValidBatchSize(s.batchSize)
    ensures s.mode == Append && s.createTableIfNotExists
    ensures s.trimStrings && s.skipEmptyRows
  {
    ImportSettings("", Append, true, true, true, 1000)
  }

  /** There are exactly three import modes. */
  lemma ThreeModes(m: ImportMode)
    ensures m == Append || m == ClearAndImport || m == ErrorIfExists
    ensures Append != ClearAndImport && ClearAndImport != ErrorIfExists && Append != ErrorIfExists
  {
  }
}
