/** The in-memory `DataTable` both readers produce: ordered column names and
    rows of string-or-DBNull cells. */
module Tables {
  import opened Wrappers
  import opened Text

  /** One `DataRow`; `None` stands for `DBNull.Value`. */
  type Row = seq<Option<string>>

  datatype Table = Table(columns: seq<string>, rows: seq<Row>)

  /** Why reading a source file fails. */
  datatype ReadError =
    | EmptyHeader                          // the header row has no cells
    | NoDataRows                           // no non-empty data row is left
    | Cancelled                            // cancellation observed while decoding
    | NoHeaderRecord                       // the delimited file has no record at all
    | MissingField(record: nat, field: nat) // a record is shorter than the header
    | DuplicateColumn(name: string)        // the table already has a column of exactly this name

  /** Cell `j` of a row; a row that is too short reads as DBNull. */
  function At(row: Row, j: nat): Option<string> {
    if j < |row| then row[j] else None
  }

  /** The values of column `j`, one per row, in row order. */
  function Column(rows: seq<Row>, j: nat): (c: seq<Option<string>>)
    ensures |c| == |rows|
    ensures forall i :: 0 <= i < |rows| ==> c[i] == At(rows[i], j)
  {
    seq(|rows|, i requires 0 <= i < |rows| => At(rows[i], j))
  }

  /** DBNull, or a string that is empty or white space. */
  predicate IsEmptyCell(v: Option<string>) {
    v.None? || IsBlank(v.value)
  }

  predicate IsEmptyRow(row: Row) {
    forall j :: 0 <= j < |row| ==> IsEmptyCell(row[j])
  }

  /** Every row has exactly one cell per column. */
  predicate Rectangular(t: Table) {
    forall i :: 0 <= i < |t.rows| ==> |t.rows[i]| == |t.columns|
  }
}
