/** The delimited-text path of the reader. The parser (CsvHelper with the
    invariant culture) is outside the model: its output, one sequence of
    fields per record with the header record first, is the input here. */
module CsvReader {
  import opened Wrappers
  import opened Text
  import opened Settings
  import opened Tables
  import opened ColumnNames

  /** The names the header adds: every field trimmed, whatever `TrimStrings`
      says. They are not deduplicated on this path; the table's own rules
      (`ColumnNames`) apply as they are added. */
  function CsvColumns(header: seq<string>): (columns: seq<string>)
    ensures |columns| == |header|
    ensures forall j :: 0 <= j < |header| ==> columns[j] == Trim(header[j])
  {
    seq(|header|, j requires 0 <= j < |header| => Trim(header[j]))
  }

  /** The stored text of one field. */
  function FieldValue(field: string, trim: bool): string {
    if trim then Trim(field) else field
  }

  /** No field among the first `n` is empty once trimmed (when trimming is on):
      the negation of `hasData`. */
  predicate AllFieldsEmpty(record: seq<string>, n: nat, trim: bool)
    requires n <= |record|
  {
    forall i :: 0 <= i < n ==> FieldValue(record[i], trim) == []
  }

  /** The row stored for a record: the first `n` fields; fields past the header
      width are ignored. */
  function CsvRow(record: seq<string>, n: nat, trim: bool): (row: Row)
    requires n <= |record|
    ensures |row| == n
  {
    seq(n, i requires 0 <= i < n => Some(FieldValue(record[i], trim)))
  }

  /** Every cell present, none of them DBNull. */
  predicate Dense(row: Row, n: nat) {
    |row| == n && forall j :: 0 <= j < n ==> row[j].Some?
  }

  /** Whether a record that is wide enough is added to the table. */
  predicate Keeps(record: seq<string>, n: nat, s: ImportSettings)
    requires n <= |record|
  {
    !s.skipEmptyRows || !AllFieldsEmpty(record, n, s.trimStrings)
  }

  /** Every record has at least `n` fields. */
  predicate WideEnough(records: seq<seq<string>>, n: nat) {
    forall i :: 0 <= i < |records| ==> |records[i]| >= n
  }

  /** The data records after the header (`records[i]` is file record `i + 1`),
      read into rows of width `n`. Reading stops at the first record with fewer
      than `n` fields, which `GetField` reports as a missing field. */
  function CsvRows(records: seq<seq<string>>, n: nat, s: ImportSettings): (r: Result<seq<Row>, ReadError>)
    ensures r.Success? <==> WideEnough(records, n)
    ensures r.Failure? ==>
              && r.error.MissingField?
              && 1 <= r.error.record <= |records|
              && r.error.field == |records[r.error.record - 1]| < n
              && WideEnough(records[..r.error.record - 1], n)
    ensures r.Success? ==> |r.value| <= |records| && forall i :: 0 <= i < |r.value| ==> Dense(r.value[i], n)
    ensures r.Success? && !s.skipEmptyRows ==> |r.value| == |records|
    decreases |records|
  {
    if |records| == 0 then Success([])
    else
      var init := records[..|records| - 1];
      var last := records[|records| - 1];
      var before := CsvRows(init, n, s);
      assert forall i :: 0 <= i < |init| ==> init[i] == records[i];
      if before.Failure? then
        assert records[..before.error.record - 1] == init[..before.error.record - 1];
        before
      else if |last| < n then Failure(MissingField(|records|, |last|))
      else if Keeps(last, n, s) then Success(before.value + [CsvRow(last, n, s.trimStrings)])
      else Success(before.value)
  }

  /** Reference definition of `ReadCsvFile`: no record at all means no header
      record; otherwise the header's names are added as columns and the data
      records fill them. The empty table is a valid result on this path. */
  function ReadCsvSpec(records: seq<seq<string>>, s: ImportSettings): Result<Table, ReadError> {
    if |records| == 0 then Failure(NoHeaderRecord)
    else
      var columns :- ColumnsNamed(CsvColumns(records[0]));
      var rows :- CsvRows(records[1..], |columns|, s);
      Success(Table(columns, rows))
  }

  /** Reading one more record, on the success path. */
  lemma {:induction false} CsvRowsStep(data: seq<seq<string>>, j: nat, n: nat, s: ImportSettings)
    requires j < |data| && CsvRows(data[..j], n, s).Success?
    ensures var r := CsvRows(data[..j + 1], n, s);
            var rows := CsvRows(data[..j], n, s).value;
            && (|data[j]| < n ==> r == Failure(MissingField(j + 1, |data[j]|)))
            && (|data[j]| >= n && Keeps(data[j], n, s) ==> r == Success(rows + [CsvRow(data[j], n, s.trimStrings)]))
            && (|data[j]| >= n && !Keeps(data[j], n, s) ==> r == Success(rows))
  {
    assert data[..j + 1][..j] == data[..j];
  }

  /** Once a prefix of the records fails, the whole read fails the same way. */
  lemma {:induction false} CsvFailurePersists(data: seq<seq<string>>, j: nat, n: nat, s: ImportSettings)
    requires j <= |data| && CsvRows(data[..j], n, s).Failure?
    ensures CsvRows(data, n, s) == CsvRows(data[..j], n, s)
    decreases |data| - j
  {
    if j < |data| {
      assert data[..j + 1][..j] == data[..j];
      CsvFailurePersists(data, j + 1, n, s);
    } else {
      assert data[..j] == data;
    }
  }

  /** The record loop of `ReadCsvFile`. */
  method ReadCsv(records: seq<seq<string>>, s: ImportSettings) returns (r: Result<Table, ReadError>)
    ensures r == ReadCsvSpec(records, s)
  {
    if |records| == 0 {
      return Failure(NoHeaderRecord);
    }
    var named := AddAll(CsvColumns(records[0]));
    if named.Failure? {
      return Failure(named.error);
    }
    var columns := named.value;
    var n := |columns|;
    var data := records[1..];
    var rows: seq<Row> := [];
    assert data[..0] == [];
    var j := 0;
    while j < |data|
      invariant 0 <= j <= |data|
      invariant CsvRows(data[..j], n, s) == Success(rows)
    {
      var record := data[j];
      CsvRowsStep(data, j, n, s);
      if |record| < n {
        CsvFailurePersists(data, j + 1, n, s);
        return Failure(MissingField(j + 1, |record|));
      }
      var row := CsvRow(record, n, s.trimStrings);
      if Keeps(record, n, s) {
        rows := rows + [row];
      }
      j := j + 1;
    }
    assert data[..|data|] == data;
    return Success(Table(columns, rows));
  }

  /** With `SkipEmptyRows` off, the rows are the records' leading fields, in
      record order. */
  lemma {:induction false} CsvKeepsEveryRecord(records: seq<seq<string>>, n: nat, s: ImportSettings)
    requires !s.skipEmptyRows && WideEnough(records, n)
    ensures forall i :: 0 <= i < |records| ==> CsvRows(records, n, s).value[i] == CsvRow(records[i], n, s.trimStrings)
    decreases |records|
  {
    if |records| > 0 {
      var init := records[..|records| - 1];
      assert WideEnough(init, n) by {
        forall i | 0 <= i < |init|
          ensures |init[i]| >= n
        {
          assert init[i] == records[i];
        }
      }
      CsvKeepsEveryRecord(init, n, s);
      forall i | 0 <= i < |records| - 1
        ensures CsvRows(records, n, s).value[i] == CsvRow(records[i], n, s.trimStrings)
      {
        assert init[i] == records[i];
      }
    }
  }

  /** Some cell of the row holds a non-empty string. */
  predicate HasValue(row: Row) {
    exists j :: 0 <= j < |row| && row[j] != Some([])
  }

  /** The row of a record has a non-empty value exactly when `hasData` is set
      for it. */
  lemma {:induction false} HasValueIffData(record: seq<string>, n: nat, trim: bool)
    requires n <= |record|
    ensures HasValue(CsvRow(record, n, trim)) <==> !AllFieldsEmpty(record, n, trim)
  {
    var row := CsvRow(record, n, trim);
    if !AllFieldsEmpty(record, n, trim) {
      var j :| 0 <= j < n && FieldValue(record[j], trim) != [];
      assert row[j] != Some([]);
    }
  }

  /** The rows of the records with some non-empty value among their first `n`
      fields, in record order. */
  function RowsWithData(records: seq<seq<string>>, n: nat, trim: bool): (rows: seq<Row>)
    requires WideEnough(records, n)
    ensures forall i :: 0 <= i < |rows| ==> HasValue(rows[i])
    decreases |records|
  {
    if |records| == 0 then []
    else
      var init := records[..|records| - 1];
      assert forall i :: 0 <= i < |init| ==> init[i] == records[i];
      var row := CsvRow(records[|records| - 1], n, trim);
      RowsWithData(init, n, trim) + (if HasValue(row) then [row] else [])
  }

  /** With `SkipEmptyRows` on, a record is kept exactly when some field holds a
      value: the rows are those of the records with data, in record order. */
  lemma {:induction false} CsvSkipsEmptyRecords(records: seq<seq<string>>, n: nat, s: ImportSettings)
    requires s.skipEmptyRows && WideEnough(records, n)
    ensures CsvRows(records, n, s).value == RowsWithData(records, n, s.trimStrings)
    ensures forall i :: 0 <= i < |CsvRows(records, n, s).value| ==> HasValue(CsvRows(records, n, s).value[i])
    decreases |records|
  {
    if |records| > 0 {
      var init := records[..|records| - 1];
      var last := records[|records| - 1];
      assert WideEnough(init, n) by {
        forall i | 0 <= i < |init|
          ensures |init[i]| >= n
        {
          assert init[i] == records[i];
        }
      }
      CsvSkipsEmptyRecords(init, n, s);
      HasValueIffData(last, n, s.trimStrings);
    }
  }

  /** With `TrimStrings` on, no stored value starts or ends with white space. */
  lemma {:induction false} CsvTrimmedValues(record: seq<string>, n: nat)
    requires n <= |record|
    ensures forall j :: 0 <= j < n ==>
              var v := CsvRow(record, n, true)[j].value;
              |v| > 0 ==> !IsWhiteSpace(v[0]) && !IsWhiteSpace(v[|v| - 1])
  {
    forall j | 0 <= j < n
      ensures var v := CsvRow(record, n, true)[j].value;
              |v| > 0 ==> !IsWhiteSpace(v[0]) && !IsWhiteSpace(v[|v| - 1])
    {
      assert CsvRow(record, n, true)[j].value == Trim(record[j]);
    }
  }

  /** Header names are trimmed but not deduplicated, so two header fields that
      trim to the same text make the read fail. */
  lemma {:induction false} CsvDuplicateHeaders(records: seq<seq<string>>, s: ImportSettings, i: nat, j: nat)
    requires |records| > 0 && i < j < |records[0]|
    requires Trim(records[0][i]) == Trim(records[0][j]) != []
    ensures ReadCsvSpec(records, s).Failure? && ReadCsvSpec(records, s).error.DuplicateColumn?
  {
    RepeatedNameRejected(CsvColumns(records[0]), i, j);
  }

  /** For instance a file whose header is "id,id" fails at the second column. */
  lemma HeaderNotDeduplicated(data: seq<seq<string>>, s: ImportSettings)
    ensures ReadCsvSpec([["id", "id"]] + data, s) == Failure(DuplicateColumn("id"))
  {
    TrimClean("id");
    assert CsvColumns(["id", "id"]) == ["id", "id"];
    ExactRepeatRejected();
    assert ([["id", "id"]] + data)[0] == ["id", "id"];
  }

  /** The header fields name the columns: trimmed, or, when nothing is left,
      the first `ColumnK` no earlier column uses, ignoring case; no two columns
      are named alike. */
  lemma {:induction false} CsvHeaderColumns(records: seq<seq<string>>, s: ImportSettings)
    ensures var r := ReadCsvSpec(records, s);
            r.Success? ==>
              && |r.value.columns| == |records[0]|
              && Distinct(r.value.columns)
              && forall j :: 0 <= j < |records[0]| ==>
                   r.value.columns[j] ==
                     if Trim(records[0][j]) != [] then Trim(records[0][j])
                     else AutoName(FreeIndex(r.value.columns[..j], 1))
  {
    if |records| > 0 {
      var names := CsvColumns(records[0]);
      AddedNames(names);
      if ReadCsvSpec(records, s).Success? {
        var columns := ColumnsNamed(names).value;
        forall j | 0 <= j < |records[0]|
          ensures columns[j] == if Trim(records[0][j]) != [] then Trim(records[0][j])
                                else AutoName(FreeIndex(columns[..j], 1))
        {
          assert NamedAt(names, columns, j);
        }
      }
    }
  }

  /** A header "a," names its columns "a" and "Column1". */
  lemma EmptyHeaderFieldGenerated(s: ImportSettings)
    ensures ReadCsvSpec([["a", ""]], s) == Success(Table(["a", "Column1"], []))
  {
    TrimClean("a");
    TrimClean("");
    assert CsvColumns(["a", ""]) == ["a", ""];
    EmptyNameGenerated();
    assert [["a", ""]][1..] == [];
  }
}
