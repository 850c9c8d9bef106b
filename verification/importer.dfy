/** `ImportData`: the table-name check, the decision taken for each import mode
    and table state, the column parity checks against the live schema, and the
    batched load. The database is given by whether the table exists, its
    `SHOW COLUMNS` rows before and after provisioning, and which inserts it
    accepts; the statements issued form the report's trace. */
module Importer {
  import opened Wrappers
  import opened Text
  import opened Settings
  import opened Tables
  import opened Inference
  import opened Reconcile
  import opened Loader

  predicate IsNameChar(c: char) {
    ('a' <= c <= 'z') || ('A' <= c <= 'Z') || ('0' <= c <= '9') || c == '_'
  }

  predicate AllNameChars(s: string) {
    forall i :: 0 <= i < |s| ==> IsNameChar(s[i])
  }

  /** `Regex.IsMatch(name, "^[a-zA-Z0-9_]+$")`. Without `RegexOptions`, `$` also
      matches just before a final line feed, so one trailing "\n" passes. */
  predicate MatchesNamePattern(name: string) {
    (|name| > 0 && AllNameChars(name))
    || (|name| > 1 && name[|name| - 1] == '\n' && AllNameChars(name[..|name| - 1]))
  }

  datatype ImportError =
    | EmptyTableName
    | InvalidTableName
    | TableAlreadyExists
    | TableNotFound
    | Schema(error: SchemaError)
    | ColumnCountMismatch(dataColumns: nat, tableColumns: nat)
    | ColumnNotInTable(column: string)
    | TooManyErrors(failed: nat)

  datatype Database = Database(
    tableExists: bool,
    schema: seq<LiveColumn>,       // SHOW COLUMNS before any change
    schemaAfter: seq<LiveColumn>,  // SHOW COLUMNS once the table is provisioned
    accepts: nat -> bool)          // whether the insert of data row i succeeds

  datatype Imported = Imported(inserted: nat, failed: nat)

  datatype Report = Report(trace: seq<Event>, result: Result<Imported, ImportError>)

  /** The table-name checks, in order. */
  function NameError(name: string): (e: Option<ImportError>)
    ensures e.None? <==> !IsBlank(name) && MatchesNamePattern(name)
  {
    if IsBlank(name) then Some(EmptyTableName)
    else if !MatchesNamePattern(name) then Some(InvalidTableName)
    else None
  }

  function AlterEvents(alters: seq<Alter>): (events: seq<Event>)
    ensures |events| == |alters|
    ensures forall i :: 0 <= i < |alters| ==> events[i] == AlterColumn(alters[i])
  {
    seq(|alters|, i requires 0 <= i < |alters| => AlterColumn(alters[i]))
  }

  /** What the import mode and the table's existence lead to: the statements
      issued before loading, and the failure, if any. */
  function Provision(s: ImportSettings, data: Table, db: Database, c: Culture): (seq<Event>, Option<ImportError>) {
    if db.tableExists then
      match s.mode
      case ErrorIfExists => ([], Some(TableAlreadyExists))
      case ClearAndImport => ([Truncate], None)
      case Append =>
        var o := CheckSchema(db.schema, data);
        (AlterEvents(o.alters), if o.error.Some? then Some(Schema(o.error.value)) else None)
    else if s.createTableIfNotExists then ([Create(Definitions(data, c))], None)
    else ([], Some(TableNotFound))
  }

  /** The number of entries of the case-insensitive type dictionary. */
  function KeyCount(live: seq<LiveColumn>): nat {
    |set i | 0 <= i < |live| :: Upper(live[i].field)|
  }

  /** The first data column the type dictionary does not have. */
  function FirstMissing(columns: seq<string>, live: seq<LiveColumn>): (r: Option<string>)
    ensures r.None? <==> forall i :: 0 <= i < |columns| ==> FindColumn(live, columns[i]).Some?
    ensures r.Some? ==> exists i :: 0 <= i < |columns| && columns[i] == r.value
                          && FindColumn(live, columns[i]).None?
                          && forall k :: 0 <= k < i ==> FindColumn(live, columns[k]).Some?
  {
    if |columns| == 0 then None
    else
      var init := columns[..|columns| - 1];
      var r := FirstMissing(init, live);
      assert forall i :: 0 <= i < |init| ==> init[i] == columns[i];
      if r.Some? then r
      else if FindColumn(live, columns[|columns| - 1]).None? then Some(columns[|columns| - 1])
      else None
  }

  /** Column count, then column names, must match the live table. */
  function ParityError(columns: seq<string>, live: seq<LiveColumn>): (e: Option<ImportError>)
    ensures e.None? <==> |columns| == KeyCount(live) && forall i :: 0 <= i < |columns| ==> FindColumn(live, columns[i]).Some?
  {
    if |columns| != KeyCount(live) then Some(ColumnCountMismatch(|columns|, KeyCount(live)))
    else
      match FirstMissing(columns, live)
      case Some(name) => Some(ColumnNotInTable(name))
      case None => None
  }

  /** The insert parameters of every data row. */
  function AllParams(data: Table, live: seq<LiveColumn>, c: Culture): (rows: seq<seq<Param>>)
    ensures |rows| == |data.rows|
  {
    seq(|data.rows|, i requires 0 <= i < |data.rows| => RowParams(data.rows[i], data.columns, live, c))
  }

  function LoadReport(before: seq<Event>, data: Table, db: Database, s: ImportSettings, c: Culture): Report {
    var (trace, outcome) := LoadSpec(AllParams(data, db.schemaAfter, c), db.accepts, s.batchSize);
    Report(before + trace,
           match outcome
           case Completed(n, f) => Success(Imported(n, f))
           case Aborted(f) => Failure(TooManyErrors(f)))
  }

  /** Reference definition of `ImportData`. */
  function ImportSpec(s: ImportSettings, data: Table, db: Database, c: Culture): Report {
    match NameError(s.tableName)
    case Some(e) => Report([], Failure(e))
    case None =>
      var (before, failure) := Provision(s, data, db, c);
      if failure.Some? then Report(before, Failure(failure.value))
      else
        match ParityError(data.columns, db.schemaAfter)
        case Some(e) => Report(before, Failure(e))
        case None => LoadReport(before, data, db, s, c)
  }

  /** The body of `ImportData`. */
  method ImportData(s: ImportSettings, data: Table, db: Database, c: Culture) returns (r: Report)
    ensures r == ImportSpec(s, data, db, c)
  {
    if IsBlank(s.tableName) {
      return Report([], Failure(EmptyTableName));
    }
    if !MatchesNamePattern(s.tableName) {
      return Report([], Failure(InvalidTableName));
    }
    var before: seq<Event>;
    if db.tableExists {
      match s.mode {
        case ErrorIfExists =>
          return Report([], Failure(TableAlreadyExists));
        case ClearAndImport =>
          before := [Truncate];
        case Append =>
          var o := ValidateTableSchema(db.schema, data);
          before := AlterEvents(o.alters);
          if o.error.Some? {
            return Report(before, Failure(Schema(o.error.value)));
          }
      }
    } else if s.createTableIfNotExists {
      var defs := ColumnDefinitions(data, c);
      before := [Create(defs)];
    } else {
      return Report([], Failure(TableNotFound));
    }
    var live := db.schemaAfter;
    if |data.columns| != KeyCount(live) {
      return Report(before, Failure(ColumnCountMismatch(|data.columns|, KeyCount(live))));
    }
    var missing := CheckNames(data.columns, live);
    if missing.Some? {
      return Report(before, Failure(ColumnNotInTable(missing.value)));
    }
    var trace, outcome := LoadRows(AllParams(data, live, c), db.accepts, s.batchSize);
    r := Report(before + trace,
                match outcome
                case Completed(n, f) => Success(Imported(n, f))
                case Aborted(f) => Failure(TooManyErrors(f)));
  }

  /** The column-name loop: the first column the table lacks. */
  method CheckNames(columns: seq<string>, live: seq<LiveColumn>) returns (missing: Option<string>)
    ensures missing == FirstMissing(columns, live)
  {
    var j := 0;
    while j < |columns|
      invariant 0 <= j <= |columns|
      invariant FirstMissing(columns[..j], live).None?
    {
      assert columns[..j + 1][..j] == columns[..j];
      if FindColumn(live, columns[j]).None? {
        MissingPrefix(columns, live, j + 1);
        return Some(columns[j]);
      }
      j := j + 1;
    }
    assert columns[..j] == columns;
    return None;
  }

  /** A column missing among the first `j` is the first missing one overall. */
  lemma {:induction false} MissingPrefix(columns: seq<string>, live: seq<LiveColumn>, j: nat)
    requires j <= |columns| && FirstMissing(columns[..j], live).Some?
    ensures FirstMissing(columns, live) == FirstMissing(columns[..j], live)
    decreases |columns| - j
  {
    if j < |columns| {
      assert columns[..j + 1][..j] == columns[..j];
      MissingPrefix(columns, live, j + 1);
    } else {
      assert columns[..j] == columns;
    }
  }

  // Properties of the dispatch.

  /** A blank or ill-formed table name fails before the database is asked
      anything: the outcome is the same whatever the database holds. */
  lemma {:induction false} NameCheckedFirst(s: ImportSettings, data: Table, db: Database, db2: Database, c: Culture)
    requires IsBlank(s.tableName) || !MatchesNamePattern(s.tableName)
    ensures ImportSpec(s, data, db, c).trace == []
    ensures ImportSpec(s, data, db, c).result.Failure?
    ensures ImportSpec(s, data, db, c) == ImportSpec(s, data, db2, c)
  {
  }

  /** The allow-list admits a name with one trailing line feed. */
  lemma TrailingLineFeedAdmitted()
    ensures NameError("t\n") == None
  {
    assert !IsWhiteSpace('t');
    assert !IsBlank("t\n") by {
      assert "t\n"[0] == 't';
    }
    assert "t\n"[..1] == "t";
  }

  /** ErrorIfExists on an existing table fails with no statement issued. */
  lemma {:induction false} ErrorIfExistsIssuesNothing(s: ImportSettings, data: Table, db: Database, c: Culture)
    requires NameError(s.tableName).None? && db.tableExists && s.mode == ErrorIfExists
    ensures ImportSpec(s, data, db, c) == Report([], Failure(TableAlreadyExists))
  {
  }

  /** A missing table without CreateTableIfNotExists fails with no statement. */
  lemma {:induction false} MissingTableNotCreated(s: ImportSettings, data: Table, db: Database, c: Culture)
    requires NameError(s.tableName).None? && !db.tableExists && !s.createTableIfNotExists
    ensures ImportSpec(s, data, db, c) == Report([], Failure(TableNotFound))
  {
  }

  /** A missing table with CreateTableIfNotExists is created first, with one
      inferred definition per data column. */
  lemma {:induction false} MissingTableCreated(s: ImportSettings, data: Table, db: Database, c: Culture)
    requires NameError(s.tableName).None? && !db.tableExists && s.createTableIfNotExists
    ensures var r := ImportSpec(s, data, db, c);
            |r.trace| > 0 && r.trace[0] == Create(Definitions(data, c))
  {
  }

  /** Statements the load issues: inserts, commits and rollbacks only. */
  predicate RowEvent(e: Event) {
    e.Insert? || e.Commit? || e.Rollback?
  }

  lemma {:induction false} LoadPrefixEvents(rows: seq<seq<Param>>, accepts: nat -> bool, b: int, j: nat)
    requires j <= |rows|
    ensures forall k :: 0 <= k < |LoadPrefix(rows, accepts, b, j).trace| ==> RowEvent(LoadPrefix(rows, accepts, b, j).trace[k])
  {
    if j > 0 {
      LoadPrefixEvents(rows, accepts, b, j - 1);
    }
  }

  lemma {:induction false} LoadEvents(rows: seq<seq<Param>>, accepts: nat -> bool, b: int)
    ensures forall k :: 0 <= k < |LoadSpec(rows, accepts, b).0| ==> RowEvent(LoadSpec(rows, accepts, b).0[k])
  {
    LoadPrefixEvents(rows, accepts, b, |rows|);
  }

  function Truncates(trace: seq<Event>): nat {
    if |trace| == 0 then 0 else Truncates(trace[..|trace| - 1]) + (if trace[|trace| - 1].Truncate? then 1 else 0)
  }

  lemma {:induction false} NoTruncates(trace: seq<Event>)
    requires forall k :: 0 <= k < |trace| ==> RowEvent(trace[k])
    ensures Truncates(trace) == 0
  {
    if |trace| > 0 {
      NoTruncates(trace[..|trace| - 1]);
    }
  }

  lemma {:induction false} TruncatesAppend(a: seq<Event>, b: seq<Event>)
    ensures Truncates(a + b) == Truncates(a) + Truncates(b)
    decreases |b|
  {
    if |b| == 0 {
      assert a + b == a;
    } else {
      assert (a + b)[..|a + b| - 1] == a + b[..|b| - 1];
      TruncatesAppend(a, b[..|b| - 1]);
    }
  }

  /** ClearAndImport on an existing table issues exactly one TRUNCATE, first. */
  lemma {:induction false} ClearAndImportTruncatesOnce(s: ImportSettings, data: Table, db: Database, c: Culture)
    requires NameError(s.tableName).None? && db.tableExists && s.mode == ClearAndImport
    ensures var r := ImportSpec(s, data, db, c);
            |r.trace| > 0 && r.trace[0] == Truncate && Truncates(r.trace) == 1
  {
    var before := [Truncate];
    assert Truncates(before) == 1 by {
      assert before[..0] == [];
    }
    if ParityError(data.columns, db.schemaAfter).None? {
      var trace := LoadSpec(AllParams(data, db.schemaAfter, c), db.accepts, s.batchSize).0;
      LoadEvents(AllParams(data, db.schemaAfter, c), db.accepts, s.batchSize);
      NoTruncates(trace);
      TruncatesAppend(before, trace);
    }
  }

  /** Append on an existing table issues the reconciliation's ALTER statements
      first, and a failed reconciliation stops the import. */
  lemma {:induction false} AppendReconcilesFirst(s: ImportSettings, data: Table, db: Database, c: Culture)
    requires NameError(s.tableName).None? && db.tableExists && s.mode == Append
    ensures var r := ImportSpec(s, data, db, c);
            var o := CheckSchema(db.schema, data);
            && r.trace[..|o.alters|] == AlterEvents(o.alters)
            && (o.error.Some? ==> r == Report(AlterEvents(o.alters), Failure(Schema(o.error.value))))
  {
    var o := CheckSchema(db.schema, data);
    var before := AlterEvents(o.alters);
    if o.error.None? && ParityError(data.columns, db.schemaAfter).None? {
      var trace := LoadSpec(AllParams(data, db.schemaAfter, c), db.accepts, s.batchSize).0;
      assert (before + trace)[..|before|] == before;
    } else {
      assert before[..|before|] == before;
    }
  }

  /** No row is inserted unless the column count and every column name match
      the live table. */
  lemma {:induction false} ParityBeforeInsert(s: ImportSettings, data: Table, db: Database, c: Culture)
    requires exists k :: 0 <= k < |ImportSpec(s, data, db, c).trace| && ImportSpec(s, data, db, c).trace[k].Insert?
    ensures |data.columns| == KeyCount(db.schemaAfter)
    ensures forall i :: 0 <= i < |data.columns| ==> FindColumn(db.schemaAfter, data.columns[i]).Some?
  {
    var before := Provision(s, data, db, c).0;
    assert forall k :: 0 <= k < |before| ==> !before[k].Insert?;
  }

  /** A successful import counts every data row as inserted or failed, with
      fewer than ten failures. */
  lemma {:induction false} ImportedCounts(s: ImportSettings, data: Table, db: Database, c: Culture)
    requires s.batchSize >= 1
    requires ImportSpec(s, data, db, c).result.Success?
    ensures var n := ImportSpec(s, data, db, c).result.value;
            n.inserted + n.failed == |data.rows| && n.failed < MaxErrors
  {
    CompletedLoad(AllParams(data, db.schemaAfter, c), db.accepts, s.batchSize);
  }
}
