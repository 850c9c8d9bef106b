# excel2mysql core, modelled in Dafny

excel2mysql loads a spreadsheet (`.xlsx`) or a delimited text file (`.csv`)
into a MySQL table. This project models the decision logic of that loader as
pure Dafny functions plus a few loops, and proves properties of them. It
covers:

- **Reading.** Decoding a spreadsheet cell (`GetCellValue`) and its column
  reference (`GetColumnIndexFromReference`). Naming and deduplicating the
  header. Expanding sparse stored cells into dense rows padded with DBNull.
  Filtering out empty rows, buffering rows, and the cancellation checkpoints
  of the spreadsheet decoding pass. The CSV record loop.
- **Creating a table.** The column-type classifier of `CreateTable` and the
  `CREATE TABLE` statement it builds.
- **Appending to a table.** The schema reconciliation of
  `ValidateTableSchema`: a missing column is an error, NOT NULL is relaxed,
  and VARCHAR columns are widened through the text tiers.
- **Importing.** `ImportData`:
  - the table-name allow-list;
  - the decision made for each import mode and table state;
  - the column-count and column-name checks against the live table;
  - converting each cell by its column's live type;
  - the batched insert/commit loop with its ten-error abort.
- **Settings.** The `ImportMode` enumeration and the `ImportSettings`
  defaults.

The database is a parameter, not a connection:
- whether the table exists;
- its `SHOW COLUMNS` rows before and after provisioning;
- an oracle saying which row inserts succeed.

Every statement the importer sends is an event in a trace (TRUNCATE, CREATE,
ALTER, INSERT ok/failed, COMMIT, ROLLBACK). The loop invariants and the
commit/rollback accounting are stated over that trace. The culture-dependent
library parsers (`decimal.TryParse`, `long.TryParse`, `DateTime.TryParse` and
the invariant-culture decimal re-render of number cells) are uninterpreted
functions collected in `Text.Culture`. `int.TryParse`/`int.Parse`, `Trim`,
`char.IsWhiteSpace` and the regular expressions are modelled concretely.

Modules, one file each: `Wrappers`, `Text`, `Settings`, `Cells`, `Tables`,
`HeaderNaming`, `ColumnNames`, `SheetReader`, `CsvReader`, `Inference`,
`Reconcile`, `Loader`, `Importer`.

`ColumnNames` models the rules of `DataTable.Columns.Add` that both readers
rely on. A name equal to an existing one fails the read with a duplicate-name
error. An empty name is replaced by the first `ColumnK` (K from 1) that no
existing column has, ignoring case. Every length the source measures
(`string.Length`) counts UTF-16 code units, so a character outside the Basic
Multilingual Plane counts twice (`Text.Utf16Length`).

The model follows the code as written, quirks included:
- Spreadsheet data rows that are entirely DBNull or white space are always
  dropped; `SkipEmptyRows` is never read on that path.
- The CSV header is always trimmed and never deduplicated, so a repeated
  header field fails the read, and an empty one is named `ColumnK`.
- A spreadsheet header is deduplicated by appending `_k`, but a renamed
  header can still collide with a later cell's own name
  (`a, a, a_2`), and then the read fails.
- With `TrimStrings` set, a white-space header cell trims to "" after the
  blank check, so its name comes from the table, not from `Column{j+1}`.
- A value the culture parser refuses is sent as NULL; only a failed INSERT
  counts as a row error.
- The text tiers compare a value's UTF-16 length with 255, 65,535 and
  16,777,215. MySQL reads the TEXT, MEDIUMTEXT and LONGTEXT limits as bytes,
  and the table is utf8mb4, where a character takes up to 4 bytes. So the
  chosen tier can be too small for multibyte text: a cell of 30,000 CJK
  characters gets TEXT but needs 90,000 bytes. The model follows the source's
  comparison and promises nothing about bytes.
- A NOT NULL column is relaxed only for DBNull cells, never for empty strings.
- The VARCHAR widening statement reuses the nullability read before the
  relaxation.
- The ALTER statements for earlier columns have already run when a later
  column turns out to be missing (`Reconcile.MissingColumnStops`).
- The load aborts on the tenth failed insert.
- Cancellation is observed only while decoding a spreadsheet.
- A CSV file with a header and no data rows yields an empty table, not a
  no-data failure.
- Only the table name is allow-listed. Because `$` also matches before a final
  line feed, a name with one trailing `"\n"` passes.
- A reference without letters decodes to -1, and a missing or empty one to 0.
- Lower-case column letters are decoded as if `'A'` had been subtracted from
  them.

## Model

| member | source | states |
|---|---|---|
| Settings.ThreeModes | ImportMode.cs:3-8 | every import mode is Append, ClearAndImport or ErrorIfExists, and the three are distinct |
| Settings.DefaultSettings | ImportMode.cs:12-17 | a fresh settings record has an empty table name, mode Append, CreateTableIfNotExists, TrimStrings and SkipEmptyRows set, and batch size 1000 (within the dialog's 1..10000) |
| Cells.CellValue | MainForm.cs:660-696 | a cell without a value decodes to ""; a shared-string cell with a non-empty table yields the entry of an in-range parsed index and "" otherwise; a number or untyped cell ending in ".0" loses exactly those two characters, and otherwise gets its invariant decimal re-render, or keeps its text when that parse fails; any other cell keeps its text |
| Cells.SharedStringResolves | MainForm.cs:670-675 | a shared-string cell storing the decimal index i decodes to entry i of the table |
| Cells.TrailingZeroRemoved | MainForm.cs:680-686 | a number or untyped cell "d.0" decodes to "d" |
| Cells.LetterRun | MainForm.cs:706 | the extracted letters are the leftmost maximal run of ASCII letters, and are empty exactly when the reference has no letter |
| Cells.Wrap32 | MainForm.cs:712 | the 32-bit wrap-around lies in the int range, agrees with its argument modulo 2^32, and is the identity on in-range values |
| Cells.AccumulateExact | MainForm.cs:709-713 | on upper-case letters whose value fits in an int, the accumulation loop never wraps and computes the bijective base-26 value |
| Cells.ColumnIndex | MainForm.cs:698-715 | a missing or empty reference gives 0, one with no letters gives -1, and an upper-case letter run gives its bijective base-26 value minus one |
| Cells.ColumnLetters | MainForm.cs:708 | the letters naming a column are a non-empty upper-case run (the partner of decoding) |
| Cells.LettersValue | MainForm.cs:708-714 | the letters of column n have bijective base-26 value n + 1 (A is 0, Z is 25, AA is 26) |
| Cells.LettersOfValue | MainForm.cs:708-714 | every non-empty upper-case run is the letters of the column it decodes to, so encoding and decoding are inverse |
| Cells.ReferenceDecodes | MainForm.cs:698-715 | a reference made of column n's letters and a letter-free row part decodes to n |
| Cells.LowerCaseMisdecoded | MainForm.cs:706-712 | "a1" decodes to 32, not 0 |
| Cells.UpperCaseFirstColumn | MainForm.cs:708-714 | "A1" decodes to 0 |
| Text.Trim | MainForm.cs:523 | the trimmed text is the slice between the leading and trailing white space; everything cut is white space and the result neither starts nor ends with white space |
| Text.TrimEmptyIffBlank | MainForm.cs:584 | trimming leaves nothing exactly when the text is null-or-white-space |
| Text.TrimIdempotent | MainForm.cs:563-566 | trimming twice is trimming once |
| Text.TrimClean | MainForm.cs:740-743 | a text with no white space at either end is unchanged by trimming |
| Text.NatToStringRoundTrip | MainForm.cs:529 | the decimal rendering of a counter reads back as that counter |
| Text.ParseInt32 | MainForm.cs:672 | `int.TryParse` succeeds only with a value in the 32-bit range |
| Text.ParseRenderedNat | MainForm.cs:672 | parsing the rendering of any non-negative int gives it back |
| Text.Utf16Length | MainForm.cs:1141 | a string's .NET length is between its character count and twice that |
| Text.Utf16LengthCounts | MainForm.cs:1141 | the .NET length equals the character count exactly when every character is in the Basic Multilingual Plane |
| Text.AstralCountsTwice | MainForm.cs:1268 | two emoji outside the Basic Multilingual Plane have length 4 |
| HeaderNaming.TallyCounts | MainForm.cs:526-534 | the counter dictionary holds, for each name, how often it occurred so far |
| HeaderNaming.DedupStep | MainForm.cs:526-534 | one loop turn: a repeat increments its count k and is renamed name_k; a new name is recorded with count 1 and kept |
| HeaderNaming.DeduplicatedMeaning | MainForm.cs:526-536 | the first occurrence of a name keeps it; a name that occurred m times before becomes name_(m+1) |
| HeaderNaming.DeduplicateNames | MainForm.cs:514-537 | the dictionary loop computes the reference deduplication |
| ColumnNames.AutoNameDistinct | MainForm.cs:728 | two generated names that agree ignoring case have the same index |
| ColumnNames.FreeIndex | MainForm.cs:728 | the search from K returns the first index at or after K whose generated name no column uses, ignoring case |
| ColumnNames.AddColumn | MainForm.cs:728 | a non-empty name is added exactly when no column has exactly that name, and otherwise fails with a duplicate-column error on it; an empty name always succeeds with a generated name no column uses, and advances the counter |
| ColumnNames.AddColumns | MainForm.cs:726-729 | adding a list of names gives one column per name, or a duplicate-column failure |
| ColumnNames.AddFailurePersists | MainForm.cs:728 | once a name is refused, adding the rest changes nothing: the read fails with that error |
| ColumnNames.AddAll | MainForm.cs:726-729 | the add loop computes the reference column names |
| ColumnNames.AddedNames | MainForm.cs:726-729 | after a successful add every column name is distinct, a non-empty name is kept as given, and an empty one at position j is the first ColumnK (K from 1) the earlier columns do not use |
| ColumnNames.RepeatedNameRejected | MainForm.cs:728 | a non-empty name that occurs twice makes adding fail |
| ColumnNames.NonEmptyNamesKept | MainForm.cs:728 | for non-empty names, adding succeeds exactly when they are distinct, and then the columns are the names themselves |
| ColumnNames.DistinctAccepted | MainForm.cs:728 | distinct non-empty names are all accepted, unchanged and in order |
| ColumnNames.EmptyNameGenerated | MainForm.cs:728 | the names "a" and "" become the columns "a" and "Column1" |
| ColumnNames.ExactRepeatRejected | MainForm.cs:728 | the names "id" and "id" fail with a duplicate-column error on "id" |
| SheetReader.ReadHeader | MainForm.cs:508-537 | an empty header row fails; otherwise the columns are what the table makes of the deduplicated base names: on success one distinct column per header cell, and the only other failure is a duplicate name |
| SheetReader.BlankHeaderCellNamed | MainForm.cs:516-520 | when the read succeeds, a header cell decoding to "" is named Column{j+1} (unless that name occurred earlier) |
| SheetReader.TextHeaderCellNamed | MainForm.cs:516-536 | when the read succeeds, a header cell with text keeps it, trimmed only when TrimStrings is set (unless that name occurred earlier); a white-space cell trimmed to "" gets the first ColumnK the earlier columns do not use |
| SheetReader.DuplicateHeaderRejected | MainForm.cs:526-536 | two header cells whose deduplicated names are equal and non-empty make the read fail |
| SheetReader.RenamedRepeatRejected | MainForm.cs:526-536 | the header a, a, a_2 is deduplicated to a, a_2, a_2, which the table refuses |
| SheetReader.PadTo | MainForm.cs:553-557 | padding adds DBNull cells up to the referenced column, never past the last column, and keeps what was there |
| SheetReader.PlaceCell | MainForm.cs:549-569 | a cell whose column c satisfies current <= c < count lands exactly at c after DBNull gaps; with no column left nothing changes |
| SheetReader.PlaceCellsFull | MainForm.cs:560 | once every column is filled, further cells are dropped |
| SheetReader.ExpandRow | MainForm.cs:544-576 | a decoded data row has exactly one cell per column |
| SheetReader.SparseCellsLandAtTheirColumns | MainForm.cs:544-576 | with increasing references, every column holds the text of the cell referencing it, or DBNull; cells past the last column are dropped |
| SheetReader.DataRows | MainForm.cs:544-576 | every data row is expanded to the header width, one row per stored row |
| SheetReader.NonEmptyRows | MainForm.cs:579-605 | the filtered rows are no more than the input and none of them is empty |
| SheetReader.KeptIffNotEmpty | MainForm.cs:579-593 | a row is kept exactly when it is not all DBNull or white space |
| SheetReader.NonEmptyRowsAppend | MainForm.cs:607-633 | filtering chunk by chunk gives the filtered whole, so buffering keeps the source order |
| SheetReader.BufferStep | MainForm.cs:591-621 | one loop turn keeps appended rows plus buffer equal to the filtered prefix, whether or not the buffer is flushed |
| SheetReader.BufferRows | MainForm.cs:482-633 | a cancellation observed at any checkpoint gives no rows; otherwise the result is exactly the non-empty rows in order |
| SheetReader.ReadSheetShape | MainForm.cs:544-638 | a successful read has one distinct column per header cell, rectangular rows, at least one row, and no empty row |
| SheetReader.ReadSheet | MainForm.cs:482-638 | the decoding pass computes the reference read: cancellation, the empty-header, duplicate-column and no-data failures, otherwise the header and the filtered rows |
| CsvReader.CsvColumns | MainForm.cs:726-729 | one name per header field, that field with its surrounding white space removed whatever TrimStrings says |
| CsvReader.CsvRow | MainForm.cs:737-749 | a stored CSV row has exactly one cell per column |
| CsvReader.CsvRows | MainForm.cs:732-755 | the read succeeds exactly when every record has the header's width; otherwise it reports the first short record and its field count; rows are dense, and with SkipEmptyRows off there is one per record |
| CsvReader.CsvRowsStep | MainForm.cs:732-755 | one record: a short one fails, a kept one is appended, a skipped one leaves the rows alone |
| CsvReader.CsvFailurePersists | MainForm.cs:739 | a missing field aborts the whole read |
| CsvReader.ReadCsv | MainForm.cs:724-757 | the record loop computes the reference read: it fails when there is no header record or when the table refuses a header name |
| CsvReader.CsvKeepsEveryRecord | MainForm.cs:751-754 | with SkipEmptyRows off, row i is record i's leading fields |
| CsvReader.CsvSkipsEmptyRecords | MainForm.cs:744-754 | with SkipEmptyRows on, the rows are exactly the records having a non-empty field, in order, and every kept row has a non-empty value |
| CsvReader.CsvTrimmedValues | MainForm.cs:740-743 | with TrimStrings on, no stored value starts or ends with white space |
| CsvReader.CsvDuplicateHeaders | MainForm.cs:726-729 | two header fields that trim to the same non-empty name make the read fail with a duplicate-column error |
| CsvReader.HeaderNotDeduplicated | MainForm.cs:726-729 | the header "id,id" fails the read with a duplicate-column error on "id", whatever follows |
| CsvReader.CsvHeaderColumns | MainForm.cs:726-729 | a successful read has one distinct column per header field: the trimmed field, or for a blank field the first ColumnK the earlier columns do not use |
| CsvReader.EmptyHeaderFieldGenerated | MainForm.cs:726-729 | the header "a," names the columns "a" and "Column1" |
| CsvReader.HasValueIffData | MainForm.cs:744-748 | a stored row has a non-empty value exactly when its record set the has-data flag |
| CsvReader.RowsWithData | MainForm.cs:744-754 | the rows kept when skipping: one per record with data, in order, each with a non-empty value |
| Inference.TextTier | MainForm.cs:1187-1202 | the chosen text type is the first tier whose threshold covers the longest value's UTF-16 length; a VARCHAR is exactly that wide |
| Inference.Observed | MainForm.cs:1128-1137 | only non-empty values are observed |
| Inference.ObservedValues | MainForm.cs:1128-1137 | the observed values are exactly the non-empty string cells |
| Inference.MaxLength | MainForm.cs:1121-1141 | the maximum UTF-16 length starts at 1, bounds every value, and is attained when above 1 |
| Inference.ObserveOne | MainForm.cs:1139-1157 | how all-numeric, all-dates, any-dot and the maximum UTF-16 length change with one more value |
| Inference.SingleCellObserved | MainForm.cs:1128-1141 | a column of one non-empty cell observes that value, with maximum length its .NET length (at least 1) |
| Inference.ObserveKeepsSummary | MainForm.cs:1139-1157 | the flag updates keep the flags a summary of the values so far |
| Inference.ScanStep | MainForm.cs:1128-1159 | one row of the scan keeps the flags a summary; DBNull and empty cells leave them alone |
| Inference.DecideAgrees | MainForm.cs:1161-1203 | the decision taken from the flags is the reference classification |
| Inference.InferColumn | MainForm.cs:1119-1203 | the scan loop classifies the column as the reference does |
| Inference.Definitions | MainForm.cs:1119-1206 | one definition per column |
| Inference.ColumnDefinitions | MainForm.cs:1118-1206 | the column loop gives the reference definitions in column order |
| Inference.CreateTableSql | MainForm.cs:1205-1209 | the statement is CREATE TABLE, the name and a parenthesis, then the column definitions joined by ", " in column order, then the closing parenthesis with the utf8mb4 character set and collation |
| Inference.NoSuffixIffNothingObserved | MainForm.cs:1163-1167 | a definition lacks the NULL suffix exactly when every cell is DBNull or "", and then it is VARCHAR(255) |
| Inference.DateTimeMeans | MainForm.cs:1169-1171 | a DATETIME column has an observed value, and every non-empty cell parses as a date of at most 30 UTF-16 code units |
| Inference.NumericMeans | MainForm.cs:1173 | in a numeric column every non-empty cell parses as a decimal, and some cell is not a short date |
| Inference.NumericKindMeans | MainForm.cs:1175-1177 | a numeric column is DECIMAL exactly when some cell has a '.' |
| Inference.IntegerWidthMeans | MainForm.cs:1181 | an INT column's values are at most 9 code units long; a BIGINT column has a longer one |
| Inference.TextMeans | MainForm.cs:1184-1202 | a text column has a non-numeric cell, and every cell's UTF-16 length, and so its character count, is within the chosen type's threshold |
| Inference.DotMakesDecimal | MainForm.cs:1144-1150 | adding a number with a '.' that is not a date turns an INT column into DECIMAL |
| Inference.TierExamples | MainForm.cs:1187-1193 | 300-character text is TEXT, 10-character text is VARCHAR(10), written "VARCHAR(10)" |
| Inference.AstralTextWidth | MainForm.cs:1139-1193 | a column holding one text cell of two astral characters is VARCHAR(4) |
| Inference.JoinCommaEnds | MainForm.cs:1209 | the joined definitions start with the first and end with the last |
| Inference.JoinCommaAppend | MainForm.cs:1209 | joining two non-empty lists is joining each, with ", " between |
| Reconcile.FindColumn | MainForm.cs:1091-1100 | the case-insensitive dictionary lookup (the same dictionaries at 1219-1229) finds a matching column, and finds none exactly when no field matches ignoring case |
| Reconcile.SecondSegment | MainForm.cs:1258 | the second Split segment contains no parenthesis |
| Reconcile.VarCharLengthRoundTrip | MainForm.cs:1258 | the type text a VARCHAR(n) is written with starts with VARCHAR and reads back as length n |
| Reconcile.CheckStep | MainForm.cs:1233-1296 | one column after a clean prefix either extends the prefix or ends the whole check with its failure |
| Reconcile.ValidateTableSchema | MainForm.cs:1233-1296 | the column loop issues the reference statements and stops at the first failure |
| Reconcile.ErrorPersists | MainForm.cs:1235-1239 | once a column fails, later columns issue nothing and the failure stands |
| Reconcile.MissingColumnStops | MainForm.cs:1235-1239 | a column absent from the table ends the check with MissingColumn; the statements are the earlier columns' only |
| Reconcile.WidenNeverNarrows | MainForm.cs:1253-1293 | a widening happens only for a VARCHAR whose length is below the longest value in UTF-16 code units, and the new type's threshold covers that length |
| Reconcile.OnlyVarCharWidened | MainForm.cs:1253 | a column whose type is not VARCHAR is never widened |
| Reconcile.AlterSql | MainForm.cs:1252-1293 | every change starts ALTER TABLE t MODIFY COLUMN with the backtick-quoted name; a relaxation ends with its base type and NULL, a widening with the new type and NOT NULL or NULL |
| Reconcile.AstralTextWidened | MainForm.cs:1262-1278 | a nullable VARCHAR(2) receiving a value of two astral characters is widened to VARCHAR(4) |
| Reconcile.RelaxIffDbNull | MainForm.cs:1244-1251 | the NOT NULL relaxation is issued exactly when the column is not nullable and some cell is DBNull |
| Reconcile.NullabilityReapplied | MainForm.cs:1242-1293 | a NOT NULL VARCHAR(n) receiving DBNull and a value longer than n is made nullable and then widened with NOT NULL again |
| Loader.Coerce | MainForm.cs:955-1023 | DBNull, empty or white-space cells become NULL; any other parameter carries the cell's text |
| Loader.CoerceMeaning | MainForm.cs:961-1023 | each parameter kind comes from the first matching type family (DECIMAL/DOUBLE/FLOAT/REAL, then INT, then DATE/TIME, else raw) with its parser accepting; NULL exactly for blank cells or a refused parse |
| Loader.RowParams | MainForm.cs:949-1024 | one parameter per data column |
| Loader.LoadRows | MainForm.cs:939-1065 | the row loop issues the reference trace and outcome |
| Loader.StopPersists | MainForm.cs:1051-1054 | after the abort nothing further happens |
| Loader.LoadCounts | MainForm.cs:1046-1054 | the load stops exactly when ten rows were rejected, with the error count at ten; before that every row is inserted or failed |
| Loader.AcceptedBalanced | MainForm.cs:1026-1044 | a successful insert keeps the batch, commit and durable counts in step with the ledger |
| Loader.RejectedBalanced | MainForm.cs:1046-1054 | a rejected insert keeps the ledger; the tenth rolls back the open batch |
| Loader.StepBalanced | MainForm.cs:1026-1058 | every row keeps the ledger balanced |
| Loader.LoadLedger | MainForm.cs:945-1059 | every state of the load is balanced: the open batch is total mod batch size and commits are total div batch size |
| Loader.CounterStep | MainForm.cs:1037-1044 | one more successful row either completes a batch (one more commit) or grows the batch |
| Loader.FinishCommits | MainForm.cs:1061-1065 | a completed load has committed every inserted row in ceil(inserted / batch size) commits |
| Loader.StoppedLedger | MainForm.cs:1075-1080 | after the rollback nothing is pending and the durable rows are the whole committed batches |
| Loader.AbortOnTenthError | MainForm.cs:1046-1079 | the load aborts exactly when ten rows are rejected, reporting ten failures, and only the open batch is lost |
| Loader.CompletedLoad | MainForm.cs:1061-1069 | a completed load has fewer than ten failures, counts every row, and has committed every inserted row in ceil(inserted / batch size) commits |
| Loader.CommitsWithoutErrors | MainForm.cs:1037-1065 | with no rejected row, all N rows are inserted and durable in ceil(N / batch size) commits |
| Importer.NameError | MainForm.cs:850-858 | the name is accepted exactly when it is not blank and matches ^[a-zA-Z0-9_]+$ |
| Importer.TrailingLineFeedAdmitted | MainForm.cs:855 | the name "t\n" passes the allow-list |
| Importer.FirstMissing | MainForm.cs:916-922 | the first data column the type dictionary lacks, or none when it has every column |
| Importer.ParityError | MainForm.cs:910-922 | the checks pass exactly when the column count equals the dictionary's key count and every data column is found ignoring case |
| Importer.CheckNames | MainForm.cs:916-922 | the name loop finds the first missing column |
| Importer.MissingPrefix | MainForm.cs:916-922 | a column missing among the first j is the first missing one overall |
| Importer.AllParams | MainForm.cs:945-1024 | one parameter row per data row |
| Importer.ImportData | MainForm.cs:850-1079 | the body computes the reference import: name check, provisioning by mode and table state, parity checks, then the batched load |
| Importer.NameCheckedFirst | MainForm.cs:850-861 | a bad table name fails with no statement, whatever the database holds |
| Importer.ErrorIfExistsIssuesNothing | MainForm.cs:871-873 | ErrorIfExists on an existing table fails with no statement at all |
| Importer.MissingTableNotCreated | MainForm.cs:903-907 | a missing table without CreateTableIfNotExists fails with no statement |
| Importer.MissingTableCreated | MainForm.cs:887-895 | a missing table with CreateTableIfNotExists is first created with the inferred definitions |
| Importer.ClearAndImportTruncatesOnce | MainForm.cs:874-877 | ClearAndImport on an existing table issues exactly one TRUNCATE, and first |
| Importer.AppendReconcilesFirst | MainForm.cs:878-882 | Append issues the reconciliation statements first, and a failed reconciliation ends the import with them |
| Importer.ParityBeforeInsert | MainForm.cs:909-926 | an INSERT is issued only when the column count and every column name match the live table |
| Importer.ImportedCounts | MainForm.cs:1061-1069 | a successful import counts every data row as inserted or failed, with fewer than ten failures |

## Left out

- The window, the dialogs, the log, progress reporting, message boxes and sheet selection. They are UI. A workbook without sheets, or with several, is resolved before the core runs.
- `ImportSettingsForm.cs`, `DatabaseSettingsForm.cs` and `DatabaseConfig.cs`. They are dialogs and configuration persistence. The batch size bound 1..10000 appears only as `Settings.ValidBatchSize`.
- Reading the files. Cells arrive as given sequences: OpenXML parsing, the row-counting pass and CsvHelper's record splitting and quoting belong to foreign libraries.
- Spreadsheet elements that fail to load or are not rows. They are skipped with a log line, so the model's input holds rows only.
- Cancellation points. The source checks for cancellation at every element the reader visits. The model has one checkpoint before each row and one after the last. Both throw the same cancellation.
- The MySQL connection. Whether the table exists and its `SHOW COLUMNS` rows are inputs, and the `SHOW COLUMNS` rows after provisioning are an input too, not derived from the CREATE or ALTER statements. A failing CREATE, ALTER, TRUNCATE or COMMIT is not modelled. The only statement that can fail is a row INSERT, decided by an oracle.
- The INSERT statement's text, and its parameter objects beyond their kind and source text.
- The culture-dependent parsers and the decimal re-render. They are uninterpreted functions in `Text.Culture`.
- Floating point progress percentages, `async`, `Task.Delay` and `GC.Collect`. They are scheduling and memory plumbing.
- `DataTable` column naming beyond `ColumnNames`. Its lookup of a generated name compares with the table's culture, ignoring case; the model compares ASCII letters ignoring case (see `Text.Upper`). The ambiguous case, two existing columns that differ only in case and both match a generated name, is not modelled as .NET resolves it: the model simply counts the name as in use and moves on to the next `ColumnK`.
- Unpaired UTF-16 surrogates. A Dafny character is a Unicode scalar value, so a cell cannot hold one; every other character counts as one or two code units, as in .NET.
- Column names. They are not validated or escaped by the source either.
- Text.Upper: upper-cases ASCII letters only, and assumes a current culture whose upper-casing maps ASCII letters to ASCII letters. The source's `ToUpper()` and `StartsWith("VARCHAR")` use the current culture. Under a Turkish or Azerbaijani culture "int" upper-cases to "İNT", so `Contains("INT")` fails and the cell is sent raw, where the model still classifies the column as INT. Other scripts' case mappings and culture tables are out of scope.
- Cells.ColumnIndex: its contract describes upper-case letter runs whose value fits in an int. The function itself computes the wrapped 32-bit result for every input, and `Cells.LowerCaseMisdecoded` shows the lower-case behaviour on an example.
