/** The spreadsheet path of the reader: header naming and deduplication,
    expansion of sparse cells into dense rows, empty-row filtering, buffered
    appending and the cancellation checkpoints of the decoding pass. */
module SheetReader {
  import opened Wrappers
  import opened Text
  import opened Cells
  import opened Tables
  import opened HeaderNaming
  import opened ColumnNames

  /** Rows are moved from the buffer into the table once it holds this many. */
  const BufferSize: nat := 1000

  /** What decoding a cell needs: the shared-string cache, the culture's parsers
      and the `TrimStrings` setting. */
  datatype Decoder = Decoder(cache: seq<string>, culture: Culture, trim: bool)

  // ---- Header --------------------------------------------------------------

  /** The name header cell `position` proposes before deduplication: a blank
      cell becomes `Column{position + 1}`; other names are trimmed only when
      `TrimStrings` is set. */
  function BaseName(cell: Cell, position: nat, dec: Decoder): string {
    var v := CellValue(cell, dec.cache, dec.culture);
    if |v| == 0 then "Column" + NatToString(position + 1)
    else if dec.trim then Trim(v)
    else v
  }

  function BaseNames(cells: seq<Cell>, dec: Decoder): (names: seq<string>)
    ensures |names| == |cells|
  {
    seq(|cells|, j requires 0 <= j < |cells| => BaseName(cells[j], j, dec))
  }

  function HeaderNames(cells: seq<Cell>, dec: Decoder): seq<string> {
    Deduplicated(BaseNames(cells, dec))
  }

  /** The table's columns: the deduplicated names added in order, under the
      `DataTable` rules of `ColumnNames`. */
  function HeaderColumns(cells: seq<Cell>, dec: Decoder): Result<seq<string>, ReadError> {
    ColumnsNamed(HeaderNames(cells, dec))
  }

  /** Reading the header: an empty header row fails; otherwise the names are
      added as columns, which fails when two of them are exactly equal even
      after deduplication. A successful read has one column per header cell,
      no two named alike. */
  method ReadHeader(cells: seq<Cell>, dec: Decoder) returns (r: Result<seq<string>, ReadError>)
    ensures |cells| == 0 ==> r == Failure(EmptyHeader)
    ensures |cells| > 0 ==> r == HeaderColumns(cells, dec)
    ensures r.Success? ==> |r.value| == |cells| && Distinct(r.value)
    ensures r.Failure? ==> r.error == EmptyHeader || r.error.DuplicateColumn?
  {
    if |cells| == 0 {
      return Failure(EmptyHeader);
    }
    var names := DeduplicateNames(BaseNames(cells, dec));
    AddedNames(names);
    r := AddAll(names);
  }

  /** A blank header cell whose generated name did not occur before is named
      after its one-based position. */
  lemma {:induction false} BlankHeaderCellNamed(cells: seq<Cell>, dec: Decoder, j: nat)
    requires j < |cells|
    requires CellValue(cells[j], dec.cache, dec.culture) == []
    requires "Column" + NatToString(j + 1) !in BaseNames(cells, dec)[..j]
    ensures HeaderColumns(cells, dec).Success? ==> HeaderColumns(cells, dec).value[j] == "Column" + NatToString(j + 1)
  {
    var bases := BaseNames(cells, dec);
    assert bases[j] == "Column" + NatToString(j + 1);
    OccurrencesZero(bases[..j], bases[j]);
    assert HeaderNames(cells, dec)[j] == bases[j];
    AddedNames(HeaderNames(cells, dec));
  }

  /** A header cell with text, whose name did not occur before, keeps that
      text, trimmed when `TrimStrings` is set. When nothing is left of it (white
      space under `TrimStrings`), the table generates the name: the first
      `ColumnK` no earlier column uses, ignoring case. */
  lemma {:induction false} TextHeaderCellNamed(cells: seq<Cell>, dec: Decoder, j: nat)
    requires j < |cells|
    requires CellValue(cells[j], dec.cache, dec.culture) != []
    requires BaseNames(cells, dec)[j] !in BaseNames(cells, dec)[..j]
    ensures var v := CellValue(cells[j], dec.cache, dec.culture);
            var name := if dec.trim then Trim(v) else v;
            HeaderColumns(cells, dec).Success? ==>
              var columns := HeaderColumns(cells, dec).value;
              columns[j] == if name != [] then name else AutoName(FreeIndex(columns[..j], 1))
  {
    var v := CellValue(cells[j], dec.cache, dec.culture);
    var bases := BaseNames(cells, dec);
    var names := HeaderNames(cells, dec);
    assert bases[j] == if dec.trim then Trim(v) else v;
    OccurrencesZero(bases[..j], bases[j]);
    assert names[j] == bases[j];
    AddedNames(names);
    if ColumnsNamed(names).Success? {
      var columns := ColumnsNamed(names).value;
      assert NamedAt(names, columns, j);
    }
  }

  /** Two header cells that still share a name after deduplication make the
      read fail. */
  lemma {:induction false} DuplicateHeaderRejected(cells: seq<Cell>, dec: Decoder, i: nat, j: nat)
    requires i < j < |cells|
    requires HeaderNames(cells, dec)[i] == HeaderNames(cells, dec)[j] != []
    ensures HeaderColumns(cells, dec).Failure?
  {
    RepeatedNameRejected(HeaderNames(cells, dec), i, j);
  }

  /** Deduplication can produce an exact repeat: the names "a", "a", "a_2"
      become "a", "a_2", "a_2", which the table rejects. */
  lemma RenamedRepeatRejected()
    ensures Deduplicated(["a", "a", "a_2"]) == ["a", "a_2", "a_2"]
    ensures ColumnsNamed(Deduplicated(["a", "a", "a_2"])).Failure?
  {
    var bases := ["a", "a", "a_2"];
    assert bases[..1] == ["a"] && bases[..2] == ["a", "a"];
    assert ["a"][..0] == [] && ["a", "a"][..1] == ["a"];
    assert Occurrences(bases[..1], "a") == 1;
    assert Occurrences(bases[..0], "a") == 0;
    assert NatToString(2) == "2";
    assert Renamed("a", 2) == "a_2";
    assert Occurrences(bases[..2], "a_2") == 0;
    RepeatedNameRejected(Deduplicated(bases), 1, 2);
  }

  // ---- Data rows -----------------------------------------------------------

  /** The decoded text stored for a data cell. */
  function CellText(cell: Cell, dec: Decoder): string {
    var v := CellValue(cell, dec.cache, dec.culture);
    if dec.trim then Trim(v) else v
  }

  function Nulls(k: nat): (r: Row)
    ensures |r| == k && forall i :: 0 <= i < k ==> r[i] == None
  {
    seq(k, i => None)
  }

  /** The inner `while`: DBNull cells up to the referenced column, never past
      the last column. */
  function PadTo(acc: Row, target: int, n: nat): (r: Row)
    requires |acc| <= n
    ensures |acc| <= |r| <= n && r[..|acc|] == acc
    ensures forall i :: |acc| <= i < |r| ==> r[i] == None
    ensures |r| == if |acc| < target then (if target < n then target else n) else |acc|
  {
    if |acc| < target then
      var stop := if target < n then target else n;
      acc + Nulls(stop - |acc|)
    else acc
  }

  /** Handling one stored cell: pad to its referenced column (when it has a
      reference), then store its text at the current column if one is left. A
      cell whose column `c` satisfies `|acc| <= c < n` lands exactly at `c`. */
  function PlaceCell(acc: Row, cell: Cell, n: nat, dec: Decoder): (r: Row)
    requires |acc| <= n
    ensures |acc| <= |r| <= n && r[..|acc|] == acc
    ensures cell.reference.Some? && |acc| <= ColumnIndex(cell.reference) < n ==>
              r == acc + Nulls(ColumnIndex(cell.reference) - |acc|) + [Some(CellText(cell, dec))]
    ensures |acc| == n ==> r == acc
  {
    var padded := if cell.reference.Some? then PadTo(acc, ColumnIndex(cell.reference), n) else acc;
    if |padded| < n then padded + [Some(CellText(cell, dec))] else padded
  }

  function PlaceCells(acc: Row, cells: seq<Cell>, n: nat, dec: Decoder): (r: Row)
    requires |acc| <= n
    ensures |acc| <= |r| <= n && r[..|acc|] == acc
    decreases |cells|
  {
    if |cells| == 0 then acc
    else
      var next := PlaceCell(acc, cells[0], n, dec);
      var r := PlaceCells(next, cells[1..], n, dec);
      assert r[..|acc|] == next[..|next|][..|acc|];
      r
  }

  /** A data row: the stored cells placed left to right, then DBNull up to the
      column count. */
  function ExpandRow(cells: seq<Cell>, n: nat, dec: Decoder): (r: Row)
    ensures |r| == n
  {
    var placed := PlaceCells([], cells, n, dec);
    placed + Nulls(n - |placed|)
  }

  /** Every cell carries a reference, and the referenced columns strictly
      increase from a non-negative first one: the shape spreadsheet writers
      store. */
  predicate IncreasingReferences(cells: seq<Cell>) {
    && (forall j :: 0 <= j < |cells| ==> cells[j].reference.Some?)
    && (forall j, k :: 0 <= j < k < |cells| ==> ColumnIndex(cells[j].reference) < ColumnIndex(cells[k].reference))
  }

  /** The text of the cell referencing column `c`, if any. */
  function Lookup(cells: seq<Cell>, c: int, dec: Decoder): Option<string> {
    if |cells| == 0 then None
    else if ColumnIndex(cells[0].reference) == c then Some(CellText(cells[0], dec))
    else Lookup(cells[1..], c, dec)
  }

  lemma {:induction false} LookupAbsent(cells: seq<Cell>, c: int, dec: Decoder)
    requires forall j :: 0 <= j < |cells| ==> ColumnIndex(cells[j].reference) != c
    ensures Lookup(cells, c, dec) == None
  {
    if |cells| > 0 {
      LookupAbsent(cells[1..], c, dec);
    }
  }

  lemma {:induction false} PlaceCellsFull(acc: Row, cells: seq<Cell>, n: nat, dec: Decoder)
    requires |acc| == n
    ensures PlaceCells(acc, cells, n, dec) == acc
    decreases |cells|
  {
    if |cells| > 0 {
      PlaceCellsFull(PlaceCell(acc, cells[0], n, dec), cells[1..], n, dec);
    }
  }

  /** The result shape `PlaceCellsSparse` promises. */
  predicate SparseLayout(acc: Row, cells: seq<Cell>, n: nat, dec: Decoder, r: Row) {
    && (forall c :: |acc| <= c < |r| ==> r[c] == Lookup(cells, c, dec))
    && (forall c :: |r| <= c < n ==> Lookup(cells, c, dec) == None)
  }

  predicate ReferencesFrom(cells: seq<Cell>, low: int) {
    forall j :: 0 <= j < |cells| ==> ColumnIndex(cells[j].reference) >= low
  }

  lemma {:induction false} PlaceCellsSparse(acc: Row, cells: seq<Cell>, n: nat, dec: Decoder)
    requires |acc| <= n
    requires IncreasingReferences(cells)
    requires ReferencesFrom(cells, |acc|)
    ensures SparseLayout(acc, cells, n, dec, PlaceCells(acc, cells, n, dec))
    decreases |cells|
  {
    if |cells| > 0 {
      var k := ColumnIndex(cells[0].reference);
      if k < n {
        PlaceInRange(acc, cells, n, dec);
      } else {
        PlacePastEnd(acc, cells, n, dec);
      }
    }
  }

  lemma {:induction false} PlaceInRange(acc: Row, cells: seq<Cell>, n: nat, dec: Decoder)
    requires |acc| <= n && |cells| > 0
    requires IncreasingReferences(cells)
    requires ReferencesFrom(cells, |acc|)
    requires ColumnIndex(cells[0].reference) < n
    ensures SparseLayout(acc, cells, n, dec, PlaceCells(acc, cells, n, dec))
    decreases |cells|, 0
  {
    var k := ColumnIndex(cells[0].reference);
    var rest := cells[1..];
    var next := PlaceCell(acc, cells[0], n, dec);
    var r := PlaceCells(next, rest, n, dec);
    assert r == PlaceCells(acc, cells, n, dec);
    PlaceFirst(acc, cells[0], n, dec);
    RestAfterFirst(cells);
    PlaceCellsSparse(next, rest, n, dec);
    forall c | |acc| <= c < |r|
      ensures r[c] == Lookup(cells, c, dec)
    {
      if c < k {
        assert r[c] == r[..|next|][c];
        LookupAbsent(rest, c, dec);
      } else if c == k {
        assert r[c] == r[..|next|][c];
      }
    }
  }

  /** A cell whose column is in range pads up to it and lands there. */
  lemma {:induction false} PlaceFirst(acc: Row, cell: Cell, n: nat, dec: Decoder)
    requires |acc| <= n && cell.reference.Some?
    requires |acc| <= ColumnIndex(cell.reference) < n
    ensures var k := ColumnIndex(cell.reference);
            var next := PlaceCell(acc, cell, n, dec);
            && |next| == k + 1
            && (forall c :: |acc| <= c < k ==> next[c] == None)
            && next[k] == Some(CellText(cell, dec))
  {
  }

  /** The cells after the first reference columns past the first one's. */
  lemma {:induction false} RestAfterFirst(cells: seq<Cell>)
    requires |cells| > 0 && IncreasingReferences(cells)
    ensures IncreasingReferences(cells[1..])
    ensures ReferencesFrom(cells[1..], ColumnIndex(cells[0].reference) + 1)
  {
    var rest := cells[1..];
    forall j | 0 <= j < |rest|
      ensures ColumnIndex(rest[j].reference) >= ColumnIndex(cells[0].reference) + 1
    {
      assert rest[j] == cells[j + 1];
    }
  }

  lemma {:induction false} PlacePastEnd(acc: Row, cells: seq<Cell>, n: nat, dec: Decoder)
    requires |acc| <= n && |cells| > 0
    requires IncreasingReferences(cells)
    requires ReferencesFrom(cells, |acc|)
    requires ColumnIndex(cells[0].reference) >= n
    ensures SparseLayout(acc, cells, n, dec, PlaceCells(acc, cells, n, dec))
  {
    var k := ColumnIndex(cells[0].reference);
    var next := PlaceCell(acc, cells[0], n, dec);
    assert |next| == n;
    PlaceCellsFull(next, cells[1..], n, dec);
    var r := PlaceCells(acc, cells, n, dec);
    assert r == next;
    forall c | |acc| <= c < n
      ensures Lookup(cells, c, dec) == None
    {
      forall j | 0 <= j < |cells|
        ensures ColumnIndex(cells[j].reference) != c
      {
        if j > 0 {
          assert ColumnIndex(cells[0].reference) < ColumnIndex(cells[j].reference);
        }
      }
      LookupAbsent(cells, c, dec);
    }
  }

  /** Sparse storage expands to a dense row: each cell sits at the column its
      reference names, every other column is DBNull, and cells referencing a
      column past the last one are dropped. */
  lemma {:induction false} SparseCellsLandAtTheirColumns(cells: seq<Cell>, n: nat, dec: Decoder)
    requires IncreasingReferences(cells)
    requires |cells| > 0 ==> ColumnIndex(cells[0].reference) >= 0
    ensures forall c :: 0 <= c < n ==> ExpandRow(cells, n, dec)[c] == Lookup(cells, c, dec)
  {
    assert ReferencesFrom(cells, 0) by {
      forall j | 0 <= j < |cells|
        ensures ColumnIndex(cells[j].reference) >= 0
      {
        if j > 0 {
          assert ColumnIndex(cells[0].reference) < ColumnIndex(cells[j].reference);
        }
      }
    }
    PlaceCellsSparse([], cells, n, dec);
  }

  // ---- Empty-row filtering and the decoding pass -----------------------------

  /** The rows that are not empty, in their original order. */
  function NonEmptyRows(rows: seq<Row>): (r: seq<Row>)
    ensures |r| <= |rows|
    ensures forall i :: 0 <= i < |r| ==> !IsEmptyRow(r[i])
  {
    if |rows| == 0 then []
    else
      var last := rows[|rows| - 1];
      NonEmptyRows(rows[..|rows| - 1]) + (if IsEmptyRow(last) then [] else [last])
  }

  lemma {:induction false} NonEmptyRowsSnoc(rows: seq<Row>, row: Row)
    ensures NonEmptyRows(rows + [row]) == NonEmptyRows(rows) + (if IsEmptyRow(row) then [] else [row])
  {
    assert (rows + [row])[..|rows|] == rows;
  }

  /** Filtering distributes over concatenation, so filtering chunk by chunk
      keeps the source order. */
  lemma {:induction false} NonEmptyRowsAppend(a: seq<Row>, b: seq<Row>)
    ensures NonEmptyRows(a + b) == NonEmptyRows(a) + NonEmptyRows(b)
    decreases |b|
  {
    if |b| > 0 {
      var b' := b[..|b| - 1];
      var last := b[|b| - 1];
      assert a + b == (a + b') + [last];
      assert b == b' + [last];
      NonEmptyRowsSnoc(a + b', last);
      NonEmptyRowsSnoc(b', last);
      NonEmptyRowsAppend(a, b');
    } else {
      assert a + b == a;
    }
  }

  /** A row is kept exactly when it is not empty. */
  lemma {:induction false} KeptIffNotEmpty(rows: seq<Row>, row: Row)
    ensures row in NonEmptyRows(rows) <==> row in rows && !IsEmptyRow(row)
  {
    if |rows| > 0 {
      var init := rows[..|rows| - 1];
      assert rows == init + [rows[|rows| - 1]];
      KeptIffNotEmpty(init, row);
    }
  }

  /** The data rows of a sheet, each expanded to `n` columns. */
  function DataRows(sheetRows: seq<seq<Cell>>, n: nat, dec: Decoder): (rows: seq<Row>)
    ensures |rows| == |sheetRows|
    ensures forall i :: 0 <= i < |rows| ==> |rows[i]| == n
  {
    if |sheetRows| == 0 then []
    else DataRows(sheetRows[..|sheetRows| - 1], n, dec) + [ExpandRow(sheetRows[|sheetRows| - 1], n, dec)]
  }

  /** When cancellation is observed: `Some(k)` with `k < |sheetRows|` means at
      the checkpoint before row `k`; `k == |sheetRows|` means after the last row,
      before the reader reaches the end of the sheet. */
  predicate CancelledAt(cancelAt: Option<nat>, k: nat) {
    cancelAt.Some? && cancelAt.value == k
  }

  /** Reference definition of the decoding pass. The first row is the header.
      `SkipEmptyRows` plays no part: empty data rows are always dropped. */
  function ReadSheetSpec(sheetRows: seq<seq<Cell>>, dec: Decoder, cancelAt: Option<nat>): Result<Table, ReadError> {
    if CancelledAt(cancelAt, 0) then Failure(Cancelled)
    else if |sheetRows| == 0 then Failure(NoDataRows)
    else if |sheetRows[0]| == 0 then Failure(EmptyHeader)
    else
      var columns :- HeaderColumns(sheetRows[0], dec);
      if cancelAt.Some? && 1 <= cancelAt.value <= |sheetRows| then Failure(Cancelled)
      else
        var kept := NonEmptyRows(DataRows(sheetRows[1..], |columns|, dec));
        if |kept| == 0 then Failure(NoDataRows) else Success(Table(columns, kept))
  }

  /** Keeping one more row extends the filtered rows by that row exactly when
      it is not empty. */
  lemma {:induction false} NonEmptyRowsPrefix(rows: seq<Row>, j: nat)
    requires j < |rows|
    ensures NonEmptyRows(rows[..j + 1]) == NonEmptyRows(rows[..j]) + (if IsEmptyRow(rows[j]) then [] else [rows[j]])
  {
    assert rows[..j + 1] == rows[..j] + [rows[j]];
    NonEmptyRowsSnoc(rows[..j], rows[j]);
  }

  /** What one turn of the buffered loop keeps: the rows appended so far plus
      the buffer stay the filtered prefix, whether or not the buffer is
      flushed. */
  lemma {:induction false} BufferStep(out: seq<Row>, buffer: seq<Row>, data: seq<Row>, j: nat)
    requires j < |data| && out + buffer == NonEmptyRows(data[..j])
    ensures var b := if IsEmptyRow(data[j]) then buffer else buffer + [data[j]];
            && out + b == NonEmptyRows(data[..j + 1])
            && (out + b) + [] == NonEmptyRows(data[..j + 1])
  {
    NonEmptyRowsPrefix(data, j);
    if !IsEmptyRow(data[j]) {
      assert out + (buffer + [data[j]]) == (out + buffer) + [data[j]];
    }
  }

  /** A successful read has one column per header cell, no two named alike,
      one cell per column in every row, and at least one row, none of them
      empty. */
  lemma {:induction false} ReadSheetShape(sheetRows: seq<seq<Cell>>, dec: Decoder, cancelAt: Option<nat>)
    ensures var r := ReadSheetSpec(sheetRows, dec, cancelAt);
            r.Success? ==> |sheetRows| > 0 && |r.value.columns| == |sheetRows[0]| && Rectangular(r.value)
    ensures var r := ReadSheetSpec(sheetRows, dec, cancelAt);
            r.Success? ==> Distinct(r.value.columns)
    ensures var r := ReadSheetSpec(sheetRows, dec, cancelAt);
            r.Success? ==> |r.value.rows| > 0 && forall i :: 0 <= i < |r.value.rows| ==> !IsEmptyRow(r.value.rows[i])
  {
    var r := ReadSheetSpec(sheetRows, dec, cancelAt);
    if r.Success? {
      AddedNames(HeaderNames(sheetRows[0], dec));
      var columns := HeaderColumns(sheetRows[0], dec).value;
      var all := DataRows(sheetRows[1..], |columns|, dec);
      forall i | 0 <= i < |r.value.rows|
        ensures |r.value.rows[i]| == |columns|
      {
        KeptIffNotEmpty(all, r.value.rows[i]);
      }
    }
  }

  /** The data-row part of the reader loop over already decoded rows: the
      cancellation checkpoint before each row (row `data[i]` is sheet row
      `i + 1`) and after the last one, the empty-row filter and the row buffer.
      `None` means cancellation was observed. */
  method BufferRows(data: seq<Row>, cancelAt: Option<nat>) returns (r: Option<seq<Row>>)
    ensures cancelAt.Some? && 1 <= cancelAt.value <= |data| + 1 ==> r == None
    ensures !(cancelAt.Some? && 1 <= cancelAt.value <= |data| + 1) ==> r == Some(NonEmptyRows(data))
  {
    var out: seq<Row> := [];
    var buffer: seq<Row> := [];
    assert data[..0] == [];
    var i := 0;
    while i < |data|
      invariant 0 <= i <= |data|
      invariant !(cancelAt.Some? && 1 <= cancelAt.value <= i)
      invariant out + buffer == NonEmptyRows(data[..i])
      invariant |buffer| < BufferSize
    {
      if CancelledAt(cancelAt, i + 1) {
        return None;
      }
      var row := data[i];
      BufferStep(out, buffer, data, i);
      if !IsEmptyRow(row) {
        buffer := buffer + [row];
      }
      if |buffer| >= BufferSize {
        out := out + buffer;
        buffer := [];
      }
      i := i + 1;
    }
    if CancelledAt(cancelAt, |data| + 1) {
      return None;
    }
    assert data[..|data|] == data;
    return Some(out + buffer);
  }

  /** The decoding pass over one sheet's rows. The first turn of the reader
      loop reads the header; decoding a row is pure, so the data rows are
      expanded before `BufferRows` runs the rest of the loop in order. */
  method ReadSheet(sheetRows: seq<seq<Cell>>, dec: Decoder, cancelAt: Option<nat>) returns (r: Result<Table, ReadError>)
    ensures r == ReadSheetSpec(sheetRows, dec, cancelAt)
    ensures r.Success? ==> |sheetRows| > 0 && |r.value.columns| == |sheetRows[0]| && Rectangular(r.value)
    ensures r.Success? ==> Distinct(r.value.columns)
    ensures r.Success? ==> |r.value.rows| > 0 && forall i :: 0 <= i < |r.value.rows| ==> !IsEmptyRow(r.value.rows[i])
  {
    ReadSheetShape(sheetRows, dec, cancelAt);
    if CancelledAt(cancelAt, 0) {
      return Failure(Cancelled);
    }
    if |sheetRows| == 0 {
      return Failure(NoDataRows);
    }
    var header := ReadHeader(sheetRows[0], dec);
    if header.Failure? {
      return Failure(header.error);
    }
    var columns := header.value;
    var data := DataRows(sheetRows[1..], |columns|, dec);
    var kept := BufferRows(data, cancelAt);
    if kept.None? {
      return Failure(Cancelled);
    }
    if |kept.value| == 0 {
      return Failure(NoDataRows);
    }
    return Success(Table(columns, kept.value));
  }
}
