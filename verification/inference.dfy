/** Column type inference for a table the importer creates: each column is
    classified by scanning its values, and the CREATE TABLE statement lists one
    definition per column, in column order. */
module Inference {
  import opened Wrappers
  import opened Text
  import opened Tables

  /** The length thresholds of the text types the classifier chooses from. The
      source compares UTF-16 lengths with these numbers; for TEXT, MEDIUMTEXT
      and LONGTEXT MySQL reads them as byte limits. */
  const VarCharMax: nat := 255
  const TextMax: nat := 65535
  const MediumTextMax: nat := 16777215
  const LongTextMax: nat := 4294967295

  /** The longest value a DATETIME column is inferred for, and the longest an
      INT column is inferred for. */
  const DateTimeMaxLength: nat := 30
  const IntMaxLength: nat := 9

  datatype SqlType =
    | DateTime
    | Decimal          // DECIMAL(18,2)
    | Int
    | BigInt
    | VarChar(width: nat)
    | Text
    | MediumText
    | LongText

  predicate IsTextType(t: SqlType) {
    t.VarChar? || t.Text? || t.MediumText? || t.LongText?
  }

  /** The threshold the source compares a UTF-16 length against for a text
      type: the VARCHAR width, or the tier's limit. */
  function Capacity(t: SqlType): nat
    requires IsTextType(t)
  {
    match t
    case VarChar(w) => w
    case Text => TextMax
    case MediumText => MediumTextMax
    case LongText => LongTextMax
  }

  /** The text type chosen for values of UTF-16 length at most `maxLength`:
      the first tier, in the order VARCHAR(n) / TEXT / MEDIUMTEXT / LONGTEXT,
      whose threshold covers that length, with a VARCHAR exactly as wide. */
  function TextTier(maxLength: nat): (t: SqlType)
    ensures IsTextType(t)
    ensures maxLength <= LongTextMax ==> maxLength <= Capacity(t)
    ensures t.VarChar? ==> t.width == maxLength
    ensures maxLength <= VarCharMax <==> t.VarChar?
    ensures t.MediumText? || t.LongText? ==> maxLength > TextMax
    ensures t.LongText? ==> maxLength > MediumTextMax
  {
    if maxLength <= VarCharMax then VarChar(maxLength)
    else if maxLength <= TextMax then Text
    else if maxLength <= MediumTextMax then MediumText
    else LongText
  }

  /** The SQL spelling of a type. */
  function TypeSql(t: SqlType): string {
    match t
    case DateTime => "DATETIME"
    case Decimal => "DECIMAL(18,2)"
    case Int => "INT"
    case BigInt => "BIGINT"
    case VarChar(w) => "VARCHAR(" + NatToString(w) + ")"
    case Text => "TEXT"
    case MediumText => "MEDIUMTEXT"
    case LongText => "LONGTEXT"
  }

  /** One column definition; `nullSuffix` says whether " NULL" follows the type. */
  datatype ColumnDef = ColumnDef(name: string, sqlType: SqlType, nullSuffix: bool)

  /** The definition as it appears in CREATE TABLE: the name in backticks, which
      is not escaped, then the type. */
  function DefinitionSql(d: ColumnDef): string {
    "`" + d.name + "` " + TypeSql(d.sqlType) + (if d.nullSuffix then " NULL" else "")
  }

  /** The values the classifier looks at, in row order: DBNull cells and empty
      strings are skipped; white-space strings are not. */
  function Observed(col: seq<Option<string>>): (vs: seq<string>)
    ensures |vs| <= |col|
    ensures forall k :: 0 <= k < |vs| ==> |vs[k]| > 0
  {
    if |col| == 0 then []
    else
      var before := Observed(col[..|col| - 1]);
      var last := col[|col| - 1];
      if last.Some? && |last.value| > 0 then before + [last.value] else before
  }

  /** A non-empty string cell is observed. */
  predicate Counts(v: Option<string>) {
    v.Some? && |v.value| > 0
  }

  /** The observed values are exactly the non-empty strings of the column. */
  lemma {:induction false} ObservedValues(col: seq<Option<string>>)
    ensures forall i :: 0 <= i < |col| && Counts(col[i]) ==> col[i].value in Observed(col)
    ensures forall v :: v in Observed(col) ==> Some(v) in col
  {
    if |col| > 0 {
      var init := col[..|col| - 1];
      ObservedValues(init);
      forall i | 0 <= i < |col| && Counts(col[i])
        ensures col[i].value in Observed(col)
      {
        if i < |col| - 1 {
          assert col[i] == init[i];
        }
      }
      forall v | v in Observed(col)
        ensures Some(v) in col
      {
        if v in Observed(init) {
          assert Some(v) in init;
        }
      }
    }
  }

  /** The longest observed length, starting from 1. Lengths are .NET
      `Length`s, in UTF-16 code units. */
  function MaxLength(vs: seq<string>): (m: nat)
    ensures m >= 1
    ensures forall k :: 0 <= k < |vs| ==> Utf16Length(vs[k]) <= m
    ensures m == 1 || exists k :: 0 <= k < |vs| && Utf16Length(vs[k]) == m
  {
    if |vs| == 0 then 1
    else
      var before := MaxLength(vs[..|vs| - 1]);
      var last := Utf16Length(vs[|vs| - 1]);
      assert forall k :: 0 <= k < |vs| - 1 ==> vs[k] == vs[..|vs| - 1][k];
      if last > before then last else before
  }

  predicate AllDates(vs: seq<string>, c: Culture) {
    forall k :: 0 <= k < |vs| ==> c.isDateTime(vs[k])
  }

  predicate AllNumeric(vs: seq<string>, c: Culture) {
    forall k :: 0 <= k < |vs| ==> c.isDecimal(vs[k])
  }

  predicate AnyDot(vs: seq<string>) {
    exists k :: 0 <= k < |vs| && '.' in vs[k]
  }

  /** Reference definition of the classifier, in the order it decides: a
      column with nothing observed stays VARCHAR(255) without a NULL suffix;
      then dates of at most 30 code units; then numbers, DECIMAL when some value
      has a decimal point and otherwise INT or BIGINT by length; then text. */
  function Classify(name: string, col: seq<Option<string>>, c: Culture): ColumnDef {
    var vs := Observed(col);
    var m := MaxLength(vs);
    if |vs| == 0 then ColumnDef(name, VarChar(VarCharMax), false)
    else if AllDates(vs, c) && m <= DateTimeMaxLength then ColumnDef(name, DateTime, true)
    else if AllNumeric(vs, c) then
      ColumnDef(name, if AnyDot(vs) then Decimal else if m <= IntMaxLength then Int else BigInt, true)
    else ColumnDef(name, TextTier(m), true)
  }

  /** How each summary changes when one more value is observed. */
  lemma {:induction false} ObserveOne(vs: seq<string>, s: string, c: Culture)
    ensures AllNumeric(vs + [s], c) <==> AllNumeric(vs, c) && c.isDecimal(s)
    ensures AllDates(vs + [s], c) <==> AllDates(vs, c) && c.isDateTime(s)
    ensures AnyDot(vs + [s]) <==> AnyDot(vs) || '.' in s
    ensures MaxLength(vs + [s]) == if Utf16Length(s) > MaxLength(vs) then Utf16Length(s) else MaxLength(vs)
  {
    var w := vs + [s];
    assert w[..|vs|] == vs;
    assert w[|vs|] == s;
    assert forall k :: 0 <= k < |vs| ==> w[k] == vs[k];
    if AnyDot(w) {
      var k :| 0 <= k < |w| && '.' in w[k];
      if k < |vs| {
        assert '.' in vs[k];
      }
    }
    if AnyDot(vs) {
      var k :| 0 <= k < |vs| && '.' in vs[k];
      assert '.' in w[k];
    }
  }

  /** The observed values of one more row. */
  lemma {:induction false} ObservedStep(col: seq<Option<string>>, i: nat)
    requires i < |col|
    ensures Counts(col[i]) ==> Observed(col[..i + 1]) == Observed(col[..i]) + [col[i].value]
    ensures !Counts(col[i]) ==> Observed(col[..i + 1]) == Observed(col[..i])
  {
    assert col[..i + 1][..i] == col[..i];
  }

  /** The flags `CreateTable` keeps while scanning one column. */
  datatype Flags = Flags(maxLength: nat, hasNumeric: bool, hasDot: bool, hasDate: bool, allEmpty: bool)

  /** The flags before the first row. */
  const Initial: Flags := Flags(1, true, false, true, true)

  /** The flags describe the values observed so far. `hasDot` only matters while
      the column is still numeric. */
  predicate Summarizes(f: Flags, vs: seq<string>, c: Culture) {
    && f.allEmpty == (|vs| == 0)
    && f.maxLength == MaxLength(vs)
    && f.hasNumeric == AllNumeric(vs, c)
    && (f.hasNumeric ==> f.hasDot == AnyDot(vs))
    && f.hasDate == AllDates(vs, c)
  }

  /** Observing one non-empty value: `hasNumeric` stops being updated once it
      is false, and `hasDot` is set only while the column is still numeric. */
  function Observe(f: Flags, s: string, c: Culture): Flags {
    var numeric := f.hasNumeric && c.isDecimal(s);
    Flags(
      if Utf16Length(s) > f.maxLength then Utf16Length(s) else f.maxLength,
      numeric,
      f.hasDot || (numeric && '.' in s),
      f.hasDate && c.isDateTime(s),
      false)
  }

  lemma {:induction false} ObserveKeepsSummary(f: Flags, vs: seq<string>, s: string, c: Culture)
    requires Summarizes(f, vs, c)
    ensures Summarizes(Observe(f, s, c), vs + [s], c)
  {
    ObserveOne(vs, s, c);
  }

  /** One row of the scan: DBNull and empty cells leave the flags alone. */
  function ScanOne(f: Flags, v: Option<string>, c: Culture): Flags {
    if Counts(v) then Observe(f, v.value, c) else f
  }

  lemma {:induction false} ScanStep(col: seq<Option<string>>, i: nat, f: Flags, c: Culture)
    requires i < |col| && Summarizes(f, Observed(col[..i]), c)
    ensures Summarizes(ScanOne(f, col[i], c), Observed(col[..i + 1]), c)
  {
    ObservedStep(col, i);
    if Counts(col[i]) {
      ObserveKeepsSummary(f, Observed(col[..i]), col[i].value, c);
    }
  }

  /** The type decision after the scan, as `CreateTable` takes it. */
  function Decide(name: string, f: Flags): ColumnDef {
    if f.allEmpty then ColumnDef(name, VarChar(VarCharMax), false)
    else if f.hasDate && f.maxLength <= DateTimeMaxLength then ColumnDef(name, DateTime, true)
    else if f.hasNumeric then
      if f.hasDot then ColumnDef(name, Decimal, true)
      else ColumnDef(name, if f.maxLength <= IntMaxLength then Int else BigInt, true)
    else ColumnDef(name, TextTier(f.maxLength), true)
  }

  lemma {:induction false} DecideAgrees(name: string, f: Flags, col: seq<Option<string>>, c: Culture)
    requires Summarizes(f, Observed(col[..|col|]), c)
    ensures Decide(name, f) == Classify(name, col, c)
  {
    assert col[..|col|] == col;
  }

  /** The per-column scan of `CreateTable`. */
  method InferColumn(name: string, col: seq<Option<string>>, c: Culture) returns (d: ColumnDef)
    ensures d == Classify(name, col, c)
  {
    var f := Initial;
    var i := 0;
    while i < |col|
      invariant 0 <= i <= |col|
      invariant Summarizes(f, Observed(col[..i]), c)
    {
      ScanStep(col, i, f, c);
      f := ScanOne(f, col[i], c);
      i := i + 1;
    }
    DecideAgrees(name, f, col, c);
    d := Decide(name, f);
  }

  /** The definitions for every column of the table, in column order. */
  function Definitions(t: Table, c: Culture): (defs: seq<ColumnDef>)
    ensures |defs| == |t.columns|
  {
    seq(|t.columns|, j requires 0 <= j < |t.columns| => Classify(t.columns[j], Column(t.rows, j), c))
  }

  /** The column loop of `CreateTable`. */
  method ColumnDefinitions(t: Table, c: Culture) returns (defs: seq<ColumnDef>)
    ensures defs == Definitions(t, c)
  {
    defs := [];
    var j := 0;
    while j < |t.columns|
      invariant 0 <= j <= |t.columns|
      invariant defs == Definitions(t, c)[..j]
    {
      var d := InferColumn(t.columns[j], Column(t.rows, j), c);
      defs := defs + [d];
      j := j + 1;
    }
  }

  /** `string.Join(", ", parts)`. */
  function JoinComma(parts: seq<string>): string
  {
    if |parts| == 0 then ""
    else if |parts| == 1 then parts[0]
    else JoinComma(parts[..|parts| - 1]) + ", " + parts[|parts| - 1]
  }

  /** One more part goes after ", ". */
  lemma {:induction false} JoinCommaSnoc(parts: seq<string>, p: string)
    requires |parts| > 0
    ensures JoinComma(parts + [p]) == JoinComma(parts) + ", " + p
  {
    assert (parts + [p])[..|parts|] == parts;
  }

  /** Joining two non-empty lists is joining each and putting ", " between. */
  lemma {:induction false} JoinCommaAppend(a: seq<string>, b: seq<string>)
    requires |a| > 0 && |b| > 0
    ensures JoinComma(a + b) == JoinComma(a) + ", " + JoinComma(b)
    decreases |b|
  {
    var b' := b[..|b| - 1];
    var last := b[|b| - 1];
    assert b == b' + [last];
    if |b| == 1 {
      JoinCommaSnoc(a, last);
    } else {
      JoinCommaAppend(a, b');
      JoinCommaAppendStep(a, b', last);
    }
  }

  /** The inductive step of `JoinCommaAppend`: one more part on the right. */
  lemma {:induction false} JoinCommaAppendStep(a: seq<string>, b: seq<string>, last: string)
    requires |a| > 0 && |b| > 0
    requires JoinComma(a + b) == JoinComma(a) + ", " + JoinComma(b)
    ensures JoinComma(a + (b + [last])) == JoinComma(a) + ", " + JoinComma(b + [last])
  {
    assert a + (b + [last]) == (a + b) + [last];
    JoinCommaSnoc(a + b, last);
    JoinCommaSnoc(b, last);
    var x := JoinComma(a);
    var y := JoinComma(b);
    assert (x + ", " + y) + ", " + last == x + ", " + (y + ", " + last);
  }

  /** A joined list starts with its first part and ends with its last. */
  lemma {:induction false} JoinCommaEnds(parts: seq<string>)
    requires |parts| > 0
    ensures StartsWith(JoinComma(parts), parts[0]) && EndsWith(JoinComma(parts), parts[|parts| - 1])
  {
    if |parts| > 1 {
      var init := parts[..|parts| - 1];
      var last := parts[|parts| - 1];
      JoinCommaEnds(init);
      var r := JoinComma(init) + ", " + last;
      assert r[..|parts[0]|] == JoinComma(init)[..|parts[0]|];
      assert r[|r| - |last|..] == last;
    }
  }

  /** The definition texts of `defs`, in order. */
  function DefinitionTexts(defs: seq<ColumnDef>): (texts: seq<string>)
    ensures |texts| == |defs|
    ensures forall j :: 0 <= j < |defs| ==> texts[j] == DefinitionSql(defs[j])
  {
    seq(|defs|, j requires 0 <= j < |defs| => DefinitionSql(defs[j]))
  }

  const CreateTableSuffix: string := ") CHARACTER SET utf8mb4 COLLATE utf8mb4_unicode_ci"

  function CreateTablePrefix(tableName: string): string {
    "CREATE TABLE " + tableName + " ("
  }

  /** The CREATE TABLE statement; the table name is inserted as it is. Between
      the opening and the closing text stand the column definitions, in column
      order, separated by ", ". */
  function CreateTableSql(tableName: string, defs: seq<ColumnDef>): (sql: string)
    ensures StartsWith(sql, CreateTablePrefix(tableName))
    ensures EndsWith(sql, CreateTableSuffix)
    ensures |CreateTablePrefix(tableName)| + |CreateTableSuffix| <= |sql|
    ensures sql[|CreateTablePrefix(tableName)|..|sql| - |CreateTableSuffix|] == JoinComma(DefinitionTexts(defs))
  {
    var prefix := CreateTablePrefix(tableName);
    var body := JoinComma(DefinitionTexts(defs));
    var sql := prefix + body + CreateTableSuffix;
    assert sql[..|prefix|] == prefix;
    assert sql[|sql| - |CreateTableSuffix|..] == CreateTableSuffix;
    assert sql[|prefix|..|sql| - |CreateTableSuffix|] == body;
    sql
  }

  // Meaning of each classification in terms of the column's cells.

  /** No NULL suffix exactly when every cell is DBNull or empty. */
  lemma {:induction false} NoSuffixIffNothingObserved(name: string, col: seq<Option<string>>, c: Culture)
    ensures !Classify(name, col, c).nullSuffix <==> forall i :: 0 <= i < |col| ==> !Counts(col[i])
    ensures !Classify(name, col, c).nullSuffix ==> Classify(name, col, c).sqlType == VarChar(VarCharMax)
  {
    ObservedValues(col);
    var vs := Observed(col);
    if |vs| > 0 {
      assert vs[0] in vs;
    }
  }

  /** Every observed value satisfies `P` exactly when every non-empty cell does. */
  lemma {:induction false} CellsOfValues(col: seq<Option<string>>, i: nat)
    requires i < |col| && Counts(col[i])
    ensures exists k :: 0 <= k < |Observed(col)| && Observed(col)[k] == col[i].value
  {
    ObservedValues(col);
    assert col[i].value in Observed(col);
  }

  /** A DATETIME column: something was observed, and every non-empty cell parses
      as a date and is at most 30 UTF-16 code units long. */
  lemma {:induction false} DateTimeMeans(name: string, col: seq<Option<string>>, c: Culture)
    requires Classify(name, col, c).sqlType == DateTime
    ensures exists i :: 0 <= i < |col| && Counts(col[i])
    ensures forall i :: 0 <= i < |col| && Counts(col[i]) ==>
              c.isDateTime(col[i].value) && Utf16Length(col[i].value) <= DateTimeMaxLength
  {
    NoSuffixIffNothingObserved(name, col, c);
    forall i | 0 <= i < |col| && Counts(col[i])
      ensures c.isDateTime(col[i].value) && Utf16Length(col[i].value) <= DateTimeMaxLength
    {
      CellsOfValues(col, i);
    }
  }

  /** A numeric column: every non-empty cell parses as a decimal number, and the
      values are not all dates of at most 30 code units. */
  lemma {:induction false} NumericMeans(name: string, col: seq<Option<string>>, c: Culture)
    requires Classify(name, col, c).sqlType in {Decimal, Int, BigInt}
    ensures forall i :: 0 <= i < |col| && Counts(col[i]) ==> c.isDecimal(col[i].value)
    ensures exists i :: 0 <= i < |col| && Counts(col[i]) &&
              (!c.isDateTime(col[i].value) || Utf16Length(col[i].value) > DateTimeMaxLength)
  {
    NoSuffixIffNothingObserved(name, col, c);
    ObservedValues(col);
    var vs := Observed(col);
    forall i | 0 <= i < |col| && Counts(col[i])
      ensures c.isDecimal(col[i].value)
    {
      CellsOfValues(col, i);
    }
    if AllDates(vs, c) {
      var k :| 0 <= k < |vs| && Utf16Length(vs[k]) == MaxLength(vs);
      assert vs[k] in vs;
      var i :| 0 <= i < |col| && col[i] == Some(vs[k]);
      assert Counts(col[i]);
    } else {
      var k :| 0 <= k < |vs| && !c.isDateTime(vs[k]);
      assert vs[k] in vs;
      var i :| 0 <= i < |col| && col[i] == Some(vs[k]);
      assert Counts(col[i]);
    }
  }

  /** A numeric column is DECIMAL exactly when some cell has a '.'. */
  lemma {:induction false} NumericKindMeans(name: string, col: seq<Option<string>>, c: Culture)
    requires Classify(name, col, c).sqlType in {Decimal, Int, BigInt}
    ensures Classify(name, col, c).sqlType == Decimal <==>
              exists i :: 0 <= i < |col| && Counts(col[i]) && '.' in col[i].value
  {
    ObservedValues(col);
    var vs := Observed(col);
    if Classify(name, col, c).sqlType == Decimal {
      var k :| 0 <= k < |vs| && '.' in vs[k];
      assert vs[k] in vs;
      var i :| 0 <= i < |col| && col[i] == Some(vs[k]);
      assert Counts(col[i]);
    } else {
      forall i | 0 <= i < |col| && Counts(col[i])
        ensures '.' !in col[i].value
      {
        CellsOfValues(col, i);
      }
    }
  }

  /** Without a decimal point, the longest value decides between INT and
      BIGINT. */
  lemma {:induction false} IntegerWidthMeans(name: string, col: seq<Option<string>>, c: Culture)
    requires Classify(name, col, c).sqlType in {Int, BigInt}
    ensures Classify(name, col, c).sqlType == Int ==>
              forall i :: 0 <= i < |col| && Counts(col[i]) ==> Utf16Length(col[i].value) <= IntMaxLength
    ensures Classify(name, col, c).sqlType == BigInt ==>
              exists i :: 0 <= i < |col| && Counts(col[i]) && Utf16Length(col[i].value) > IntMaxLength
  {
    ObservedValues(col);
    var vs := Observed(col);
    if Classify(name, col, c).sqlType == Int {
      forall i | 0 <= i < |col| && Counts(col[i])
        ensures Utf16Length(col[i].value) <= MaxLength(vs)
      {
        CellsOfValues(col, i);
      }
    } else {
      var k :| 0 <= k < |vs| && Utf16Length(vs[k]) == MaxLength(vs);
      assert vs[k] in vs;
      var i :| 0 <= i < |col| && col[i] == Some(vs[k]);
      assert Counts(col[i]);
    }
  }

  /** A text column: some non-empty cell is not a number, and every cell is
      within the chosen type's threshold, by UTF-16 length and therefore by
      number of characters too. */
  lemma {:induction false} TextMeans(name: string, col: seq<Option<string>>, c: Culture)
    requires Classify(name, col, c).nullSuffix && IsTextType(Classify(name, col, c).sqlType)
    ensures exists i :: 0 <= i < |col| && Counts(col[i]) && !c.isDecimal(col[i].value)
    ensures forall i :: 0 <= i < |col| && col[i].Some? && Utf16Length(col[i].value) <= LongTextMax ==>
              |col[i].value| <= Utf16Length(col[i].value) <= Capacity(Classify(name, col, c).sqlType)
  {
    NoSuffixIffNothingObserved(name, col, c);
    ObservedValues(col);
    var vs := Observed(col);
    var k :| 0 <= k < |vs| && !c.isDecimal(vs[k]);
    assert vs[k] in vs;
    var i0 :| 0 <= i0 < |col| && col[i0] == Some(vs[k]);
    assert Counts(col[i0]);
    forall i | 0 <= i < |col| && col[i].Some? && Utf16Length(col[i].value) <= LongTextMax
      ensures Utf16Length(col[i].value) <= Capacity(Classify(name, col, c).sqlType)
    {
      if Counts(col[i]) {
        CellsOfValues(col, i);
        if MaxLength(vs) > LongTextMax {
          var k2 :| 0 <= k2 < |vs| && Utf16Length(vs[k2]) == MaxLength(vs);
        }
      }
    }
  }

  /** Adding a value with a decimal point that is a number but not a date to an
      INT column makes it DECIMAL. */
  lemma {:induction false} DotMakesDecimal(name: string, col: seq<Option<string>>, v: string, c: Culture)
    requires Classify(name, col, c).sqlType == Int
    requires '.' in v && c.isDecimal(v) && !c.isDateTime(v)
    ensures Classify(name, col + [Some(v)], c).sqlType == Decimal
  {
    var col2 := col + [Some(v)];
    var vs := Observed(col);
    assert col2[..|col|] == col;
    ObservedStep(col2, |col|);
    assert col2[..|col| + 1] == col2;
    assert Observed(col2) == vs + [v];
    assert |vs| > 0 && AllNumeric(vs, c);
    ObserveOne(vs, v, c);
    assert AllNumeric(vs + [v], c) && !AllDates(vs + [v], c) && AnyDot(vs + [v]);
  }

  /** A column of one non-empty cell observes that value, with its UTF-16
      length. */
  lemma {:induction false} SingleCellObserved(v: string)
    requires |v| > 0
    ensures Observed([Some(v)]) == [v]
    ensures MaxLength([v]) == if Utf16Length(v) > 1 then Utf16Length(v) else 1
  {
    assert [Some(v)][..0] == [];
    assert [v][..0] == [];
  }

  /** Widths count UTF-16 code units, not characters: a text cell of two
      characters taking four code units (two emoji, as `AstralCountsTwice`
      shows) makes a VARCHAR(4) column. */
  lemma {:induction false} AstralTextWidth(name: string, c: Culture, v: string)
    requires |v| == 2 && Utf16Length(v) == 4
    requires !c.isDecimal(v) && !c.isDateTime(v)
    ensures Classify(name, [Some(v)], c).sqlType == VarChar(4)
  {
    SingleCellObserved(v);
    var vs := [v];
    assert !AllNumeric(vs, c) && !AllDates(vs, c);
  }

  /** Width is chosen by the longest value: a text column of 300-character
      values is TEXT, and one of 10-character values is VARCHAR(10). */
  lemma TierExamples()
    ensures TextTier(300) == Text && TextTier(10) == VarChar(10)
    ensures TypeSql(VarChar(10)) == "VARCHAR(10)"
  {
    assert NatToString(10) == "10";
  }
}
