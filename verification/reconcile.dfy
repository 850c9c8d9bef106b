/** Append-mode schema reconciliation: every data column must exist in the live
    table; a NOT NULL column that receives DBNull cells is made nullable; a
    VARCHAR column too narrow for the data is widened through the text tiers.
    The statements are issued as they are decided, so the ones issued before a
    failure have taken effect. */
module Reconcile {
  import opened Wrappers
  import opened Text
  import opened Tables
  import opened Inference

  /** One row of `SHOW COLUMNS`: the `Field`, `Type` and `Null` columns. */
  datatype LiveColumn = LiveColumn(field: string, sqlType: string, nullText: string)

  /** The schema dictionaries, which compare names ignoring case and keep the
      last row assigned to a name. */
  function FindColumn(live: seq<LiveColumn>, name: string): (r: Option<LiveColumn>)
    ensures r.Some? ==> r.value in live && EqualsIgnoreCase(r.value.field, name)
    ensures r.None? <==> forall i :: 0 <= i < |live| ==> !EqualsIgnoreCase(live[i].field, name)
  {
    if |live| == 0 then None
    else if EqualsIgnoreCase(live[|live| - 1].field, name) then Some(live[|live| - 1])
    else
      var r := FindColumn(live[..|live| - 1], name);
      assert forall i :: 0 <= i < |live| - 1 ==> live[i] == live[..|live| - 1][i];
      r
  }

  /** A schema change, as an ALTER TABLE ... MODIFY COLUMN statement. */
  datatype Alter =
    | MakeNullable(column: string, baseType: string)
    | Widen(column: string, to: SqlType, notNull: bool)

  datatype SchemaError =
    | MissingColumn(column: string)     // the data column is not in the table
    | UnreadableLength(column: string)  // the VARCHAR length does not parse

  /** The statements issued, and the failure that stopped the check, if any. */
  datatype Outcome = Outcome(alters: seq<Alter>, error: Option<SchemaError>)

  /** The start of every change to `column`. */
  function AlterPrefix(tableName: string, column: string): string {
    "ALTER TABLE " + tableName + " MODIFY COLUMN `" + column + "` "
  }

  /** The SQL text of a change; names are backtick-quoted and not escaped. A
      relaxation restates the type it was given followed by NULL; a widening
      names the new type, then NOT NULL when `notNull` is set and NULL
      otherwise. */
  function AlterSql(tableName: string, a: Alter): (sql: string)
    ensures StartsWith(sql, AlterPrefix(tableName, a.column))
    ensures a.MakeNullable? ==> EndsWith(sql, a.baseType + " NULL")
    ensures a.Widen? && a.notNull ==> EndsWith(sql, TypeSql(a.to) + " NOT NULL")
    ensures a.Widen? && !a.notNull ==> EndsWith(sql, TypeSql(a.to) + " NULL")
  {
    var prefix := AlterPrefix(tableName, a.column);
    var rest := match a
      case MakeNullable(_, base) => base + " NULL"
      case Widen(_, to, notNull) => TypeSql(to) + (if notNull then " NOT NULL" else " NULL");
    assert (prefix + rest)[..|prefix|] == prefix;
    assert (prefix + rest)[|prefix + rest| - |rest|..] == rest;
    prefix + rest
  }

  predicate IsParen(c: char) {
    c == '(' || c == ')'
  }

  /** The first parenthesis at or after `i`, or `|s|`. */
  function ParenFrom(s: string, i: nat): (p: nat)
    requires i <= |s|
    ensures i <= p <= |s|
    ensures forall k :: i <= k < p ==> !IsParen(s[k])
    ensures p < |s| ==> IsParen(s[p])
    decreases |s| - i
  {
    if i == |s| || IsParen(s[i]) then i else ParenFrom(s, i + 1)
  }

  /** `s.Split('(', ')')[1]`: the text between the first parenthesis and the
      next one; `None` when there is no parenthesis, where the indexing fails. */
  function SecondSegment(s: string): (r: Option<string>)
    ensures r.Some? ==> forall k :: 0 <= k < |r.value| ==> !IsParen(r.value[k])
  {
    var p := ParenFrom(s, 0);
    if p == |s| then None
    else
      var q := ParenFrom(s, p + 1);
      Some(s[p + 1..q])
  }

  /** The declared length of an upper-cased VARCHAR type, as `int.Parse` reads
      it; `None` when reading it throws. */
  function VarCharLength(existingType: string): Option<int> {
    var segment :- SecondSegment(existingType);
    ParseInt32(segment)
  }

  /** The type text a VARCHAR definition is written with reads back as its
      length. */
  lemma {:induction false} VarCharLengthRoundTrip(n: nat)
    requires n <= Int32Max
    ensures VarCharLength(TypeSql(VarChar(n))) == Some(n)
    ensures StartsWith(TypeSql(VarChar(n)), "VARCHAR")
  {
    RenderedSegment(n);
    ParseRenderedNat(n);
  }

  /** The parenthesised part of a rendered VARCHAR type is its digits. */
  lemma {:induction false} RenderedSegment(n: nat)
    ensures SecondSegment(TypeSql(VarChar(n))) == Some(NatToString(n))
    ensures StartsWith(TypeSql(VarChar(n)), "VARCHAR")
  {
    var digits := NatToString(n);
    var s := TypeSql(VarChar(n));
    assert s == "VARCHAR(" + digits + ")";
    assert s[..7] == "VARCHAR";
    assert ParenFrom(s, 0) == 7 by {
      assert forall k :: 0 <= k < 7 ==> !IsParen(s[k]);
      ParenSkips(s, 0, 7);
    }
    assert ParenFrom(s, 8) == 8 + |digits| by {
      assert forall k :: 8 <= k < 8 + |digits| ==> s[k] == digits[k - 8];
      ParenSkips(s, 8, 8 + |digits|);
    }
    assert s[8..8 + |digits|] == digits;
  }

  /** `ParenFrom` passes over a stretch without parentheses. */
  lemma {:induction false} ParenSkips(s: string, i: nat, j: nat)
    requires i <= j < |s| && IsParen(s[j])
    requires forall k :: i <= k < j ==> !IsParen(s[k])
    ensures ParenFrom(s, i) == j
    decreases j - i
  {
    if i < j {
      ParenSkips(s, i + 1, j);
    }
  }

  /** Some cell of the column is DBNull; an empty string is not. */
  predicate HasDbNull(col: seq<Option<string>>) {
    exists i :: 0 <= i < |col| && col[i].None?
  }

  /** What checking one data column issues. `nullable` is read once, before any
      change, and the widening statement uses it even when the column was just
      made nullable. */
  function CheckColumn(live: seq<LiveColumn>, name: string, col: seq<Option<string>>): Outcome {
    match FindColumn(live, name)
    case None => Outcome([], Some(MissingColumn(name)))
    case Some(lc) => CheckFound(lc, name, col)
  }

  /** The relaxation for a column that receives DBNull cells but does not allow
      NULL, restating its upper-cased type. */
  function Relax(name: string, existingType: string, nullable: bool, col: seq<Option<string>>): seq<Alter> {
    if HasDbNull(col) && !nullable then [MakeNullable(name, existingType)] else []
  }

  /** Checking a data column the table has. */
  function CheckFound(lc: LiveColumn, name: string, col: seq<Option<string>>): Outcome {
    var existingType := Upper(lc.sqlType);
    var nullable := EqualsIgnoreCase(lc.nullText, "YES");
    var relax := Relax(name, existingType, nullable, col);
    if !StartsWith(existingType, "VARCHAR") then Outcome(relax, None)
    else
      match VarCharLength(existingType)
      case None => Outcome(relax, Some(UnreadableLength(name)))
      case Some(length) =>
        var m := MaxLength(Observed(col));
        if m > length then Outcome(relax + [Widen(name, TextTier(m), !nullable)], None)
        else Outcome(relax, None)
  }

  /** Reference definition of the check over the first `j` data columns: the
      statements of each column in turn, up to the first failure. */
  function CheckPrefix(live: seq<LiveColumn>, t: Table, j: nat): Outcome
    requires j <= |t.columns|
  {
    if j == 0 then Outcome([], None)
    else
      var before := CheckPrefix(live, t, j - 1);
      if before.error.Some? then before
      else
        var o := CheckColumn(live, t.columns[j - 1], Column(t.rows, j - 1));
        Outcome(before.alters + o.alters, o.error)
  }

  function CheckSchema(live: seq<LiveColumn>, t: Table): Outcome {
    CheckPrefix(live, t, |t.columns|)
  }

  /** The column loop of `ValidateTableSchema`. */
  method ValidateTableSchema(live: seq<LiveColumn>, t: Table) returns (o: Outcome)
    ensures o == CheckSchema(live, t)
  {
    var alters: seq<Alter> := [];
    var j := 0;
    while j < |t.columns|
      invariant 0 <= j <= |t.columns|
      invariant CheckPrefix(live, t, j) == Outcome(alters, None)
    {
      var step := CheckColumn(live, t.columns[j], Column(t.rows, j));
      CheckStep(live, t, j, alters, step);
      if step.error.Some? {
        return Outcome(alters + step.alters, step.error);
      }
      alters := alters + step.alters;
      j := j + 1;
    }
    return Outcome(alters, None);
  }

  /** Checking one more column after a clean prefix: either the prefix grows
      clean, or the check ends with this column's failure. */
  lemma {:induction false} CheckStep(live: seq<LiveColumn>, t: Table, j: nat, alters: seq<Alter>, step: Outcome)
    requires j < |t.columns| && CheckPrefix(live, t, j) == Outcome(alters, None)
    requires step == CheckColumn(live, t.columns[j], Column(t.rows, j))
    ensures step.error.None? ==> CheckPrefix(live, t, j + 1) == Outcome(alters + step.alters, None)
    ensures step.error.Some? ==> CheckSchema(live, t) == Outcome(alters + step.alters, step.error)
  {
    if step.error.Some? {
      ErrorPersists(live, t, j + 1);
    }
  }

  /** Once a column fails, later columns issue nothing and the failure stands. */
  lemma {:induction false} ErrorPersists(live: seq<LiveColumn>, t: Table, j: nat)
    requires j <= |t.columns| && CheckPrefix(live, t, j).error.Some?
    ensures CheckSchema(live, t) == CheckPrefix(live, t, j)
    decreases |t.columns| - j
  {
    if j < |t.columns| {
      ErrorPersists(live, t, j + 1);
    }
  }

  /** A data column absent from the table stops the check: the statements are
      those of the columns before it, and no later column is altered. */
  lemma {:induction false} MissingColumnStops(live: seq<LiveColumn>, t: Table, j: nat)
    requires j < |t.columns| && CheckPrefix(live, t, j).error.None?
    requires forall i :: 0 <= i < |live| ==> !EqualsIgnoreCase(live[i].field, t.columns[j])
    ensures CheckSchema(live, t) == Outcome(CheckPrefix(live, t, j).alters, Some(MissingColumn(t.columns[j])))
  {
    assert CheckPrefix(live, t, j + 1).alters == CheckPrefix(live, t, j).alters + [];
    ErrorPersists(live, t, j + 1);
  }

  /** A widening only ever enlarges a VARCHAR: the live type is a VARCHAR whose
      length is below the longest value's UTF-16 length, and the new type's
      threshold covers that length. */
  lemma {:induction false} WidenNeverNarrows(live: seq<LiveColumn>, name: string, col: seq<Option<string>>, a: Alter)
    ensures a in CheckColumn(live, name, col).alters && a.Widen? ==>
              && FindColumn(live, name).Some?
              && var existingType := Upper(FindColumn(live, name).value.sqlType);
                 && StartsWith(existingType, "VARCHAR")
                 && VarCharLength(existingType).Some?
                 && VarCharLength(existingType).value < MaxLength(Observed(col))
                 && IsTextType(a.to)
                 && (MaxLength(Observed(col)) <= LongTextMax ==> MaxLength(Observed(col)) <= Capacity(a.to))
  {
    if a in CheckColumn(live, name, col).alters && a.Widen? {
      var m := MaxLength(Observed(col));
      var lc := FindColumn(live, name).value;
      var existingType := Upper(lc.sqlType);
      var relax := if HasDbNull(col) && !EqualsIgnoreCase(lc.nullText, "YES") then [MakeNullable(name, existingType)] else [];
      assert a !in relax;
      assert a == Widen(name, TextTier(m), !EqualsIgnoreCase(lc.nullText, "YES"));
    }
  }

  /** Lengths are UTF-16 code units: a nullable VARCHAR(2) column receiving a
      cell of two characters taking four code units is widened to VARCHAR(4).
      (`VarCharLengthRoundTrip` shows that the type text "VARCHAR(2)" meets the
      requirement on the live type, and `AstralCountsTwice` gives such a cell.) */
  lemma {:induction false} AstralTextWidened(lc: LiveColumn, name: string, v: string)
    requires StartsWith(Upper(lc.sqlType), "VARCHAR") && VarCharLength(Upper(lc.sqlType)) == Some(2)
    requires EqualsIgnoreCase(lc.nullText, "YES")
    requires |v| == 2 && Utf16Length(v) == 4
    ensures CheckFound(lc, name, [Some(v)]) == Outcome([Widen(name, VarChar(4), false)], None)
  {
    var col := [Some(v)];
    SingleCellObserved(v);
    assert !HasDbNull(col);
    var relax := Relax(name, Upper(lc.sqlType), true, col);
    var w := Widen(name, TextTier(MaxLength(Observed(col))), false);
    assert CheckFound(lc, name, col) == Outcome(relax + [w], None);
    assert relax + [w] == [Widen(name, VarChar(4), false)];
  }

  /** Only VARCHAR columns are widened. */
  lemma {:induction false} OnlyVarCharWidened(live: seq<LiveColumn>, name: string, col: seq<Option<string>>)
    requires FindColumn(live, name).Some?
    requires !StartsWith(Upper(FindColumn(live, name).value.sqlType), "VARCHAR")
    ensures forall a :: a in CheckColumn(live, name, col).alters ==> !a.Widen?
  {
  }

  /** The NOT NULL relaxation is issued exactly when the column is not nullable
      and some cell is DBNull; empty strings never trigger it. */
  lemma {:induction false} RelaxIffDbNull(live: seq<LiveColumn>, name: string, col: seq<Option<string>>)
    requires FindColumn(live, name).Some?
    ensures var lc := FindColumn(live, name).value;
            MakeNullable(name, Upper(lc.sqlType)) in CheckColumn(live, name, col).alters
            <==> HasDbNull(col) && !EqualsIgnoreCase(lc.nullText, "YES")
  {
  }

  /** A NOT NULL VARCHAR column that receives a DBNull cell and a value longer
      than its declared length is made nullable and then widened with NOT NULL
      again. (`VarCharLengthRoundTrip` shows which type texts have length `n`.) */
  lemma {:induction false} NullabilityReapplied(live: seq<LiveColumn>, name: string, col: seq<Option<string>>, n: int)
    ensures (&& FindColumn(live, name).Some?
             && var lc := FindColumn(live, name).value;
                && StartsWith(Upper(lc.sqlType), "VARCHAR") && VarCharLength(Upper(lc.sqlType)) == Some(n)
                && !EqualsIgnoreCase(lc.nullText, "YES")
                && HasDbNull(col) && MaxLength(Observed(col)) > n)
            ==>
            var existingType := Upper(FindColumn(live, name).value.sqlType);
            CheckColumn(live, name, col) ==
              Outcome([MakeNullable(name, existingType), Widen(name, TextTier(MaxLength(Observed(col))), true)], None)
  {
    var found := FindColumn(live, name);
    if found.Some? {
      var lc := found.value;
      var existingType := Upper(lc.sqlType);
      if && StartsWith(existingType, "VARCHAR") && VarCharLength(existingType) == Some(n)
         && !EqualsIgnoreCase(lc.nullText, "YES") && HasDbNull(col) && MaxLength(Observed(col)) > n {
        var w := Widen(name, TextTier(MaxLength(Observed(col))), true);
        assert Relax(name, existingType, false, col) == [MakeNullable(name, existingType)];
        assert [MakeNullable(name, existingType)] + [w] == [MakeNullable(name, existingType), w];
        assert CheckColumn(live, name, col) == CheckFound(lc, name, col);
      }
    }
  }
}
