/** The naming rules of `DataColumnCollection.Add(name)`, through which both
    readers create their columns: an empty name is replaced by a generated
    `ColumnK`, and a name some column already has, compared exactly, is
    rejected with `DuplicateNameException`. */
module ColumnNames {
  import opened Wrappers
  import opened Text
  import opened Tables

  /** The `k`-th generated column name. */
  function AutoName(k: nat): string {
    "Column" + NatToString(k)
  }

  /** Some column is named `s`, ignoring case: the lookup the collection makes
      before it hands out a generated name. */
  predicate InUse(names: seq<string>, s: string) {
    exists i :: 0 <= i < |names| && EqualsIgnoreCase(names[i], s)
  }

  /** Distinct indices give names that differ even ignoring case. */
  lemma {:induction false} AutoNameDistinct(j: nat, k: nat)
    requires EqualsIgnoreCase(AutoName(j), AutoName(k))
    ensures j == k
  {
    var a := NatToString(j);
    var b := NatToString(k);
    var x := AutoName(j);
    var y := AutoName(k);
    assert |a| == |b| by {
      assert |Upper(x)| == |x| && |Upper(y)| == |y|;
    }
    forall i | 0 <= i < |a|
      ensures a[i] == b[i]
    {
      assert x[6 + i] == a[i] && y[6 + i] == b[i];
      assert Upper(x)[6 + i] == Upper(y)[6 + i];
    }
    assert a == b;
    NatToStringRoundTrip(j);
    NatToStringRoundTrip(k);
  }

  /** The upper-cased names of the columns. */
  ghost function Uppers(names: seq<string>): set<string> {
    set i | 0 <= i < |names| :: Upper(names[i])
  }

  /** The upper-cased generated names below `k`. */
  ghost function Claimed(k: nat): set<string> {
    set j | 0 <= j < k :: Upper(AutoName(j))
  }

  /** A generated name found in use is one column fewer left to pass. */
  lemma {:induction false} ClaimStep(names: seq<string>, k: nat)
    requires InUse(names, AutoName(k))
    ensures Uppers(names) - Claimed(k + 1) < Uppers(names) - Claimed(k)
  {
    var u := Upper(AutoName(k));
    var i :| 0 <= i < |names| && EqualsIgnoreCase(names[i], AutoName(k));
    assert Upper(names[i]) in Uppers(names);
    assert u !in Claimed(k) by {
      if u in Claimed(k) {
        var j :| 0 <= j < k && Upper(AutoName(j)) == u;
        AutoNameDistinct(j, k);
      }
    }
    assert Claimed(k + 1) == Claimed(k) + {u};
  }

  /** The first index from `k` on whose generated name no column uses. */
  function FreeIndex(names: seq<string>, k: nat): (f: nat)
    ensures k <= f && !InUse(names, AutoName(f))
    ensures forall j :: k <= j < f ==> InUse(names, AutoName(j))
    decreases Uppers(names) - Claimed(k)
  {
    if InUse(names, AutoName(k)) then
      ClaimStep(names, k);
      FreeIndex(names, k + 1)
    else k
  }

  /** Starting the search past indices that are all in use finds the same
      index. */
  lemma {:induction false} FreeIndexSkip(names: seq<string>, a: nat, b: nat)
    requires a <= b
    requires forall j :: a <= j < b ==> InUse(names, AutoName(j))
    ensures FreeIndex(names, a) == FreeIndex(names, b)
    decreases b - a
  {
    if a < b {
      FreeIndexSkip(names, a + 1, b);
    }
  }

  /** The collection's names, and the counter its generated names continue
      from. */
  datatype ColumnSet = ColumnSet(names: seq<string>, nextIndex: nat)

  /** A new table: no column, and generated names start at `Column1`. */
  const NoColumns: ColumnSet := ColumnSet([], 1)

  /** `Columns.Add(name)`. An empty name receives the first generated name from
      the counter on that no column uses, ignoring case, and the counter moves
      past it. Any other name is rejected when a column already has exactly
      that name; names differing only in case are both accepted. */
  function AddColumn(cs: ColumnSet, name: string): (r: Result<ColumnSet, ReadError>)
    ensures name != [] ==> (r.Success? <==> name !in cs.names)
    ensures name != [] && r.Failure? ==> r.error == DuplicateColumn(name)
    ensures name != [] && r.Success? ==> r.value == ColumnSet(cs.names + [name], cs.nextIndex)
    ensures name == [] ==> r.Success? && r.value.nextIndex > cs.nextIndex
    ensures name == [] ==> r.value.names == cs.names + [AutoName(r.value.nextIndex - 1)]
    ensures name == [] ==> !InUse(cs.names, AutoName(r.value.nextIndex - 1))
  {
    if name == [] then
      var k := FreeIndex(cs.names, cs.nextIndex);
      Success(ColumnSet(cs.names + [AutoName(k)], k + 1))
    else if name in cs.names then Failure(DuplicateColumn(name))
    else Success(ColumnSet(cs.names + [name], cs.nextIndex))
  }

  /** Adding the names in order; the first rejected name fails the read. */
  function AddColumns(names: seq<string>): (r: Result<ColumnSet, ReadError>)
    ensures r.Success? ==> |r.value.names| == |names|
    ensures r.Failure? ==> r.error.DuplicateColumn?
    decreases |names|
  {
    if |names| == 0 then Success(NoColumns)
    else
      var cs :- AddColumns(names[..|names| - 1]);
      AddColumn(cs, names[|names| - 1])
  }

  /** The column names of a table whose columns are added with `names`. */
  function ColumnsNamed(names: seq<string>): Result<seq<string>, ReadError> {
    var cs :- AddColumns(names);
    Success(cs.names)
  }

  /** The `foreach ... Columns.Add` loop both readers run. */
  method AddAll(names: seq<string>) returns (r: Result<seq<string>, ReadError>)
    ensures r == ColumnsNamed(names)
  {
    var cs := NoColumns;
    assert names[..0] == [];
    var j := 0;
    while j < |names|
      invariant 0 <= j <= |names|
      invariant AddColumns(names[..j]) == Success(cs)
    {
      assert names[..j + 1][..j] == names[..j];
      var next := AddColumn(cs, names[j]);
      if next.Failure? {
        AddFailurePersists(names, j + 1);
        return Failure(next.error);
      }
      cs := next.value;
      j := j + 1;
    }
    assert names[..|names|] == names;
    return Success(cs.names);
  }

  /** Once a prefix of the names is rejected, adding all of them fails the
      same way. */
  lemma {:induction false} AddFailurePersists(names: seq<string>, j: nat)
    requires j <= |names| && AddColumns(names[..j]).Failure?
    ensures AddColumns(names) == AddColumns(names[..j])
    decreases |names| - j
  {
    if j < |names| {
      assert names[..j + 1][..j] == names[..j];
      AddFailurePersists(names, j + 1);
    } else {
      assert names[..j] == names;
    }
  }

  /** The counter has passed only generated names that are in use. */
  predicate Counted(cs: ColumnSet) {
    && cs.nextIndex >= 1
    && forall j :: 1 <= j < cs.nextIndex ==> InUse(cs.names, AutoName(j))
  }

  /** A name in use stays in use as columns are added. */
  lemma {:induction false} InUseGrows(names: seq<string>, more: seq<string>, s: string)
    requires |names| <= |more| && more[..|names|] == names && InUse(names, s)
    ensures InUse(more, s)
  {
    var i :| 0 <= i < |names| && EqualsIgnoreCase(names[i], s);
    assert more[i] == names[i];
  }

  /** Adding keeps the counter honest; so an empty name receives the first
      generated name from `Column1` on that no column uses. */
  lemma {:induction false} AddKeepsCounted(cs: ColumnSet, name: string)
    requires Counted(cs) && AddColumn(cs, name).Success?
    ensures Counted(AddColumn(cs, name).value)
    ensures name == [] ==> AddColumn(cs, name).value.names == cs.names + [AutoName(FreeIndex(cs.names, 1))]
  {
    var next := AddColumn(cs, name).value;
    forall j | 1 <= j < next.nextIndex
      ensures InUse(next.names, AutoName(j))
    {
      if name == [] && j == next.nextIndex - 1 {
        assert next.names[|cs.names|] == AutoName(j);
      } else {
        assert InUse(cs.names, AutoName(j));
        InUseGrows(cs.names, next.names, AutoName(j));
      }
    }
    if name == [] {
      FreeIndexSkip(cs.names, 1, cs.nextIndex);
    }
  }

  /** Column `j` of `result` is what `Add` makes of `names[j]` after the columns
      before it: the name itself, or, for an empty name, the first generated
      name from `Column1` on that no earlier column uses, ignoring case. */
  predicate NamedAt(names: seq<string>, result: seq<string>, j: nat)
    requires j < |names| == |result|
  {
    if names[j] != [] then result[j] == names[j]
    else result[j] == AutoName(FreeIndex(result[..j], 1))
  }

  /** No two columns have exactly the same name. */
  predicate Distinct(names: seq<string>) {
    forall i, j :: 0 <= i < j < |names| ==> names[i] != names[j]
  }

  /** What a successful sequence of additions gives: one column per name, each
      named as `NamedAt` says, no two alike, and the counter honest. */
  predicate WellNamed(names: seq<string>, cs: ColumnSet) {
    && |cs.names| == |names|
    && Counted(cs)
    && Distinct(cs.names)
    && (forall j :: 0 <= j < |names| ==> NamedAt(names, cs.names, j))
    && (forall j :: 0 <= j < |names| && names[j] != [] ==> cs.names[j] == names[j])
  }

  lemma {:induction false} AddedNames(names: seq<string>)
    ensures AddColumns(names).Success? ==> WellNamed(names, AddColumns(names).value)
    decreases |names|
  {
    if |names| > 0 && AddColumns(names).Success? {
      var init := names[..|names| - 1];
      var last := names[|names| - 1];
      AddedNames(init);
      assert names == init + [last];
      WellNamedSnoc(init, last, AddColumns(init).value);
    }
  }

  /** Adding one more name keeps the summary. */
  lemma {:induction false} WellNamedSnoc(init: seq<string>, last: string, before: ColumnSet)
    requires WellNamed(init, before) && AddColumn(before, last).Success?
    ensures WellNamed(init + [last], AddColumn(before, last).value)
  {
    var names := init + [last];
    var cs := AddColumn(before, last).value;
    AddKeepsCounted(before, last);
    AddedFresh(before, last);
    DistinctSnoc(before.names, cs.names[|init|]);
    assert cs.names == before.names + [cs.names[|init|]];
    assert names[..|names| - 1] == init;
    assert cs.names[..|cs.names| - 1] == before.names;
    forall j | 0 <= j < |names|
      ensures NamedAt(names, cs.names, j)
    {
      if j < |init| {
        NamedAtSnoc(names, cs.names, j);
      } else {
        assert cs.names[..j] == before.names;
      }
    }
  }

  /** The column `Add` appends is named unlike every earlier one. */
  lemma {:induction false} AddedFresh(cs: ColumnSet, name: string)
    requires AddColumn(cs, name).Success?
    ensures var next := AddColumn(cs, name).value.names;
            |next| == |cs.names| + 1 && next[|cs.names|] !in cs.names
  {
    if name == [] {
      var f := AddColumn(cs, name).value.nextIndex - 1;
      if AutoName(f) in cs.names {
        var i :| 0 <= i < |cs.names| && cs.names[i] == AutoName(f);
        assert EqualsIgnoreCase(cs.names[i], AutoName(f));
      }
    }
  }

  lemma {:induction false} DistinctSnoc(names: seq<string>, x: string)
    requires Distinct(names) && x !in names
    ensures Distinct(names + [x])
  {
    var w := names + [x];
    forall i, j | 0 <= i < j < |w|
      ensures w[i] != w[j]
    {
      if j < |names| {
        assert w[i] == names[i] && w[j] == names[j];
      } else {
        assert w[i] == names[i];
      }
    }
  }

  /** `NamedAt` for an earlier column carries over when one more column is
      added. */
  lemma {:induction false} NamedAtSnoc(names: seq<string>, result: seq<string>, j: nat)
    requires j + 1 < |names| == |result|
    requires NamedAt(names[..|names| - 1], result[..|result| - 1], j)
    ensures NamedAt(names, result, j)
  {
    assert names[..|names| - 1][j] == names[j];
    assert result[..|result| - 1][j] == result[j];
    assert result[..|result| - 1][..j] == result[..j];
  }

  /** Two equal non-empty names make the read fail. */
  lemma {:induction false} RepeatedNameRejected(names: seq<string>, i: nat, j: nat)
    requires i < j < |names| && names[i] == names[j] && names[i] != []
    ensures ColumnsNamed(names).Failure?
  {
    AddedNames(names);
  }

  /** When no name is empty, the read succeeds exactly when the names are
      distinct, and the columns are then named exactly so. */
  lemma {:induction false} NonEmptyNamesKept(names: seq<string>)
    requires forall j :: 0 <= j < |names| ==> names[j] != []
    ensures ColumnsNamed(names).Success? <==> Distinct(names)
    ensures ColumnsNamed(names).Success? ==> ColumnsNamed(names).value == names
  {
    if AddColumns(names).Success? {
      AddedNames(names);
      var cs := AddColumns(names).value;
      forall j | 0 <= j < |names|
        ensures cs.names[j] == names[j]
      {
        assert NamedAt(names, cs.names, j);
      }
      assert cs.names == names;
    } else if Distinct(names) {
      DistinctAccepted(names);
    }
  }

  /** Distinct non-empty names are all accepted. */
  lemma {:induction false} DistinctAccepted(names: seq<string>)
    requires forall j :: 0 <= j < |names| ==> names[j] != []
    requires Distinct(names)
    ensures AddColumns(names).Success? && AddColumns(names).value.names == names
    decreases |names|
  {
    if |names| > 0 {
      var init := names[..|names| - 1];
      DistinctAccepted(init);
      assert names == init + [names[|names| - 1]];
    }
  }

  /** A header "a," names its second column `Column1`. */
  lemma EmptyNameGenerated()
    ensures ColumnsNamed(["a", ""]) == Success(["a", "Column1"])
  {
    var names := ["a", ""];
    var init := names[..1];
    assert init == ["a"];
    assert init[..0] == [];
    var first := AddColumn(NoColumns, "a");
    assert AddColumns(init) == first;
    var cs := first.value;
    assert cs.names == ["a"];
    assert NatToString(1) == "1";
    assert |Upper(cs.names[0])| != |Upper(AutoName(1))|;
    assert !InUse(cs.names, AutoName(1));
    assert FreeIndex(cs.names, 1) == 1;
    assert AddColumns(names) == AddColumn(cs, "");
    assert AutoName(1) == "Column1";
    assert cs.names + ["Column1"] == ["a", "Column1"];
  }

  /** A header "id,id" fails at its second column. */
  lemma ExactRepeatRejected()
    ensures ColumnsNamed(["id", "id"]) == Failure(DuplicateColumn("id"))
  {
    var names := ["id", "id"];
    var init := names[..1];
    assert init == ["id"];
    assert init[..0] == [];
    var first := AddColumn(NoColumns, "id");
    assert AddColumns(init) == first;
    assert first.value.names == ["id"];
  }
}
