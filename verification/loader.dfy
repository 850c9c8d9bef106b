/** The batched row loader of `ImportData`: each row is converted into insert
    parameters by the live column type, inserted, and committed in batches; a
    row the database rejects is counted and skipped, and the tenth rejection
    rolls back the open batch and ends the load. The database is a trace of the
    statements issued plus an oracle saying which inserts succeed. */
module Loader {
  import opened Wrappers
  import opened Text
  import opened Tables
  import opened Inference
  import opened Reconcile

  /** Rejections after which the load stops. */
  const MaxErrors: nat := 10

  /** An insert parameter: DBNull, a value parsed by the culture's decimal,
      long or date parser from the given text, or the text itself. */
  datatype Param =
    | DbNull
    | DecimalOf(text: string)
    | LongOf(text: string)
    | DateTimeOf(text: string)
    | Raw(text: string)

  /** A statement sent to the database. */
  datatype Event =
    | Truncate
    | Create(defs: seq<ColumnDef>)
    | AlterColumn(change: Alter)
    | Insert(params: seq<Param>, ok: bool)
    | Commit
    | Rollback

  /** The family a live column type falls into, tested in this order. */
  predicate IsDecimalType(u: string) {
    Contains(u, "DECIMAL") || Contains(u, "DOUBLE") || Contains(u, "FLOAT") || u == "REAL"
  }

  predicate IsIntegerType(u: string) {
    Contains(u, "INT")
  }

  predicate IsDateType(u: string) {
    Contains(u, "DATE") || Contains(u, "TIME")
  }

  /** The parameter for one cell: DBNull for DBNull, empty or white-space
      text; otherwise parsed by the family of the column's upper-cased type,
      where a failed parse gives DBNull and not an error; raw text for other
      types and for a column whose type is unknown. */
  function Coerce(v: Option<string>, columnType: Option<string>, c: Culture): (p: Param)
    ensures v.None? || IsBlank(v.value) ==> p == DbNull
    ensures p != DbNull ==> v.Some? && p.text == v.value
  {
    if v.None? || IsBlank(v.value) then DbNull
    else
      var s := v.value;
      match columnType
      case None => Raw(s)
      case Some(t) =>
        var u := Upper(t);
        if IsDecimalType(u) then (if c.isDecimal(s) then DecimalOf(s) else DbNull)
        else if IsIntegerType(u) then (if c.isLong(s) then LongOf(s) else DbNull)
        else if IsDateType(u) then (if c.isDateTime(s) then DateTimeOf(s) else DbNull)
        else Raw(s)
  }

  /** What each parameter means: a parsed parameter comes from the first family
      the type matches and its parser accepted the text; raw text is kept only
      when no family matches; DBNull means the value was DBNull or blank, or
      the chosen parser refused it. */
  lemma {:induction false} CoerceMeaning(v: Option<string>, columnType: Option<string>, c: Culture)
    ensures var p := Coerce(v, columnType, c);
            var present := v.Some? && !IsBlank(v.value);
            var u := if columnType.Some? then Upper(columnType.value) else "";
            && (p.DecimalOf? <==> present && columnType.Some? && IsDecimalType(u) && c.isDecimal(v.value))
            && (p.LongOf? <==> present && columnType.Some? && !IsDecimalType(u) && IsIntegerType(u)
                               && c.isLong(v.value))
            && (p.DateTimeOf? <==> present && columnType.Some? && !IsDecimalType(u) && !IsIntegerType(u)
                                   && IsDateType(u) && c.isDateTime(v.value))
            && (p.Raw? <==> present && (columnType.None? || (!IsDecimalType(u) && !IsIntegerType(u) && !IsDateType(u))))
            && (p == DbNull <==> !present ||
                                 (columnType.Some? &&
                                  if IsDecimalType(u) then !c.isDecimal(v.value)
                                  else if IsIntegerType(u) then !c.isLong(v.value)
                                  else IsDateType(u) && !c.isDateTime(v.value)))
  {
  }

  /** The parameters for one row: cell `i` is converted by the live type of
      data column `i`. */
  function RowParams(row: Row, columns: seq<string>, live: seq<LiveColumn>, c: Culture): (ps: seq<Param>)
    ensures |ps| == |columns|
  {
    seq(|columns|, i requires 0 <= i < |columns| =>
      Coerce(At(row, i), match FindColumn(live, columns[i]) case None => None case Some(lc) => Some(lc.sqlType), c))
  }

  /** The loop variables of the load, the statements so far, and whether the
      load has stopped. */
  datatype LoadState = LoadState(batch: nat, total: nat, errors: nat, trace: seq<Event>, stopped: bool)

  /** One row: a successful insert counts towards the batch, which is committed
      once it reaches the batch size (every row when the size is below 1); a
      rejected insert counts as an error, and the tenth rolls back and stops. */
  function LoadStep(s: LoadState, params: seq<Param>, ok: bool, batchSize: int): LoadState {
    if ok then
      var trace := s.trace + [Insert(params, true)];
      if s.batch + 1 >= batchSize then LoadState(0, s.total + 1, s.errors, trace + [Commit], false)
      else LoadState(s.batch + 1, s.total + 1, s.errors, trace, false)
    else
      var trace := s.trace + [Insert(params, false)];
      if s.errors + 1 >= MaxErrors then LoadState(s.batch, s.total, s.errors + 1, trace + [Rollback], true)
      else LoadState(s.batch, s.total, s.errors + 1, trace, false)
  }

  /** The state after the first `j` rows; nothing happens after a stop. */
  function LoadPrefix(rows: seq<seq<Param>>, accepts: nat -> bool, batchSize: int, j: nat): LoadState
    requires j <= |rows|
  {
    if j == 0 then LoadState(0, 0, 0, [], false)
    else
      var s := LoadPrefix(rows, accepts, batchSize, j - 1);
      if s.stopped then s else LoadStep(s, rows[j - 1], accepts(j - 1), batchSize)
  }

  datatype LoadOutcome =
    | Completed(inserted: nat, failed: nat)
    | Aborted(failed: nat)

  /** After the last row, an open batch is committed. */
  function Finish(s: LoadState): (seq<Event>, LoadOutcome) {
    if s.stopped then (s.trace, Aborted(s.errors))
    else (s.trace + (if s.batch > 0 then [Commit] else []), Completed(s.total, s.errors))
  }

  /** Reference definition of the load. */
  function LoadSpec(rows: seq<seq<Param>>, accepts: nat -> bool, batchSize: int): (seq<Event>, LoadOutcome) {
    Finish(LoadPrefix(rows, accepts, batchSize, |rows|))
  }

  /** The row loop of `ImportData`. */
  method LoadRows(rows: seq<seq<Param>>, accepts: nat -> bool, batchSize: int)
    returns (trace: seq<Event>, outcome: LoadOutcome)
    ensures (trace, outcome) == LoadSpec(rows, accepts, batchSize)
  {
    var batchCount: nat := 0;
    var totalCount: nat := 0;
    var errorCount: nat := 0;
    trace := [];
    var j := 0;
    while j < |rows|
      invariant 0 <= j <= |rows|
      invariant LoadPrefix(rows, accepts, batchSize, j) == LoadState(batchCount, totalCount, errorCount, trace, false)
    {
      if accepts(j) {
        trace := trace + [Insert(rows[j], true)];
        batchCount := batchCount + 1;
        totalCount := totalCount + 1;
        if batchCount >= batchSize {
          trace := trace + [Commit];
          batchCount := 0;
        }
      } else {
        trace := trace + [Insert(rows[j], false)];
        errorCount := errorCount + 1;
        if errorCount >= MaxErrors {
          trace := trace + [Rollback];
          assert LoadPrefix(rows, accepts, batchSize, j + 1) == LoadState(batchCount, totalCount, errorCount, trace, true);
          StopPersists(rows, accepts, batchSize, j + 1);
          return trace, Aborted(errorCount);
        }
      }
      assert LoadPrefix(rows, accepts, batchSize, j + 1) == LoadState(batchCount, totalCount, errorCount, trace, false);
      j := j + 1;
    }
    if batchCount > 0 {
      trace := trace + [Commit];
    } else {
      assert trace + [] == trace;
    }
    outcome := Completed(totalCount, errorCount);
  }

  /** Once stopped, the load stays as it is. */
  lemma {:induction false} StopPersists(rows: seq<seq<Param>>, accepts: nat -> bool, batchSize: int, j: nat)
    requires j <= |rows| && LoadPrefix(rows, accepts, batchSize, j).stopped
    ensures LoadPrefix(rows, accepts, batchSize, |rows|) == LoadPrefix(rows, accepts, batchSize, j)
    decreases |rows| - j
  {
    if j < |rows| {
      StopPersists(rows, accepts, batchSize, j + 1);
    }
  }

  // What the trace records.

  /** Rows made durable by a commit, rows inserted in the open transaction,
      and the number of commits. */
  datatype Ledger = Ledger(durable: nat, pending: nat, commits: nat)

  function Record(l: Ledger, e: Event): Ledger {
    match e
    case Insert(_, ok) => if ok then Ledger(l.durable, l.pending + 1, l.commits) else l
    case Commit => Ledger(l.durable + l.pending, 0, l.commits + 1)
    case Rollback => Ledger(l.durable, 0, l.commits)
    case _ => l
  }

  function LedgerOf(trace: seq<Event>): Ledger {
    if |trace| == 0 then Ledger(0, 0, 0) else Record(LedgerOf(trace[..|trace| - 1]), trace[|trace| - 1])
  }

  lemma {:induction false} LedgerSnoc(trace: seq<Event>, e: Event)
    ensures LedgerOf(trace + [e]) == Record(LedgerOf(trace), e)
  {
    assert (trace + [e])[..|trace|] == trace;
  }

  /** How many of the first `j` rows the database rejects. */
  function Rejected(accepts: nat -> bool, j: nat): nat {
    if j == 0 then 0 else Rejected(accepts, j - 1) + (if accepts(j - 1) then 0 else 1)
  }

  /** The load's counters: it stops exactly when ten of the rows so far were
      rejected, with the error count at ten; before that, every row is counted
      as inserted or failed. */
  lemma {:induction false} LoadCounts(rows: seq<seq<Param>>, accepts: nat -> bool, batchSize: int, j: nat)
    requires j <= |rows|
    ensures var s := LoadPrefix(rows, accepts, batchSize, j);
            && (s.stopped <==> Rejected(accepts, j) >= MaxErrors)
            && (s.stopped ==> s.errors == MaxErrors)
            && (!s.stopped ==> s.errors == Rejected(accepts, j) && s.total + s.errors == j)
  {
    if j > 0 {
      LoadCounts(rows, accepts, batchSize, j - 1);
    }
  }

  /** The ledger agrees with the counters: the open batch holds the
      successful rows since the last commit, which is `total % batchSize` of
      them; every earlier successful row is durable; a stop has discarded the
      open batch. */
  predicate Balanced(s: LoadState, batchSize: nat)
    requires batchSize >= 1
  {
    var l := LedgerOf(s.trace);
    && s.batch == s.total % batchSize
    && l.commits == s.total / batchSize
    && l.durable == s.total - s.batch
    && l.pending == (if s.stopped then 0 else s.batch)
  }

  lemma {:induction false} StepBalanced(s: LoadState, params: seq<Param>, ok: bool, batchSize: nat)
    requires batchSize >= 1 && !s.stopped && Balanced(s, batchSize)
    ensures Balanced(LoadStep(s, params, ok, batchSize), batchSize)
  {
    if ok {
      AcceptedBalanced(s, params, batchSize);
    } else {
      RejectedBalanced(s, params, batchSize);
    }
  }

  lemma {:induction false} AcceptedBalanced(s: LoadState, params: seq<Param>, batchSize: nat)
    requires batchSize >= 1 && !s.stopped && Balanced(s, batchSize)
    ensures Balanced(LoadStep(s, params, true, batchSize), batchSize)
  {
    var l := LedgerOf(s.trace);
    var e := Insert(params, true);
    var tr := s.trace + [e];
    LedgerSnoc(s.trace, e);
    assert LedgerOf(tr) == Ledger(l.durable, l.pending + 1, l.commits);
    CounterStep(s.total, batchSize);
    if s.batch + 1 >= batchSize {
      LedgerSnoc(tr, Commit);
      assert LedgerOf(tr + [Commit]) == Ledger(l.durable + l.pending + 1, 0, l.commits + 1);
      assert LoadStep(s, params, true, batchSize) == LoadState(0, s.total + 1, s.errors, tr + [Commit], false);
    } else {
      assert LoadStep(s, params, true, batchSize) == LoadState(s.batch + 1, s.total + 1, s.errors, tr, false);
    }
  }

  lemma {:induction false} RejectedBalanced(s: LoadState, params: seq<Param>, batchSize: nat)
    requires batchSize >= 1 && !s.stopped && Balanced(s, batchSize)
    ensures Balanced(LoadStep(s, params, false, batchSize), batchSize)
  {
    var l := LedgerOf(s.trace);
    var e := Insert(params, false);
    var tr := s.trace + [e];
    LedgerSnoc(s.trace, e);
    assert LedgerOf(tr) == l;
    if s.errors + 1 >= MaxErrors {
      LedgerSnoc(tr, Rollback);
      assert LedgerOf(tr + [Rollback]) == Ledger(l.durable, 0, l.commits);
    }
  }

  /** With a batch size of at least one, every state of the load is balanced. */
  lemma {:induction false} LoadLedger(rows: seq<seq<Param>>, accepts: nat -> bool, batchSize: nat, j: nat)
    requires j <= |rows| && batchSize >= 1
    ensures Balanced(LoadPrefix(rows, accepts, batchSize, j), batchSize)
  {
    if j > 0 {
      LoadLedger(rows, accepts, batchSize, j - 1);
      var s := LoadPrefix(rows, accepts, batchSize, j - 1);
      if !s.stopped {
        StepBalanced(s, rows[j - 1], accepts(j - 1), batchSize);
      }
    }
  }

  /** The batch counter and the commit count after one more successful row. */
  lemma {:induction false} CounterStep(total: nat, b: nat)
    requires b >= 1
    ensures (total % b) + 1 >= b ==> (total + 1) % b == 0 && (total + 1) / b == total / b + 1
    ensures (total % b) + 1 < b ==> (total + 1) % b == total % b + 1 && (total + 1) / b == total / b
  {
    var q := total / b;
    var r := total % b;
    assert total == q * b + r;
    if r + 1 >= b {
      assert total + 1 == (q + 1) * b;
      DivUnique(total + 1, b, q + 1, 0);
    } else {
      DivUnique(total + 1, b, q, r + 1);
    }
  }

  /** Quotient and remainder are determined by `n == q * b + r`. */
  lemma {:induction false} DivUnique(n: nat, b: nat, q: nat, r: nat)
    requires b >= 1 && r < b && n == q * b + r
    ensures n / b == q && n % b == r
  {
    var d := n / b - q;
    assert d * b == r - n % b;
    if d > 0 {
      MulAtLeast(d, b);
    } else if d < 0 {
      MulAtLeast(-d, b);
    }
  }

  lemma {:induction false} MulAtLeast(k: int, b: int)
    requires k >= 1 && b >= 1
    ensures k * b >= b
  {
    if k > 1 {
      MulAtLeast(k - 1, b);
      assert k * b == (k - 1) * b + b;
    }
  }

  /** A completed load has committed every inserted row, in ceil(inserted /
      batchSize) commits: one per full batch and one for a remainder. */
  lemma {:induction false} FinishCommits(s: LoadState, batchSize: nat)
    requires batchSize >= 1 && !s.stopped && Balanced(s, batchSize)
    ensures var l := LedgerOf(Finish(s).0);
            && l.durable == s.total && l.pending == 0
            && l.commits == (s.total + batchSize - 1) / batchSize
  {
    var q := s.total / batchSize;
    var r := s.total % batchSize;
    assert s.total == q * batchSize + r;
    if r > 0 {
      LedgerSnoc(s.trace, Commit);
      DivUnique(s.total + batchSize - 1, batchSize, q + 1, r - 1);
    } else {
      assert s.trace + [] == s.trace;
      DivUnique(s.total + batchSize - 1, batchSize, q, batchSize - 1);
    }
  }

  /** The tenth rejection ends the load: it is aborted exactly when ten rows
      are rejected, and then only the open batch is lost: the durable rows are
      the whole batches committed before it. */
  lemma {:induction false} AbortOnTenthError(rows: seq<seq<Param>>, accepts: nat -> bool, batchSize: nat)
    requires batchSize >= 1
    ensures LoadSpec(rows, accepts, batchSize).1.Aborted? <==> Rejected(accepts, |rows|) >= MaxErrors
    ensures var (trace, outcome) := LoadSpec(rows, accepts, batchSize);
            var s := LoadPrefix(rows, accepts, batchSize, |rows|);
            outcome.Aborted? ==>
              && outcome.failed == MaxErrors
              && LedgerOf(trace).pending == 0
              && LedgerOf(trace).durable == batchSize * (s.total / batchSize)
  {
    var n := |rows|;
    LoadCounts(rows, accepts, batchSize, n);
    var s := LoadPrefix(rows, accepts, batchSize, n);
    if s.stopped {
      LoadLedger(rows, accepts, batchSize, n);
      StoppedLedger(s, batchSize);
    }
  }

  /** A stopped load keeps exactly the rows of its committed batches. */
  lemma {:induction false} StoppedLedger(s: LoadState, batchSize: nat)
    requires batchSize >= 1 && s.stopped && Balanced(s, batchSize)
    ensures LedgerOf(s.trace).pending == 0
    ensures LedgerOf(s.trace).durable == batchSize * (s.total / batchSize)
  {
    assert s.total == batchSize * (s.total / batchSize) + s.total % batchSize;
  }

  /** A completed load counts every row as inserted or failed, with fewer than
      ten failures, and has committed every inserted row in
      ceil(inserted / batchSize) commits. */
  lemma {:induction false} CompletedLoad(rows: seq<seq<Param>>, accepts: nat -> bool, batchSize: nat)
    requires batchSize >= 1
    ensures var (trace, outcome) := LoadSpec(rows, accepts, batchSize);
            outcome.Completed? ==>
              && outcome.failed == Rejected(accepts, |rows|) < MaxErrors
              && outcome.inserted + outcome.failed == |rows|
              && LedgerOf(trace).durable == outcome.inserted
              && LedgerOf(trace).pending == 0
              && LedgerOf(trace).commits == (outcome.inserted + batchSize - 1) / batchSize
  {
    var n := |rows|;
    LoadCounts(rows, accepts, batchSize, n);
    var s := LoadPrefix(rows, accepts, batchSize, n);
    if !s.stopped {
      LoadLedger(rows, accepts, batchSize, n);
      FinishCommits(s, batchSize);
    }
  }

  /** With no rejected row, every row is inserted and made durable, in
      ceil(N / batchSize) commits. */
  lemma {:induction false} CommitsWithoutErrors(rows: seq<seq<Param>>, accepts: nat -> bool, batchSize: nat)
    requires batchSize >= 1 && Rejected(accepts, |rows|) == 0
    ensures LoadSpec(rows, accepts, batchSize).1 == Completed(|rows|, 0)
    ensures LedgerOf(LoadSpec(rows, accepts, batchSize).0).commits == (|rows| + batchSize - 1) / batchSize
    ensures LedgerOf(LoadSpec(rows, accepts, batchSize).0).durable == |rows|
  {
    LoadCounts(rows, accepts, batchSize, |rows|);
    CompletedLoad(rows, accepts, batchSize);
  }
}
