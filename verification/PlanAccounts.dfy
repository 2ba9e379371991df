/** What a plan makes of each row, against what the checker's source lookup finds for it: for
    `--apply` which rows drift, for `--reconcile` which are anchored and which refused. */
module PlanAccounts {
  import opened Counting
  import opened PyText
  import opened Decimal
  import opened Citations
  import opened Reconcile
  import ReconcileRuns

  function Tail(row: Row): string { After(row.raw, ':') }

  /** What the source holds for a row: its path, its symbol, its token. */
  function FoundFor(c: Checker, row: Row): Found {
    c.locate(row.resolvePath, RBefore(Tail(row), ':'), row.token)
  }

  /** A row that cites a line of a symbol. */
  predicate Cites(row: Row) { !LegacySpec(Tail(row)) && CitedLine(Tail(row)).Some? }

  /** The source is absent, and may be. */
  predicate Excused(c: Checker, row: Row) { FoundFor(c, row) == Unresolved(0) && (row.doc, row.raw) in c.absentOk }

  // ----- drifts -----

  /** The row cites another line than the one its token is on. */
  predicate OffLine(c: Checker, row: Row) {
    Cites(row) && FoundFor(c, row).Line? && FoundFor(c, row).line != CitedLine(Tail(row)).value
  }

  lemma DriftOfRow(c: Checker, row: Row)
    requires Readable(row)
    ensures DriftOf(c)(row)
            == if !OffLine(c, row) then []
               else [Drift(row.doc, row.raw, NewRaw(row.raw, FoundFor(c, row).line), row.resolvePath)]
  {
  }

  /** The plan of `--apply` holds a drift for exactly the rows that cite a line their token is
      not on, and no other row drifts. */
  lemma DriftsExactly(c: Checker, rows: seq<Row>, d: Drift)
    requires forall r :: r in rows ==> Readable(r)
    ensures d in Drifts(c, rows)
            <==> exists row :: row in rows && OffLine(c, row)
                   && d == Drift(row.doc, row.raw, NewRaw(row.raw, FoundFor(c, row).line), row.resolvePath)
  {
    if d in Drifts(c, rows) {
      var k := GatheredFrom(rows, DriftOf(c), d);
      assert rows[k] in rows;
      DriftOfRow(c, rows[k]);
    }
    if row :| row in rows && OffLine(c, row)
              && d == Drift(row.doc, row.raw, NewRaw(row.raw, FoundFor(c, row).line), row.resolvePath) {
      var k :| 0 <= k < |rows| && rows[k] == row;
      DriftOfRow(c, row);
      GatheredHas(rows, DriftOf(c), k, d);
    }
  }

  /** It refuses exactly the line-only rows. */
  lemma LineOnlyExactly(rows: seq<Row>, u: Unfixable)
    ensures u in Unfixables(rows) <==> exists row :: row in rows && LegacySpec(Tail(row))
                                         && u == Unfixable(row.doc, row.raw, LineOnly)
  {
    if u in Unfixables(rows) {
      var k := GatheredFrom(rows, RowUnfixable, u);
      assert rows[k] in rows;
    }
    if row :| row in rows && LegacySpec(Tail(row)) && u == Unfixable(row.doc, row.raw, LineOnly) {
      var k :| 0 <= k < |rows| && rows[k] == row;
      GatheredHas(rows, RowUnfixable, k, u);
    }
  }

  lemma CitesFound(row: Row, n: nat)
    requires Readable(row) && Cites(row)
    ensures CitedLine(After(NewRaw(row.raw, n), ':')) == Some(n)
  {
    NewRawReads(row.raw, n);
  }

  lemma ReanchoredCitesIt(c: Checker, row: Row)
    requires Readable(row) && Cites(row) && FoundFor(c, row).Line?
    ensures CitedLine(Tail(Reanchored(c, row))) == Some(FoundFor(c, row).line)
  {
    if OffLine(c, row) { CitesFound(row, FoundFor(c, row).line); }
  }

  /** After re-anchoring, every row that cites a line and is found in the source cites the
      line it is found on. */
  lemma ReanchoredCites(c: Checker, rows: seq<Row>)
    requires forall r :: r in rows ==> Readable(r)
    ensures forall k :: 0 <= k < |rows| && Cites(rows[k]) && FoundFor(c, rows[k]).Line? ==>
              CitedLine(Tail(ReanchoredTable(c, rows)[k])) == Some(FoundFor(c, rows[k]).line)
  {
    forall k | 0 <= k < |rows| && Cites(rows[k]) && FoundFor(c, rows[k]).Line?
      ensures CitedLine(Tail(ReanchoredTable(c, rows)[k])) == Some(FoundFor(c, rows[k]).line)
    {
      assert rows[k] in rows;
      ReanchoredCitesIt(c, rows[k]);
    }
  }

  // ----- anchored and refused rows -----

  /** Why a row has to be refused. */
  predicate RefusedFor(c: Checker, row: Row, why: Reason) {
    match why
    case LineOnly => LegacySpec(Tail(row))
    case NotOneFile => Cites(row) && FoundFor(c, row).Unresolved? && !Excused(c, row)
    case SymbolNotFound => Cites(row) && FoundFor(c, row) == TokenMissing
    case _ => false
  }

  lemma RefusalOfRow(c: Checker, row: Row, u: Unfixable)
    ensures u in RefusalOf(c)(row) <==> u.doc == row.doc && u.raw == row.raw && RefusedFor(c, row, u.reason)
  {
  }

  /** The plan of `--reconcile` refuses exactly the line-only rows, those whose path is not
      one file (unless none is needed), and those whose symbol or token is not in it, each
      for that reason. */
  lemma RefusesExactly(c: Checker, rows: seq<Row>, u: Unfixable)
    ensures u in Refusals(c, rows)
            <==> exists row :: row in rows && u.doc == row.doc && u.raw == row.raw && RefusedFor(c, row, u.reason)
  {
    if u in Refusals(c, rows) {
      var k := GatheredFrom(rows, RefusalOf(c), u);
      assert rows[k] in rows;
      RefusalOfRow(c, rows[k], u);
    }
    if row :| row in rows && u.doc == row.doc && u.raw == row.raw && RefusedFor(c, row, u.reason) {
      var k :| 0 <= k < |rows| && rows[k] == row;
      RefusalOfRow(c, row, u);
      GatheredHas(rows, RefusalOf(c), k, u);
    }
  }

  /** The reconciliation of a row found on line `n`. */
  predicate AnchorsAt(row: Row, n: nat, r: Reconciliation) {
    && r.doc == row.doc && r.raw == row.raw && r.resolvePath == row.resolvePath
    && r.stablePrefix == Before(row.raw, ':') + ":" + RBefore(Tail(row), ':')
    && Readable(row) && Cites(row) && r.newRaw == NewRaw(row.raw, n)
  }

  lemma ReconciliationOfRow(c: Checker, row: Row, r: Reconciliation)
    requires Readable(row)
    ensures r in ReconciliationOf(c)(row)
            <==> FoundFor(c, row).Line? && AnchorsAt(row, FoundFor(c, row).line, r)
  {
  }

  lemma AnchoredCites(row: Row, n: nat, r: Reconciliation)
    requires AnchorsAt(row, n, r)
    ensures CitedLine(After(r.newRaw, ':')) == Some(n)
  {
    CitesFound(row, n);
  }

  /** It anchors exactly the rows that cite a line and are found, each on the line it is found
      on. */
  lemma AnchorsExactly(c: Checker, rows: seq<Row>, r: Reconciliation)
    requires forall x :: x in rows ==> Readable(x)
    ensures r in Reconciliations(c, rows)
            <==> exists row :: row in rows && FoundFor(c, row).Line? && AnchorsAt(row, FoundFor(c, row).line, r)
                               && CitedLine(After(r.newRaw, ':')) == Some(FoundFor(c, row).line)
  {
    if r in Reconciliations(c, rows) {
      var k := GatheredFrom(rows, ReconciliationOf(c), r);
      assert rows[k] in rows;
      ReconciliationOfRow(c, rows[k], r);
      AnchoredCites(rows[k], FoundFor(c, rows[k]).line, r);
    }
    if row :| row in rows && FoundFor(c, row).Line? && AnchorsAt(row, FoundFor(c, row).line, r) {
      var k :| 0 <= k < |rows| && rows[k] == row;
      ReconciliationOfRow(c, row, r);
      GatheredHas(rows, ReconciliationOf(c), k, r);
    }
  }

  /** A row the plan has nothing to say about: it cites no line, or its source may be absent. */
  predicate PassedOver(c: Checker, row: Row) {
    !LegacySpec(Tail(row)) && (CitedLine(Tail(row)).None? || Excused(c, row))
  }

  lemma RowAccounts(c: Checker, row: Row)
    requires Readable(row)
    ensures |ReconciliationOf(c)(row)| + |RefusalOf(c)(row)| == if PassedOver(c, row) then 0 else 1
    ensures RefusalOf(c)(row) == [] <==> PassedOver(c, row) || (Cites(row) && FoundFor(c, row).Line?)
  {
  }

  function PassedOverRows(c: Checker, rows: seq<Row>): nat {
    if rows == [] then 0
    else PassedOverRows(c, rows[..|rows| - 1]) + if PassedOver(c, rows[|rows| - 1]) then 1 else 0
  }

  /** The accounts of a plan: every row is anchored once, refused once, or passed over. */
  lemma {:induction false} PlanAddsUp(c: Checker, rows: seq<Row>)
    requires forall r :: r in rows ==> Readable(r)
    ensures |Reconciliations(c, rows)| + |Refusals(c, rows)| + PassedOverRows(c, rows) == |rows|
  {
    if rows != [] {
      assert rows[|rows| - 1] in rows && forall r :: r in rows[..|rows| - 1] ==> r in rows;
      PlanAddsUp(c, rows[..|rows| - 1]);
      RowAccounts(c, rows[|rows| - 1]);
    }
  }

  /** A plan refuses nothing exactly when no row is line-only and every row that cites a line
      is found on one or excused; and then each of those it finds is anchored there. */
  lemma CleanPlanIff(c: Checker, rows: seq<Row>)
    requires forall r :: r in rows ==> Readable(r)
    ensures Refusals(c, rows) == []
            <==> forall row :: row in rows ==>
                   !LegacySpec(Tail(row)) && (Cites(row) ==> FoundFor(c, row).Line? || Excused(c, row))
    ensures forall row :: row in rows && Cites(row) && FoundFor(c, row).Line? ==>
              exists r :: r in Reconciliations(c, rows) && AnchorsAt(row, FoundFor(c, row).line, r)
  {
    GatheredEmpty(rows, RefusalOf(c));
    forall k | 0 <= k < |rows|
      ensures RefusalOf(c)(rows[k]) == []
              <==> !LegacySpec(Tail(rows[k])) && (Cites(rows[k]) ==> FoundFor(c, rows[k]).Line? || Excused(c, rows[k]))
    {
      assert rows[k] in rows;
      RowAccounts(c, rows[k]);
    }
    forall row | row in rows && Cites(row) && FoundFor(c, row).Line?
      ensures exists r :: r in Reconciliations(c, rows) && AnchorsAt(row, FoundFor(c, row).line, r)
    {
      var k :| 0 <= k < |rows| && rows[k] == row;
      RowAccounts(c, row);
      var r := ReconciliationOf(c)(row)[0];
      ReconciliationOfRow(c, row, r);
      GatheredHas(rows, ReconciliationOf(c), k, r);
    }
  }

  lemma SettledCitesIt(c: Checker, row: Row)
    requires Readable(row) && Cites(row) && FoundFor(c, row).Line?
    ensures CitedLine(Tail(ReconcileRuns.SettledRow(c, row))) == Some(FoundFor(c, row).line)
  {
    assert ReconcileRuns.SettledRow(c, row).raw == NewRaw(row.raw, FoundFor(c, row).line);
    CitesFound(row, FoundFor(c, row).line);
  }

  /** After a reconcile run's table is settled, such rows cite the line they are found on. */
  lemma SettledCites(c: Checker, rows: seq<Row>)
    requires forall r :: r in rows ==> Readable(r)
    ensures forall k :: 0 <= k < |rows| && Cites(rows[k]) && FoundFor(c, rows[k]).Line? ==>
              CitedLine(Tail(ReconcileRuns.SettledTable(c, rows)[k])) == Some(FoundFor(c, rows[k]).line)
  {
    forall k | 0 <= k < |rows| && Cites(rows[k]) && FoundFor(c, rows[k]).Line?
      ensures CitedLine(Tail(ReconcileRuns.SettledTable(c, rows)[k])) == Some(FoundFor(c, rows[k]).line)
    {
      assert rows[k] in rows;
      SettledCitesIt(c, rows[k]);
    }
  }
}
