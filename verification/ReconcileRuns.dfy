/** `--reconcile` from end to end: plan from the table, run, write, plan from the table that
    was written, and run again. */
module ReconcileRuns {
  import opened Counting
  import opened PyText
  import opened Decimal
  import opened Citations
  import opened Reconcile
  import opened Surfaces
  import Reanchor

  // ----- the rows a run leaves -----

  /** An anchored row carries its source-derived citation; any other row is as it was. */
  function SettledRow(c: Checker, row: Row): Row
    requires Readable(row)
  { match RowVerdict(c, row) case Anchor(n) => row.(raw := NewRaw(row.raw, n)) case _ => row }

  function SettledTable(c: Checker, rows: seq<Row>): seq<Row>
    requires forall r :: r in rows ==> Readable(r)
  { seq(|rows|, i requires 0 <= i < |rows| => assert rows[i] in rows; SettledRow(c, rows[i])) }

  lemma NewSpecTwice(spec: string, n: nat)
    requires LineSpec(spec)
    ensures LineSpec(NewSpec(spec, n)) && NewSpec(NewSpec(spec, n), n) == NewSpec(spec, n)
  {
    NewSpecMoves(spec, n);
    if '-' in spec {
      var end := ParseInt(After(spec, '-')) + n - ParseNat(Before(spec, '-'));
      RangeReads(n, end);
      IntStrParses(end);
      NatStrParses(n);
    } else {
      NatStrParses(n);
      DigitsHaveNoDash(NatStr(n));
    }
  }

  lemma NewRawTwice(raw: string, n: nat)
    requires ':' in raw && ':' in After(raw, ':') && LineSpec(RAfter(After(raw, ':'), ':'))
    ensures var new' := NewRaw(raw, n);
      LineSpec(RAfter(After(new', ':'), ':')) && NewRaw(new', n) == new' && StablePrefix(new') == StablePrefix(raw)
  {
    var tail := After(raw, ':');
    var spec, new' := RAfter(tail, ':'), NewRaw(raw, n);
    NewRawReads(raw, n);
    NewSpecMoves(spec, n);
    NewSpecTwice(spec, n);
    FirstParts(raw, ':');
    var tail' := NewSymbolSpec(tail, n);
    assert new' == Before(raw, ':') + [':'] + tail' && tail' == Symbol(tail) + [':'] + NewSpec(spec, n);
    FirstSplit(Before(raw, ':'), ':', tail');
    LastSplit(Symbol(tail), ':', NewSpec(spec, n));
  }

  /** A row anchored once is anchored there again. */
  lemma AnchoredAgain(c: Checker, row: Row, n: nat)
    requires Readable(row) && RowVerdict(c, row) == Anchor(n)
    ensures var row' := row.(raw := NewRaw(row.raw, n)); Readable(row') && RowVerdict(c, row') == Anchor(n)
  {
    NewRawReads(row.raw, n);
  }

  lemma AnchorSettles(c: Checker, row: Row, n: nat)
    requires Readable(row) && RowVerdict(c, row) == Anchor(n)
    ensures var row' := row.(raw := NewRaw(row.raw, n));
      && Readable(row') && RowReconciliation(c, row') == SettledAll(RowReconciliation(c, row))
      && RowRefusal(c, row') == [] == RowRefusal(c, row)
  {
    var row' := row.(raw := NewRaw(row.raw, n));
    var r := Reconciliation(row.doc, row.raw, StablePrefix(row.raw), row'.raw, row.resolvePath);
    AnchoredAgain(c, row, n);
    NewRawTwice(row.raw, n);
    assert RowReconciliation(c, row) == [r] && RowReconciliation(c, row') == [Settled(r)];
  }

  /** Planning a settled row again asks for exactly what it already reads. */
  lemma RowSettles(c: Checker, row: Row)
    requires Readable(row)
    ensures var row' := SettledRow(c, row);
      && Readable(row') && RowReconciliation(c, row') == SettledAll(RowReconciliation(c, row))
      && RowRefusal(c, row') == RowRefusal(c, row)
  {
    if RowVerdict(c, row).Anchor? { AnchorSettles(c, row, RowVerdict(c, row).line); }
  }

  lemma {:induction false} GatheredSettled(s: seq<Row>, t: seq<Row>, f: Row -> seq<Reconciliation>)
    requires |s| == |t| && forall k :: 0 <= k < |s| ==> f(t[k]) == SettledAll(f(s[k]))
    ensures Gathered(t, f) == SettledAll(Gathered(s, f))
  {
    if s != [] { GatheredSettled(s[..|s| - 1], t[..|t| - 1], f); }
  }

  /** A plan over the settled rows is the settled plan, and refuses the same rows. */
  lemma PlanOfSettled(c: Checker, rows: seq<Row>)
    requires forall r :: r in rows ==> Readable(r)
    ensures var rows' := SettledTable(c, rows);
      && (forall r :: r in rows' ==> Readable(r))
      && Reconciliations(c, rows') == SettledAll(Reconciliations(c, rows))
      && Refusals(c, rows') == Refusals(c, rows)
  {
    var rows' := SettledTable(c, rows);
    forall k | 0 <= k < |rows|
      ensures Readable(rows'[k]) && RefusalOf(c)(rows'[k]) == RefusalOf(c)(rows[k])
      ensures ReconciliationOf(c)(rows'[k]) == SettledAll(ReconciliationOf(c)(rows[k]))
    {
      assert rows[k] in rows;
      RowSettles(c, rows[k]);
    }
    GatheredSettled(rows, rows', ReconciliationOf(c));
    GatheredSame(rows', rows, RefusalOf(c));
  }

  // ----- the batch a plan makes -----

  /** What the plan asks of a row it anchors: a clean citation, and lines the citation
      pattern reads before and after the move. */
  predicate Admissible(c: Checker, row: Row)
    requires Readable(row)
  {
    var spec := RAfter(After(row.raw, ':'), ':');
    match RowVerdict(c, row)
    case Anchor(n) => Clean(row.raw) && LegacySpec(spec) && n + Span(spec) >= 0
    case _ => true
  }

  ghost predicate Plannable(c: Checker, rows: seq<Row>) {
    && (forall r :: r in rows ==> Readable(r) && Admissible(c, r))
    && forall i, j :: 0 <= i < j < |rows| ==> PrefixesDiffer(c, rows[i], rows[j])
  }

  predicate PrefixesDiffer(c: Checker, a: Row, b: Row) {
    RowVerdict(c, a).Anchor? && RowVerdict(c, b).Anchor? ==> StablePrefix(a.raw) != StablePrefix(b.raw)
  }

  /** Each reconciliation of a plan is one of a row's. */
  lemma RowOf(c: Checker, rows: seq<Row>, r: Reconciliation) returns (k: nat)
    requires (forall x :: x in rows ==> Readable(x)) && r in Reconciliations(c, rows)
    ensures k < |rows| && RowVerdict(c, rows[k]).Anchor?
    ensures rows[k] in rows && [r] == RowReconciliation(c, rows[k])
  {
    k := GatheredFrom(rows, ReconciliationOf(c), r);
    assert rows[k] in rows;
  }

  lemma RowIsGood(c: Checker, row: Row)
    requires Readable(row) && Admissible(c, row) && RowVerdict(c, row).Anchor?
    ensures Good(RowReconciliation(c, row)[0])
  {
    PlanIsGood(c, row, RowVerdict(c, row).line);
  }

  lemma GoodRowOf(c: Checker, rows: seq<Row>, r: Reconciliation) returns (k: nat)
    requires Plannable(c, rows) && r in Reconciliations(c, rows)
    ensures k < |rows| && RowVerdict(c, rows[k]).Anchor? && rows[k].raw == r.raw && Good(r)
  {
    k := RowOf(c, rows, r);
    RowIsGood(c, rows[k]);
    assert [r][0] == RowReconciliation(c, rows[k])[0];
  }

  lemma PlannableFront(c: Checker, rows: seq<Row>)
    requires Plannable(c, rows) && rows != []
    ensures Plannable(c, rows[..|rows| - 1]) && rows[|rows| - 1] in rows
  {
    var front := rows[..|rows| - 1];
    forall r | r in front ensures r in rows {}
  }

  /** The last row's prefix is not an earlier row's. */
  lemma LastIsNew(c: Checker, rows: seq<Row>)
    requires Plannable(c, rows) && rows != [] && rows[|rows| - 1] in rows
    requires RowVerdict(c, rows[|rows| - 1]).Anchor? && Plannable(c, rows[..|rows| - 1])
    ensures NewPrefix(Reconciliations(c, rows[..|rows| - 1]), RowReconciliation(c, rows[|rows| - 1])[0])
  {
    var n := |rows| - 1;
    forall x | x in Reconciliations(c, rows[..n])
      ensures x.stablePrefix != RowReconciliation(c, rows[n])[0].stablePrefix
    {
      var k := RowOf(c, rows[..n], x);
      assert x.stablePrefix == StablePrefix(rows[k].raw) by { assert [x][0] == RowReconciliation(c, rows[k])[0]; }
      assert PrefixesDiffer(c, rows[k], rows[n]);
    }
  }

  /** The plan of such rows is a good batch. */
  lemma {:induction false} BatchIsGood(c: Checker, rows: seq<Row>)
    requires Plannable(c, rows)
    ensures GoodBatch(Reconciliations(c, rows))
  {
    if rows != [] {
      var front, row := rows[..|rows| - 1], rows[|rows| - 1];
      PlannableFront(c, rows);
      BatchIsGood(c, front);
      var recs, more := Reconciliations(c, front), RowReconciliation(c, row);
      assert Reconciliations(c, rows) == recs + more;
      if RowVerdict(c, row).Anchor? {
        RowIsGood(c, row);
        LastIsNew(c, rows);
        OneMoreGood(recs, more[0]);
        assert more == [more[0]];
      } else {
        assert recs + more == recs;
      }
    }
  }

  lemma OneMoreGood(recs: seq<Reconciliation>, r: Reconciliation)
    requires GoodBatch(recs) && Good(r) && NewPrefix(recs, r)
    ensures GoodBatch(recs + [r])
  {
  }

  // ----- the table a run leaves -----

  /** A row that stands in the table is anchored where it stands, or on the copy of its
      citation right before it. */
  lemma RowSite(parts: seq<string>, r: Reconciliation, i: nat) returns (a: nat)
    requires Good(r) && Reads(parts, r.raw, i) && PieceReconcile(parts, r).Some?
    ensures a == (if Reanchor.LeftTwin(parts, i) then i - 1 else i) && parts[a] == r.raw
    ensures PieceReconcile(parts, r).value.0 == parts[a := r.newRaw] && PieceCount(parts, r.raw) == 1
  {
    Standing(parts, r.raw, i);
    if PieceCount(parts, r.raw) >= 2 { TwiceRefused(parts, r); }
    a := OnePiece(parts, r.raw, r.newRaw);
    if i > 1 && parts[i - 1] == r.raw { assert Inner(parts, i - 1); }
  }

  /** Around an anchored row, the pieces of its prefix stand still. */
  lemma ClassAfter(p0: seq<string>, p: seq<string>, r: Reconciliation, i: nat, j: nat)
    requires |p0| == |p| && AnchoredRow(p0, p, r) && Good(r)
    requires Reads(p0, r.raw, i) && j < |p0| && Matches(p0[j], r.stablePrefix)
    ensures p[j] == if j == (if Reanchor.LeftTwin(p0, i) then i - 1 else i) then r.newRaw else p0[j]
  {
    var a := RowSite(p0, r, i);
  }

  /** What stands at a row's place after the run, when the plan anchors the row. */
  lemma AnchoredPiece(c: Checker, rows: seq<Row>, at: seq<nat>, p0: seq<string>, p: seq<string>, k: nat)
    requires Plannable(c, rows) && Reanchor.ListsRows(p0, rows, at) && k < |rows| && rows[k] in rows
    requires Anchored(p0, p, Reconciliations(c, rows)) && RowVerdict(c, rows[k]).Anchor?
    ensures p[at[k]] == if Reanchor.LeftTwin(p0, at[k]) then rows[k].raw else SettledRow(c, rows[k]).raw
  {
    var r := RowReconciliation(c, rows[k])[0];
    GatheredHas(rows, ReconciliationOf(c), k, r);
    RowIsGood(c, rows[k]);
    assert AnchoredRow(p0, p, r);
    ClassAfter(p0, p, r, at[k], at[k]);
  }

  /** And when it does not. */
  lemma OtherPiece(c: Checker, rows: seq<Row>, at: seq<nat>, p0: seq<string>, p: seq<string>, k: nat)
    requires Plannable(c, rows) && Reanchor.ListsRows(p0, rows, at) && k < |rows|
    requires Anchored(p0, p, Reconciliations(c, rows)) && !RowVerdict(c, rows[k]).Anchor?
    ensures p[at[k]] == rows[k].raw
  {
    var recs := Reconciliations(c, rows);
    if !Unclaimed(p0[at[k]], recs) {
      var x :| x in recs && Matches(p0[at[k]], x.stablePrefix);
      OtherClass(c, rows, at, p0, p, k, x);
    }
  }

  lemma OtherInClass(p0: seq<string>, p: seq<string>, x: Reconciliation, i: nat, j: nat)
    requires |p0| == |p| && AnchoredRow(p0, p, x) && Good(x)
    requires Reads(p0, x.raw, i) && j < |p0| && Matches(p0[j], x.stablePrefix) && (i + 2 <= j || j + 2 <= i)
    ensures p[j] == p0[j]
  {
    ClassAfter(p0, p, x, i, j);
  }

  lemma OtherClass(c: Checker, rows: seq<Row>, at: seq<nat>, p0: seq<string>, p: seq<string>, k: nat, x: Reconciliation)
    requires Plannable(c, rows) && Reanchor.ListsRows(p0, rows, at) && k < |rows|
    requires !RowVerdict(c, rows[k]).Anchor? && x in Reconciliations(c, rows) && Matches(p0[at[k]], x.stablePrefix)
    requires |p0| == |p| && AnchoredRow(p0, p, x)
    ensures p[at[k]] == rows[k].raw
  {
    var j := GoodRowOf(c, rows, x);
    assert at[k] != at[j];
    OtherInClass(p0, p, x, at[j], at[k]);
  }

  /** The row moves, and a copy of its citation stands right before its place in the table. */
  ghost predicate MovesPastTwin(c: Checker, parts: seq<string>, row: Row, i: nat)
    requires Readable(row) && Inner(parts, i)
  { Reanchor.LeftTwin(parts, i) && SettledRow(c, row) != row }

  /** Every row of the table, anchored or not, reads its settled citation at its own place,
      exactly when none that moves follows right on a copy of its own. */
  lemma TableAfter(c: Checker, rows: seq<Row>, at: seq<nat>, p0: seq<string>, p: seq<string>)
    requires Plannable(c, rows) && Reanchor.ListsRows(p0, rows, at)
    requires Anchored(p0, p, Reconciliations(c, rows))
    ensures Reanchor.ListsRows(p, SettledTable(c, rows), at)
            <==> forall k :: 0 <= k < |rows| ==> !MovesPastTwin(c, p0, rows[k], at[k])
  {
    forall k | 0 <= k < |rows|
      ensures p[at[k]] == SettledTable(c, rows)[k].raw <==> !MovesPastTwin(c, p0, rows[k], at[k]) {
      assert rows[k] in rows;
      if RowVerdict(c, rows[k]).Anchor? { AnchoredPiece(c, rows, at, p0, p, k);
      } else { OtherPiece(c, rows, at, p0, p, k); }
    }
  }

  /** Reconcile from end to end. After a run that resolves every row, over rows with distinct
      stable prefixes, the table on disk lists the settled rows, exactly when none that moved
      follows right on a copy of its citation. Planning from the settled rows and running
      again refuses the same rows as before and changes nothing; what the second run refuses
      are exactly the rows that moved onto a citation already standing elsewhere in their doc
      or in the table. */
  lemma ReconcileSettles(env: Env, c: Checker, rows: seq<Row>, at: seq<nat>)
    requires Faithful(env.doc) && Faithful(env.table) && Plannable(c, rows)
    requires Reanchor.ListsRows(env.table.pieces(env.disk(env.tablePath)), rows, at)
    requires forall r :: r in Reconciliations(c, rows) ==> env.docPath(r.doc) != env.tablePath
    requires ReconcileRun(env, Reconciliations(c, rows)).unresolved == []
    ensures var recs, rows' := Reconciliations(c, rows), SettledTable(c, rows);
      var after := Written(env, ReconcileRun(env, recs));
      && (Reanchor.ListsRows(after.table.pieces(after.disk(after.tablePath)), rows', at)
          <==> forall k :: 0 <= k < |rows| ==>
                 !MovesPastTwin(c, env.table.pieces(env.disk(env.tablePath)), rows[k], at[k]))
      && (forall r :: r in rows' ==> Readable(r)) && Refusals(c, rows') == Refusals(c, rows)
    ensures var recs, rows' := Reconciliations(c, rows), SettledTable(c, rows);
      var again := ReconcileRun(Written(env, ReconcileRun(env, recs)), Reconciliations(c, rows'));
      && again.changed == {} && again.total == 0 && again.unresolved == Gathered(recs, Collision(env))
      && (again.unresolved == [] <==> forall r :: r in recs ==> !DocCollides(env, r) && !TableCollides(env, r))
  {
    var recs := Reconciliations(c, rows);
    var b := ReconcileRun(env, recs);
    BatchIsGood(c, rows);
    ReconcileAnchors(env, recs);
    RunUnmarked(env, recs);
    WrittenReads(env, b);
    TableAfter(c, rows, at, env.table.pieces(env.disk(env.tablePath)), env.table.pieces(b.table));
    PlanOfSettled(c, rows);
    ReconcileConverges(env, recs);
  }

  // ----- a second run that refuses -----

  lemma SliceOfLiteral(open: string, body: string, close: string)
    requires open != "" && close != "" && close[0] == '\n' && '\n' !in body
    ensures Between(open + body + close, open, close) == Some((|open|, |open| + |body|))
  {
    var text := open + body + close;
    assert text[0..|open|] == open;
    assert At(text, 0, open);
    FirstIndex(text, open, 0, 0);
    var end := |open| + |body|;
    assert text[end..end + |close|] == close;
    forall j | |open| <= j < end ensures !At(text, j, close) {
      assert text[j] == body[j - |open|];
      if j + |close| <= |text| { assert text[j..j + |close|][0] == text[j]; }
    }
    FirstIndex(text, close, |open|, end);
  }

  /** A table file whose literal reads as these pieces. */
  function TableOf(parts: seq<string>): string { TABLE_START + Join(parts, '"') + TABLE_END }

  lemma {:induction false} JoinLacks(parts: seq<string>, d: char, ch: char)
    requires Free(parts, ch) && d != ch
    ensures ch !in Join(parts, d)
  {
    if |parts| > 1 { JoinLacks(parts[1..], d, ch); }
  }

  lemma TableOfPieces(parts: seq<string>)
    requires |parts| >= 1 && Free(parts, '"') && Free(parts, '\n')
    ensures TablePieces(TableOf(parts)) == parts
  {
    var body := Join(parts, '"');
    JoinLacks(parts, '"', '\n');
    EndMarker();
    SliceOfLiteral(TABLE_START, body, TABLE_END);
    assert TableOf(parts)[|TABLE_START|..|TABLE_START| + |body|] == body;
    SplitJoin(parts, '"');
  }

  /** A doc that quotes the old citation and, elsewhere, the new one. */
  function BothStand(r: Reconciliation): seq<string> { ["", r.raw, "", r.newRaw, ""] }

  lemma BothStandReads(r: Reconciliation)
    requires Good(r) && r.raw != r.newRaw
    ensures PieceReconcile(BothStand(r), r).Some? && Collides(BothStand(r), r)
  {
    var p := BothStand(r);
    assert r.raw != "" && r.newRaw != "";
    OneOrTwinCounts(p, r.raw, 1);
    assert Stands(p, r, 1) && Stands(p, r, 3);
  }

  lemma ReadOnce(r: Reconciliation)
    requires Good(r)
    ensures PieceReconcile(["", r.raw, ""], r).Some?
  {
    assert r.raw != "";
    OneOrTwinCounts(["", r.raw, ""], r.raw, 1);
  }

  lemma OneResolves(env: Env, r: Reconciliation, docText: string, tableText: string)
    requires Faithful(env.doc) && Faithful(env.table) && Good(r)
    requires env.disk(env.docPath(r.doc)) == docText && env.disk(env.tablePath) == tableText
    requires PieceReconcile(env.doc.pieces(docText), r).Some? && PieceReconcile(env.table.pieces(tableText), r).Some?
    ensures ReconcileRun(env, [r]).unresolved == []
  {
    assert [r][..0] == [];
    assert ReconcileRun(env, [r]) == ReconcileOne(env, r, ReconcileRun(env, []));
    assert Agrees(env.doc, docText, r, env.doc.reconcile(docText, r));
    assert Agrees(env.table, tableText, r, env.table.reconcile(tableText, r));
  }

  /** Why the condition is there: in a doc that quotes the old citation and elsewhere the new
      one, with the row listed once in the table, the run resolves the row, and the run over
      what it wrote refuses it. */
  lemma SecondRunRefuses(docPath: string -> Path, tablePath: Path, r: Reconciliation)
    returns (env: Env)
    requires Good(r) && r.raw != r.newRaw && docPath(r.doc) != tablePath
    ensures env.docPath == docPath && env.tablePath == tablePath && Faithful(env.doc) && Faithful(env.table)
    ensures var b := ReconcileRun(env, [r]);
      && b.unresolved == [] && DocCollides(env, r)
      && ReconcileRun(Written(env, b), [Settled(r)]).unresolved == [Unfixable(r.doc, r.newRaw, DocNotOnce)]
  {
    var docText, tableText := Join(BothStand(r), '`'), TableOf(["", r.raw, ""]);
    env := ScriptEnv(docPath, tablePath, q => if q == tablePath then tableText else docText);
    ScriptSurfacesFaithful(docPath, tablePath, env.disk);
    SplitJoin(BothStand(r), '`');
    TableOfPieces(["", r.raw, ""]);
    BothStandReads(r);
    ReadOnce(r);
    OneResolves(env, r, docText, tableText);
    RefusedAgain(env, r);
  }

  lemma RefusedAgain(env: Env, r: Reconciliation)
    requires Faithful(env.doc) && Faithful(env.table) && Good(r) && env.docPath(r.doc) != env.tablePath
    requires ReconcileRun(env, [r]).unresolved == [] && DocCollides(env, r)
    ensures ReconcileRun(Written(env, ReconcileRun(env, [r])), [Settled(r)]).unresolved
            == [Unfixable(r.doc, r.newRaw, DocNotOnce)]
  {
    ReconcileConverges(env, [r]);
    assert SettledAll([r]) == [Settled(r)] && [r][..0] == [];
    assert Gathered([r], Collision(env)) == [] + Collision(env)(r);
  }

  /** And why the table's rows have to stand apart from copies of themselves: of two
      neighbouring copies only the first is rewritten. */
  lemma TwinStaysBehind(r: Reconciliation)
    requires Good(r) && r.raw != r.newRaw
    ensures var after := RewriteTableRowReconcile(TableOf(["", r.raw, r.raw, ""]), r);
      after.Some? && TablePieces(after.value.0) == ["", r.newRaw, r.raw, ""]
  {
    var parts := ["", r.raw, r.raw, ""];
    TableOfPieces(parts);
    TableReconcile(TableOf(parts), r);
    assert r.raw != "";
    OneOrTwinCounts(parts, r.raw, 1);
  }
}
