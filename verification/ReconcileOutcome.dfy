/** When `--reconcile` succeeds, and what it reports: which rows a run refuses, how many it
    changes and which files it writes, read off the files as they stand before the run. */
module ReconcileOutcome {
  import opened PyText
  import opened Citations
  import opened Counting
  import opened Reconcile
  import opened Surfaces

  // ----- one row on one text -----

  /** The text quotes the row's citation once, or else one citation of its prefix, which its
      right neighbour may repeat. */
  ghost predicate Findable(parts: seq<string>, r: Reconciliation) {
    PieceCount(parts, r.raw) == 1 || exists a: nat :: OnlyAt(parts, r.stablePrefix, a)
  }

  ghost predicate OnlyAt(parts: seq<string>, stablePrefix: string, a: nat) {
    && Inner(parts, a) && Matches(parts[a], stablePrefix)
    && forall j :: Inner(parts, j) && Matches(parts[j], stablePrefix) ==> j == a || j == a + 1
  }

  lemma {:induction false} FoundOnce(parts: seq<string>, stablePrefix: string, a: nat)
    requires OnlyAt(parts, stablePrefix, a)
    ensures |FindAll(parts, stablePrefix)| == 1
  {
    if a == 1 {
      forall j | Inner(parts[2..], j) ensures !Matches(parts[2..][j], stablePrefix) { assert Inner(parts, j + 2); }
      NothingFound(parts[2..], stablePrefix);
    } else {
      assert Inner(parts, 1);
      forall j | Inner(parts[1..], j) && Matches(parts[1..][j], stablePrefix) ensures j == a - 1 || j == a {
        assert Inner(parts, j + 1);
      }
      FoundOnce(parts[1..], stablePrefix, a - 1);
    }
  }

  lemma {:induction false} NothingFound(parts: seq<string>, stablePrefix: string)
    requires forall j :: Inner(parts, j) ==> !Matches(parts[j], stablePrefix)
    ensures FindAll(parts, stablePrefix) == []
  {
    if |parts| >= 3 {
      assert Inner(parts, 1);
      forall j | Inner(parts[1..], j) ensures !Matches(parts[1..][j], stablePrefix) { assert Inner(parts, j + 1); }
      NothingFound(parts[1..], stablePrefix);
    }
  }

  lemma FindableIff(parts: seq<string>, r: Reconciliation)
    requires Good(r)
    ensures PieceReconcile(parts, r).Some? <==> Findable(parts, r)
  {
    if PieceCount(parts, r.raw) != 1 {
      if |FindAll(parts, r.stablePrefix)| == 1 {
        var a := FoundSite(parts, r.stablePrefix, r.newRaw);
        assert OnlyAt(parts, r.stablePrefix, a);
      } else if Findable(parts, r) {
        var a: nat :| OnlyAt(parts, r.stablePrefix, a);
        FoundOnce(parts, r.stablePrefix, a);
      }
    }
  }

  // ----- the texts of a run -----

  ghost predicate DocClassKept(env: Env, b: Batch, p: Path, stablePrefix: string) {
    SameClass(env.doc.pieces(env.disk(p)), env.doc.pieces(DocText(env, b.docs, p)), stablePrefix)
  }

  /** No piece of the prefix has moved in any text. */
  ghost predicate ClassKept(env: Env, b: Batch, stablePrefix: string) {
    && SameClass(env.table.pieces(env.disk(env.tablePath)), env.table.pieces(b.table), stablePrefix)
    && forall p :: DocClassKept(env, b, p, stablePrefix)
  }

  lemma OtherClassKept(p0: seq<string>, p: seq<string>, r: Reconciliation, stablePrefix: string)
    requires Good(r) && r.stablePrefix != stablePrefix && SameClass(p0, p, stablePrefix) && PieceReconcile(p, r).Some?
    ensures SameClass(p0, PieceReconcile(p, r).value.0, stablePrefix)
  {
    var a := Site(p, r);
  }

  lemma StepKeepsClass(env: Env, r: Reconciliation, b0: Batch, stablePrefix: string)
    requires Faithful(env.doc) && Faithful(env.table) && Good(r) && r.stablePrefix != stablePrefix
    requires ClassKept(env, b0, stablePrefix)
    ensures ClassKept(env, ReconcileOne(env, r, b0), stablePrefix)
  {
    var b, p := ReconcileOne(env, r, b0), env.docPath(r.doc);
    var text := DocText(env, b0.docs, p);
    assert Agrees(env.doc, text, r, env.doc.reconcile(text, r));
    assert Agrees(env.table, b0.table, r, env.table.reconcile(b0.table, r));
    assert DocClassKept(env, b0, p, stablePrefix);
    var doc, table := env.doc.pieces(text), env.table.pieces(b0.table);
    if PieceReconcile(doc, r).Some? { OtherClassKept(env.doc.pieces(env.disk(p)), doc, r, stablePrefix); }
    if PieceReconcile(table, r).Some? {
      OtherClassKept(env.table.pieces(env.disk(env.tablePath)), table, r, stablePrefix);
    }
    forall q ensures DocClassKept(env, b, q, stablePrefix) { assert DocClassKept(env, b0, q, stablePrefix); }
  }

  lemma {:induction false} RunKeepsClass(env: Env, recs: seq<Reconciliation>, stablePrefix: string)
    requires Faithful(env.doc) && Faithful(env.table)
    requires forall r :: r in recs ==> Good(r) && r.stablePrefix != stablePrefix
    ensures ClassKept(env, ReconcileRun(env, recs), stablePrefix)
  {
    if recs == [] {
      forall p ensures DocClassKept(env, ReconcileRun(env, []), p, stablePrefix) {}
    } else {
      var n := |recs| - 1;
      assert recs[n] in recs && forall r :: r in recs[..n] ==> r in recs;
      RunKeepsClass(env, recs[..n], stablePrefix);
      StepKeepsClass(env, recs[n], ReconcileRun(env, recs[..n]), stablePrefix);
    }
  }

  // ----- what a run reports -----

  ghost function DocOf(env: Env, r: Reconciliation): seq<string> { env.doc.pieces(env.disk(env.docPath(r.doc))) }

  ghost function TableOf(env: Env): seq<string> { env.table.pieces(env.disk(env.tablePath)) }

  ghost function Refused(env: Env): Reconciliation -> seq<Unfixable> {
    (r: Reconciliation) =>
      if !Findable(DocOf(env, r), r) then [Unfixable(r.doc, r.raw, DocNotOnce)]
      else if !Findable(TableOf(env), r) then [Unfixable(r.doc, r.raw, TableNotOnce)] else []
  }

  /** Reconciling the row on its own would change the text. */
  ghost predicate Moves(parts: seq<string>, r: Reconciliation) {
    PieceReconcile(parts, r).Some? && PieceReconcile(parts, r).value.0 != parts
  }

  /** The rows of a run that change their doc or the table. */
  ghost function Changes(env: Env): Reconciliation -> bool {
    (r: Reconciliation) => Refused(env)(r) == [] && (Moves(DocOf(env, r), r) || Moves(TableOf(env), r))
  }

  /** A row meets, in the middle of a run, what it would meet on its own. */
  lemma MeetsTheSame(p0: seq<string>, p: seq<string>, r: Reconciliation)
    requires Good(r) && SameClass(p0, p, r.stablePrefix)
    ensures PieceReconcile(p, r).Some? <==> Findable(p0, r)
    ensures PieceReconcile(p, r).Some? ==> (PieceReconcile(p, r).value.1 <==> Moves(p0, r))
  {
    ClassCount(p0, p, r.stablePrefix, r.raw);
    ClassFind(p0, p, r.stablePrefix);
    FindableIff(p0, r);
    if PieceReconcile(p, r).Some? {
      var a := Site(p0, r);
      var b := SameSite(p0, p, r);
    }
  }

  /** The files a row's change is written to. */
  ghost predicate Writes(env: Env, r: Reconciliation, p: Path) {
    && Refused(env)(r) == []
    && ((p == env.docPath(r.doc) && Moves(DocOf(env, r), r)) || (p == env.tablePath && Moves(TableOf(env), r)))
  }

  lemma ReportStep(env: Env, r: Reconciliation, b0: Batch)
    requires Faithful(env.doc) && Faithful(env.table) && Good(r) && ClassKept(env, b0, r.stablePrefix)
    ensures var b := ReconcileOne(env, r, b0);
      && b.unresolved == b0.unresolved + Refused(env)(r)
      && b.total == b0.total + (if Changes(env)(r) then 1 else 0)
      && forall p :: p in b.changed <==> p in b0.changed || Writes(env, r, p)
  {
    var p := env.docPath(r.doc);
    var text := DocText(env, b0.docs, p);
    assert Agrees(env.doc, text, r, env.doc.reconcile(text, r));
    assert Agrees(env.table, b0.table, r, env.table.reconcile(b0.table, r));
    assert DocClassKept(env, b0, p, r.stablePrefix);
    MeetsTheSame(DocOf(env, r), env.doc.pieces(text), r);
    MeetsTheSame(TableOf(env), env.table.pieces(b0.table), r);
  }

  ghost predicate SomeWrites(env: Env, recs: seq<Reconciliation>, p: Path) {
    exists r :: r in recs && Writes(env, r, p)
  }

  lemma OneMoreWrites(env: Env, recs: seq<Reconciliation>, p: Path)
    requires recs != []
    ensures SomeWrites(env, recs, p) <==> SomeWrites(env, recs[..|recs| - 1], p) || Writes(env, recs[|recs| - 1], p)
  {
    assert recs == recs[..|recs| - 1] + [recs[|recs| - 1]];
  }

  /** A run over rows with distinct stable prefixes refuses exactly those that are not found in
      their doc or in the table, in order and with the text at fault; counts those that change
      either; and marks for writing the texts they change. */
  lemma {:induction false} ReconcileReports(env: Env, recs: seq<Reconciliation>)
    requires Faithful(env.doc) && Faithful(env.table) && GoodBatch(recs)
    ensures var b := ReconcileRun(env, recs);
      && b.unresolved == Gathered(recs, Refused(env)) && b.total == CountOf(recs, Changes(env))
      && forall p :: p in b.changed <==> SomeWrites(env, recs, p)
  {
    if recs != [] {
      var n := |recs| - 1;
      ReconcileReports(env, recs[..n]);
      RunKeepsClass(env, recs[..n], recs[n].stablePrefix);
      ReportStep(env, recs[n], ReconcileRun(env, recs[..n]));
      forall p: Path
        ensures SomeWrites(env, recs, p) <==> SomeWrites(env, recs[..n], p) || Writes(env, recs[n], p)
      {
        OneMoreWrites(env, recs, p);
      }
    }
  }

  /** Over the script's files: it goes through exactly when every row is found in its doc and
      in the table. */
  lemma ReconcileResolvesIff(
    docPath: string -> Path, tablePath: Path, disk: Path -> string, recs: seq<Reconciliation>)
    requires GoodBatch(recs)
    ensures ReconcileRun(ScriptEnv(docPath, tablePath, disk), recs).unresolved == []
      <==> forall r :: r in recs ==>
             Findable(DocPieces(disk(docPath(r.doc))), r) && Findable(TablePieces(disk(tablePath)), r)
  {
    var env := ScriptEnv(docPath, tablePath, disk);
    ScriptSurfacesFaithful(docPath, tablePath, disk);
    ReconcileReports(env, recs);
    GatheredEmpty(recs, Refused(env));
    forall r | r in recs ensures DocOf(env, r) == DocPieces(disk(docPath(r.doc))) {}
    if forall k :: 0 <= k < |recs| ==> Refused(env)(recs[k]) == [] {
      forall r | r in recs ensures Refused(env)(r) == [] { var k :| 0 <= k < |recs| && recs[k] == r; }
    }
  }

  lemma Shows(p0: seq<string>, p: seq<string>, r: Reconciliation)
    requires Good(r) && |p0| == |p| && AnchoredRow(p0, p, r) && Moves(p0, r)
    ensures p != p0
  {
    var a := Site(p0, r);
    assert p[a] == r.newRaw != p0[a];
  }

  /** And the texts it marks for writing are exactly those that read differently afterwards. */
  lemma WritesWhatChanged(env: Env, recs: seq<Reconciliation>)
    requires Faithful(env.doc) && Faithful(env.table) && GoodBatch(recs)
    requires ReconcileRun(env, recs).unresolved == [] && forall r :: r in recs ==> env.docPath(r.doc) != env.tablePath
    ensures var b := ReconcileRun(env, recs);
      && (env.tablePath in b.changed <==> env.table.pieces(b.table) != TableOf(env))
      && forall p :: p != env.tablePath ==> (p in b.changed <==> !SameDoc(env, b, p))
  {
    var b := ReconcileRun(env, recs);
    ReconcileReports(env, recs);
    ReconcileAnchors(env, recs);
    RunUnmarked(env, recs);
    forall p | p in b.changed
      ensures if p == env.tablePath then env.table.pieces(b.table) != TableOf(env) else !SameDoc(env, b, p)
    {
      var r :| r in recs && Writes(env, r, p);
      if p == env.tablePath {
        Shows(TableOf(env), env.table.pieces(b.table), r);
      } else {
        DocRecsWithin(env, recs, p);
        assert DocAnchored(env, recs, b, p);
        Shows(DocOf(env, r), env.doc.pieces(DocText(env, b.docs, p)), r);
      }
    }
  }
}
