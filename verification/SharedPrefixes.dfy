/** Rows of one stable prefix in a `--reconcile` run: the fallback pattern cannot tell them
    apart. Which batches still leave every row's citation behind, and which can lose one. */
module SharedPrefixes {
  import opened PyText
  import opened Citations
  import opened Reconcile
  import opened Surfaces
  import ReconcileRuns

  // ----- what a run leaves of a row -----

  /** The row's new citation is quoted in its doc and in the table. */
  ghost predicate Carried(env: Env, r: Reconciliation) { DocCount(env, r) >= 1 && TableCount(env, r) >= 1 }

  /** If the run resolves every row, the files it leaves carry them all. */
  ghost predicate Survive(env: Env, recs: seq<Reconciliation>) {
    var b := ReconcileRun(env, recs);
    b.unresolved == [] ==> forall r :: r in recs ==> Carried(Written(env, b), r)
  }

  /** Rows of one prefix are to read the same. */
  predicate Agree(a: Reconciliation, b: Reconciliation) { a.stablePrefix == b.stablePrefix ==> a.newRaw == b.newRaw }

  ghost predicate AllAgree(recs: seq<Reconciliation>) {
    forall i, j :: 0 <= i < j < |recs| ==> Agree(recs[i], recs[j])
  }

  /** The same of the rows that cite from one doc. */
  ghost predicate DocsAgree(docPath: string -> Path, recs: seq<Reconciliation>) {
    forall i, j :: 0 <= i < j < |recs| && docPath(recs[i].doc) == docPath(recs[j].doc) ==> Agree(recs[i], recs[j])
  }

  ghost predicate GoodRecs(docPath: string -> Path, tablePath: Path, recs: seq<Reconciliation>) {
    forall r :: r in recs ==> Good(r) && docPath(r.doc) != tablePath
  }

  /** Reconciling one row never takes the citation of another that agrees with it. */
  lemma Keeps(parts: seq<string>, x: Reconciliation, r: Reconciliation)
    requires Good(x) && Good(r) && Agree(r, x) && PieceReconcile(parts, x).Some?
    requires PieceCount(parts, r.newRaw) >= 1
    ensures PieceCount(PieceReconcile(parts, x).value.0, r.newRaw) >= 1
  {
    var a := Site(parts, x);
    var b := FirstPlace(parts, r.newRaw);
    assert Reads(PieceReconcile(parts, x).value.0, r.newRaw, b);
    Standing(PieceReconcile(parts, x).value.0, r.newRaw, b);
  }

  lemma Shows(parts: seq<string>, r: Reconciliation)
    requires Good(r) && PieceReconcile(parts, r).Some?
    ensures PieceCount(PieceReconcile(parts, r).value.0, r.newRaw) >= 1
  {
    AnchoredOnce(parts, r);
  }

  ghost predicate DocHas(env: Env, b: Batch, r: Reconciliation) {
    PieceCount(env.doc.pieces(DocText(env, b.docs, env.docPath(r.doc))), r.newRaw) >= 1
  }

  ghost predicate TableHas(env: Env, b: Batch, r: Reconciliation) {
    PieceCount(env.table.pieces(b.table), r.newRaw) >= 1
  }

  /** One more row that resolves shows in both texts, and a text keeps the rows that agree. */
  lemma DocStep(env: Env, x: Reconciliation, b0: Batch, r: Reconciliation)
    requires Faithful(env.doc) && Good(x) && ReconcileOne(env, x, b0).unresolved == b0.unresolved
    requires r == x || (Good(r) && DocHas(env, b0, r))
    requires env.docPath(r.doc) == env.docPath(x.doc) ==> Agree(r, x)
    ensures DocHas(env, ReconcileOne(env, x, b0), r)
  {
    var text := DocText(env, b0.docs, env.docPath(x.doc));
    assert Agrees(env.doc, text, x, env.doc.reconcile(text, x));
    if r == x { Shows(env.doc.pieces(text), x); }
    else if env.docPath(r.doc) == env.docPath(x.doc) { Keeps(env.doc.pieces(text), x, r); }
  }

  lemma TableStep(env: Env, x: Reconciliation, b0: Batch, r: Reconciliation)
    requires Faithful(env.table) && Good(x) && ReconcileOne(env, x, b0).unresolved == b0.unresolved
    requires r == x || (Good(r) && TableHas(env, b0, r))
    requires Agree(r, x)
    ensures TableHas(env, ReconcileOne(env, x, b0), r)
  {
    assert Agrees(env.table, b0.table, x, env.table.reconcile(b0.table, x));
    if r == x { Shows(env.table.pieces(b0.table), x); } else { Keeps(env.table.pieces(b0.table), x, r); }
  }

  lemma {:induction false} DocsKeep(env: Env, recs: seq<Reconciliation>)
    requires Faithful(env.doc) && Faithful(env.table) && GoodRecs(env.docPath, env.tablePath, recs)
    requires DocsAgree(env.docPath, recs) && ReconcileRun(env, recs).unresolved == []
    ensures forall k :: 0 <= k < |recs| ==> DocHas(env, ReconcileRun(env, recs), recs[k])
  {
    if recs != [] {
      var n := |recs| - 1;
      assert recs == recs[..n] + [recs[n]];
      DocsKeep(env, recs[..n]);
      forall k | 0 <= k < |recs| ensures DocHas(env, ReconcileRun(env, recs), recs[k]) {
        if k < n { assert recs[..n][k] == recs[k]; }
        DocStep(env, recs[n], ReconcileRun(env, recs[..n]), recs[k]);
      }
    }
  }

  lemma {:induction false} TableKeeps(env: Env, recs: seq<Reconciliation>)
    requires Faithful(env.doc) && Faithful(env.table) && GoodRecs(env.docPath, env.tablePath, recs)
    requires AllAgree(recs) && ReconcileRun(env, recs).unresolved == []
    ensures forall k :: 0 <= k < |recs| ==> TableHas(env, ReconcileRun(env, recs), recs[k])
  {
    if recs != [] {
      var n := |recs| - 1;
      assert recs == recs[..n] + [recs[n]];
      TableKeeps(env, recs[..n]);
      forall k | 0 <= k < |recs| ensures TableHas(env, ReconcileRun(env, recs), recs[k]) {
        if k < n { assert recs[..n][k] == recs[k]; }
        TableStep(env, recs[n], ReconcileRun(env, recs[..n]), recs[k]);
      }
    }
  }

  /** What the working texts hold is what the files hold once written. */
  lemma WrittenCarries(env: Env, recs: seq<Reconciliation>, r: Reconciliation)
    requires Faithful(env.doc) && Faithful(env.table) && GoodRecs(env.docPath, env.tablePath, recs) && r in recs
    ensures var b := ReconcileRun(env, recs);
      Carried(Written(env, b), r) <==> DocHas(env, b, r) && TableHas(env, b, r)
  {
    RunUnmarked(env, recs);
    WrittenReads(env, ReconcileRun(env, recs));
  }

  // ----- files on which every row resolves -----

  ghost predicate SoleAt(parts: seq<string>, stablePrefix: string, a: nat) {
    && Inner(parts, a) && Matches(parts[a], stablePrefix)
    && forall j :: 0 <= j < |parts| && Matches(parts[j], stablePrefix) ==> j == a
  }

  /** One piece of the text, and no other, has the prefix. */
  ghost predicate Sole(parts: seq<string>, stablePrefix: string) { exists a: nat :: SoleAt(parts, stablePrefix, a) }

  ghost predicate AllSole(parts: seq<string>, recs: seq<Reconciliation>) {
    forall r :: r in recs ==> Sole(parts, r.stablePrefix)
  }

  lemma {:induction false} SoleFound(parts: seq<string>, stablePrefix: string, a: nat)
    requires SoleAt(parts, stablePrefix, a)
    ensures FindAll(parts, stablePrefix) == [parts[a]]
  {
    if a == 1 {
      NothingFound(parts[2..], stablePrefix);
    } else {
      assert forall j :: 0 <= j < |parts| - 1 ==> parts[1..][j] == parts[j + 1];
      SoleFound(parts[1..], stablePrefix, a - 1);
    }
  }

  lemma {:induction false} NothingFound(parts: seq<string>, stablePrefix: string)
    requires forall j :: 0 <= j < |parts| ==> !Matches(parts[j], stablePrefix)
    ensures FindAll(parts, stablePrefix) == []
  {
    if |parts| >= 3 { NothingFound(parts[1..], stablePrefix); }
  }

  /** There the row resolves, whatever it cites. */
  lemma SoleSite(parts: seq<string>, r: Reconciliation, a: nat)
    requires Good(r) && SoleAt(parts, r.stablePrefix, a)
    ensures PieceReconcile(parts, r).Some? && PieceReconcile(parts, r).value.0 == parts[a := r.newRaw]
  {
    SoleFound(parts, r.stablePrefix, a);
    var b := Site(parts, r);
  }

  lemma SoleStays(parts: seq<string>, r: Reconciliation, recs: seq<Reconciliation>)
    requires Good(r) && r in recs && AllSole(parts, recs)
    ensures PieceReconcile(parts, r).Some? && AllSole(PieceReconcile(parts, r).value.0, recs)
  {
    var a: nat :| SoleAt(parts, r.stablePrefix, a);
    SoleSite(parts, r, a);
    forall x | x in recs ensures Sole(parts[a := r.newRaw], x.stablePrefix) {
      var c: nat :| SoleAt(parts, x.stablePrefix, c);
      assert SoleAt(parts[a := r.newRaw], x.stablePrefix, c);
    }
  }

  /** Such a text cannot carry two citations of one prefix. */
  lemma SoleLoses(parts: seq<string>, a: Reconciliation, b: Reconciliation)
    requires Good(a) && Good(b) && Sole(parts, a.stablePrefix) && !Agree(a, b)
    ensures PieceCount(parts, a.newRaw) == 0 || PieceCount(parts, b.newRaw) == 0
  {
    var k: nat :| SoleAt(parts, a.stablePrefix, k);
    if PieceCount(parts, a.newRaw) >= 1 {
      var i := FirstPlace(parts, a.newRaw);
      assert parts[k] == a.newRaw;
    }
    if PieceCount(parts, b.newRaw) >= 1 { var j := FirstPlace(parts, b.newRaw); }
  }

  /** What the table reads before row `i`, as long as each row resolves there. */
  ghost predicate TableResolves(recs: seq<Reconciliation>, state: (int, seq<string>) -> bool) {
    forall i, p :: 0 <= i < |recs| && state(i, p) ==>
      PieceReconcile(p, recs[i]).Some? && state(i + 1, PieceReconcile(p, recs[i]).value.0)
  }

  ghost predicate DocSole(env: Env, b: Batch, recs: seq<Reconciliation>, p: Path) {
    AllSole(env.doc.pieces(DocText(env, b.docs, p)), recs)
  }

  ghost predicate DocsSole(env: Env, b: Batch, recs: seq<Reconciliation>) {
    forall p :: p != env.tablePath ==> DocSole(env, b, recs, p)
  }

  lemma ResolveStep(env: Env, recs: seq<Reconciliation>, r: Reconciliation, b0: Batch)
    requires Faithful(env.doc) && Faithful(env.table) && GoodRecs(env.docPath, env.tablePath, recs) && r in recs
    requires b0.unresolved == [] && DocsSole(env, b0, recs) && PieceReconcile(env.table.pieces(b0.table), r).Some?
    ensures var b := ReconcileOne(env, r, b0);
      && b.unresolved == [] && DocsSole(env, b, recs)
      && env.table.pieces(b.table) == PieceReconcile(env.table.pieces(b0.table), r).value.0
  {
    var text := DocText(env, b0.docs, env.docPath(r.doc));
    assert Agrees(env.doc, text, r, env.doc.reconcile(text, r));
    assert Agrees(env.table, b0.table, r, env.table.reconcile(b0.table, r));
    assert DocSole(env, b0, recs, env.docPath(r.doc));
    SoleStays(env.doc.pieces(text), r, recs);
    var b := ReconcileOne(env, r, b0);
    forall p | p != env.tablePath ensures DocSole(env, b, recs, p) { assert DocSole(env, b0, recs, p); }
  }

  lemma {:induction false} RunResolves(
    env: Env, recs: seq<Reconciliation>, k: nat, state: (int, seq<string>) -> bool)
    requires Faithful(env.doc) && Faithful(env.table) && GoodRecs(env.docPath, env.tablePath, recs) && k <= |recs|
    requires forall p :: p != env.tablePath ==> AllSole(env.doc.pieces(env.disk(p)), recs)
    requires TableResolves(recs, state) && state(0, env.table.pieces(env.disk(env.tablePath)))
    ensures var b := ReconcileRun(env, recs[..k]);
      b.unresolved == [] && state(k, env.table.pieces(b.table)) && DocsSole(env, b, recs)
  {
    if k > 0 {
      RunResolves(env, recs, k - 1, state);
      assert recs[..k][..k - 1] == recs[..k - 1] && recs[k - 1] in recs;
      ResolveStep(env, recs, recs[k - 1], ReconcileRun(env, recs[..k - 1]));
    }
  }

  // ----- and their texts -----

  /** One citation of each prefix. */
  function OneOfEach(recs: seq<Reconciliation>): seq<string> {
    if recs == [] then [""]
    else
      var front, r := recs[..|recs| - 1], recs[|recs| - 1];
      if exists x :: x in front && x.stablePrefix == r.stablePrefix then OneOfEach(front)
      else OneOfEach(front) + [r.raw, ""]
  }

  ghost predicate Plain(parts: seq<string>) {
    |parts| >= 1 && parts[|parts| - 1] == "" && forall i :: 0 <= i < |parts| ==> Clean(parts[i])
  }

  lemma {:induction false} OneOfEachIsSole(recs: seq<Reconciliation>)
    requires forall r :: r in recs ==> Good(r)
    ensures Plain(OneOfEach(recs)) && AllSole(OneOfEach(recs), recs)
    ensures forall q, i :: 0 <= i < |OneOfEach(recs)| && Matches(OneOfEach(recs)[i], q) ==>
              exists x :: x in recs && x.stablePrefix == q
  {
    if recs != [] {
      var front, r := recs[..|recs| - 1], recs[|recs| - 1];
      assert recs == front + [r] && r in recs;
      OneOfEachIsSole(front);
      if !(exists x :: x in front && x.stablePrefix == r.stablePrefix) { OneMoreSole(OneOfEach(front), front, r); }
    }
  }

  lemma OneMoreSole(parts: seq<string>, recs: seq<Reconciliation>, r: Reconciliation)
    requires Plain(parts) && AllSole(parts, recs) && Good(r)
    requires forall i :: 0 <= i < |parts| ==> !Matches(parts[i], r.stablePrefix)
    requires forall x :: x in recs ==> x.stablePrefix != r.stablePrefix
    ensures Plain(parts + [r.raw, ""]) && AllSole(parts + [r.raw, ""], recs + [r])
  {
    var more := parts + [r.raw, ""];
    assert SoleAt(more, r.stablePrefix, |parts|);
    forall x | x in recs ensures Sole(more, x.stablePrefix) {
      var c: nat :| SoleAt(parts, x.stablePrefix, c);
      assert SoleAt(more, x.stablePrefix, c);
    }
  }

  /** The rows' citations in order, with the first `k` rewritten. */
  function Slots(recs: seq<Reconciliation>, k: int): seq<string> {
    seq(2 * |recs| + 1, i requires 0 <= i < 2 * |recs| + 1 =>
      if i % 2 == 0 then "" else if i / 2 < k then recs[i / 2].newRaw else recs[i / 2].raw)
  }

  lemma SlotsArePlain(recs: seq<Reconciliation>)
    requires forall r :: r in recs ==> Good(r)
    ensures Plain(Slots(recs, 0))
  {
    forall i | 0 <= i < |Slots(recs, 0)| ensures Clean(Slots(recs, 0)[i]) {
      if i % 2 == 1 { assert recs[i / 2] in recs; }
    }
  }

  /** Files with these texts. */
  lemma FilesReading(docPath: string -> Path, tablePath: Path, docParts: seq<string>, tableParts: seq<string>)
    returns (env: Env)
    requires Plain(docParts) && Plain(tableParts)
    ensures env == ScriptEnv(docPath, tablePath, env.disk) && Faithful(env.doc) && Faithful(env.table)
    ensures TablePieces(env.disk(tablePath)) == tableParts == env.table.pieces(env.disk(tablePath))
    ensures forall p :: p != tablePath ==> env.doc.pieces(env.disk(p)) == docParts
  {
    var doc, table := Join(docParts, '`'), ReconcileRuns.TableOf(tableParts);
    env := ScriptEnv(docPath, tablePath, p => if p == tablePath then table else doc);
    ScriptSurfacesFaithful(docPath, tablePath, env.disk);
    SplitJoin(docParts, '`');
    ReconcileRuns.TableOfPieces(tableParts);
  }

  // ----- any files -----

  lemma SoleFilesLose(docPath: string -> Path, tablePath: Path, recs: seq<Reconciliation>, i: nat, j: nat)
    returns (env: Env)
    requires GoodRecs(docPath, tablePath, recs) && i < j < |recs| && !Agree(recs[i], recs[j])
    ensures env == ScriptEnv(docPath, tablePath, env.disk) && !Survive(env, recs)
  {
    var parts := OneOfEach(recs);
    OneOfEachIsSole(recs);
    env := FilesReading(docPath, tablePath, parts, parts);
    var state := (k: int, p: seq<string>) => AllSole(p, recs);
    forall k, p | 0 <= k < |recs| && state(k, p)
      ensures PieceReconcile(p, recs[k]).Some? && state(k + 1, PieceReconcile(p, recs[k]).value.0) {
      SoleStays(p, recs[k], recs);
    }
    RunResolves(env, recs, |recs|, state);
    assert recs[..|recs|] == recs && recs[i] in recs && recs[j] in recs;
    SoleLoses(env.table.pieces(ReconcileRun(env, recs).table), recs[i], recs[j]);
    WrittenCarries(env, recs, recs[i]);
    WrittenCarries(env, recs, recs[j]);
  }

  /** Whatever the files hold, a run that resolves every row carries every row's new citation
      into its doc and into the table: exactly when rows of one stable prefix are to read the
      same. */
  lemma SurviveIff(docPath: string -> Path, tablePath: Path, recs: seq<Reconciliation>)
    requires GoodRecs(docPath, tablePath, recs)
    ensures (forall disk: Path -> string :: Survive(ScriptEnv(docPath, tablePath, disk), recs)) <==> AllAgree(recs)
  {
    if AllAgree(recs) {
      forall disk: Path -> string ensures Survive(ScriptEnv(docPath, tablePath, disk), recs) {
        var env := ScriptEnv(docPath, tablePath, disk);
        ScriptSurfacesFaithful(docPath, tablePath, disk);
        if ReconcileRun(env, recs).unresolved == [] {
          DocsKeep(env, recs);
          TableKeeps(env, recs);
          forall r | r in recs ensures Carried(Written(env, ReconcileRun(env, recs)), r) {
            var k :| 0 <= k < |recs| && recs[k] == r;
            WrittenCarries(env, recs, r);
          }
        }
      }
    } else {
      var i, j :| 0 <= i < j < |recs| && !Agree(recs[i], recs[j]);
      var env := SoleFilesLose(docPath, tablePath, recs, i, j);
    }
  }

  // ----- files whose table lists the rows -----

  /** The table literal quotes every row's citation, in order, with text between two rows. */
  ghost predicate Lists(parts: seq<string>, recs: seq<Reconciliation>, at: seq<nat>) {
    && |at| == |recs|
    && (forall k :: 0 <= k < |at| ==> Reads(parts, recs[k].raw, at[k]))
    && forall i, j :: 0 <= i < j < |at| ==> at[i] + 2 <= at[j]
  }

  /** A table that lists both rows refuses the later one: its citation stands there twice. */
  predicate Blocks(a: Reconciliation, b: Reconciliation) { a.raw == b.raw || a.newRaw == b.raw }

  ghost predicate Unblocked(recs: seq<Reconciliation>) {
    forall i, j :: 0 <= i < j < |recs| ==> !Blocks(recs[i], recs[j])
  }

  ghost predicate NearReads(parts: seq<string>, x: string, i: nat) {
    Reads(parts, x, i) || (i > 1 && Reads(parts, x, i - 1))
  }

  /** The first `k` rows show their new citation at their place, or right before it. */
  ghost predicate Halfway(parts: seq<string>, recs: seq<Reconciliation>, at: seq<nat>, k: nat) {
    && |at| == |recs| && (forall i, j :: 0 <= i < j < |at| ==> at[i] + 2 <= at[j])
    && (forall l :: 0 <= l < |recs| && l < k ==> NearReads(parts, recs[l].newRaw, at[l]))
    && forall l :: k <= l < |recs| ==> Reads(parts, recs[l].raw, at[l])
  }

  /** None of the first `k` rows blocks another one so far. */
  ghost predicate Apart(recs: seq<Reconciliation>, k: nat) {
    forall i, j :: 0 <= i < k && i < j < |recs| ==>
      recs[i].raw != recs[j].raw && (j < k ==> recs[i].newRaw != recs[j].raw)
  }

  lemma ListedStep(parts: seq<string>, recs: seq<Reconciliation>, at: seq<nat>, k: nat)
    requires k < |recs| && Halfway(parts, recs, at, k) && Apart(recs, k)
    requires Good(recs[k]) && PieceReconcile(parts, recs[k]).Some?
    ensures Halfway(PieceReconcile(parts, recs[k]).value.0, recs, at, k + 1) && Apart(recs, k + 1)
  {
    var a := ReconcileRuns.RowSite(parts, recs[k], at[k]);
    var b := OnePiece(parts, recs[k].raw, recs[k].raw);
    var after := PieceReconcile(parts, recs[k]).value.0;
    forall l | 0 <= l < k ensures NearReads(after, recs[l].newRaw, at[l]) && recs[l].newRaw != recs[k].raw {
      assert NearReads(parts, recs[l].newRaw, at[l]) && at[l] + 2 <= at[k];
    }
    forall l | k < l < |recs| ensures Reads(after, recs[l].raw, at[l]) && recs[l].raw != recs[k].raw {
      assert Reads(parts, recs[l].raw, at[l]) && at[k] + 2 <= at[l];
    }
    assert NearReads(after, recs[k].newRaw, at[k]);
  }

  lemma ResolvedTable(env: Env, r: Reconciliation, b0: Batch)
    requires Faithful(env.table) && Good(r) && ReconcileOne(env, r, b0).unresolved == []
    ensures b0.unresolved == [] && PieceReconcile(env.table.pieces(b0.table), r).Some?
    ensures env.table.pieces(ReconcileOne(env, r, b0).table) == PieceReconcile(env.table.pieces(b0.table), r).value.0
  {
    assert Agrees(env.table, b0.table, r, env.table.reconcile(b0.table, r));
  }

  /** A run that resolves every row the table lists has shown each of them there. */
  lemma {:induction false} ListedRun(env: Env, recs: seq<Reconciliation>, at: seq<nat>, k: nat)
    requires Faithful(env.table) && k <= |recs| && forall r :: r in recs ==> Good(r)
    requires Lists(env.table.pieces(env.disk(env.tablePath)), recs, at)
    requires ReconcileRun(env, recs[..k]).unresolved == []
    ensures Halfway(env.table.pieces(ReconcileRun(env, recs[..k]).table), recs, at, k) && Apart(recs, k)
  {
    if k > 0 {
      var r, b0 := recs[k - 1], ReconcileRun(env, recs[..k - 1]);
      assert recs[..k][..k - 1] == recs[..k - 1] && r in recs;
      assert ReconcileRun(env, recs[..k]) == ReconcileOne(env, r, b0);
      ResolvedTable(env, r, b0);
      ListedRun(env, recs, at, k - 1);
      ListedStep(env.table.pieces(b0.table), recs, at, k - 1);
    }
  }

  lemma NearStanding(parts: seq<string>, x: string, i: nat)
    requires NearReads(parts, x, i)
    ensures PieceCount(parts, x) >= 1
  {
    Standing(parts, x, if Reads(parts, x, i) then i else i - 1);
  }

  lemma ListedSurvives(env: Env, recs: seq<Reconciliation>, at: seq<nat>)
    requires Faithful(env.doc) && Faithful(env.table) && GoodRecs(env.docPath, env.tablePath, recs)
    requires Lists(env.table.pieces(env.disk(env.tablePath)), recs, at)
    requires Unblocked(recs) ==> DocsAgree(env.docPath, recs)
    ensures Survive(env, recs)
  {
    var b := ReconcileRun(env, recs);
    if b.unresolved == [] {
      assert recs[..|recs|] == recs;
      ListedRun(env, recs, at, |recs|);
      DocsKeep(env, recs);
      forall r | r in recs ensures Carried(Written(env, b), r) {
        var k :| 0 <= k < |recs| && recs[k] == r;
        NearStanding(env.table.pieces(b.table), r.newRaw, at[k]);
        WrittenCarries(env, recs, r);
      }
    }
  }

  lemma SlotStep(recs: seq<Reconciliation>, k: nat)
    requires k < |recs| && Unblocked(recs) && forall r :: r in recs ==> Good(r)
    ensures PieceReconcile(Slots(recs, k), recs[k]).Some?
    ensures PieceReconcile(Slots(recs, k), recs[k]).value.0 == Slots(recs, k + 1)
  {
    var p, r := Slots(recs, k), recs[k];
    assert r in recs && r.raw != "";
    assert forall l :: 0 <= l < k ==> !Blocks(recs[l], r);
    assert forall l :: k < l < |recs| ==> !Blocks(r, recs[l]);
    forall j | Inner(p, j) && p[j] == r.raw ensures j == 2 * k + 1 {}
    OneOrTwinCounts(p, r.raw, 2 * k + 1);
    var a := OnePiece(p, r.raw, r.newRaw);
    assert p[a := r.newRaw] == Slots(recs, k + 1);
  }

  /** Such a table resolves every row, and a doc with one citation of each prefix stays one. */
  lemma SlotsResolve(env: Env, recs: seq<Reconciliation>)
    requires Faithful(env.doc) && Faithful(env.table) && GoodRecs(env.docPath, env.tablePath, recs)
    requires forall p :: p != env.tablePath ==> AllSole(env.doc.pieces(env.disk(p)), recs)
    requires env.table.pieces(env.disk(env.tablePath)) == Slots(recs, 0) && Unblocked(recs)
    ensures ReconcileRun(env, recs).unresolved == [] && DocsSole(env, ReconcileRun(env, recs), recs)
  {
    var state := (k: int, p: seq<string>) => p == Slots(recs, k);
    forall k, p | 0 <= k < |recs| && state(k, p)
      ensures PieceReconcile(p, recs[k]).Some? && state(k + 1, PieceReconcile(p, recs[k]).value.0) {
      SlotStep(recs, k);
    }
    RunResolves(env, recs, |recs|, state);
    assert recs[..|recs|] == recs;
  }

  lemma SlotsList(recs: seq<Reconciliation>) returns (at: seq<nat>)
    ensures Lists(Slots(recs, 0), recs, at)
  {
    at := seq(|recs|, i requires 0 <= i < |recs| => 2 * i + 1);
  }

  /** The doc of two rows that disagree ends up without one of them. */
  lemma DocLoses(env: Env, recs: seq<Reconciliation>, i: nat, j: nat)
    requires Faithful(env.doc) && Faithful(env.table) && GoodRecs(env.docPath, env.tablePath, recs)
    requires ReconcileRun(env, recs).unresolved == [] && DocsSole(env, ReconcileRun(env, recs), recs)
    requires i < j < |recs| && env.docPath(recs[i].doc) == env.docPath(recs[j].doc) && !Agree(recs[i], recs[j])
    ensures !Survive(env, recs)
  {
    var b, p := ReconcileRun(env, recs), env.docPath(recs[i].doc);
    assert recs[i] in recs && recs[j] in recs && DocSole(env, b, recs, p);
    SoleLoses(env.doc.pieces(DocText(env, b.docs, p)), recs[i], recs[j]);
    WrittenCarries(env, recs, recs[i]);
    WrittenCarries(env, recs, recs[j]);
  }

  /** The same as `SurviveIff` over the files the script meets, whose table lists the rows it
      was planned from: there the table keeps every row, and only rows that cite from one doc
      have to agree, unless the batch holds two of which no such table resolves both. */
  lemma ListedSurviveIff(docPath: string -> Path, tablePath: Path, recs: seq<Reconciliation>)
    requires GoodRecs(docPath, tablePath, recs)
    ensures (forall disk: Path -> string, at: seq<nat> :: Lists(TablePieces(disk(tablePath)), recs, at)
               ==> Survive(ScriptEnv(docPath, tablePath, disk), recs))
            <==> (Unblocked(recs) ==> DocsAgree(docPath, recs))
  {
    if Unblocked(recs) ==> DocsAgree(docPath, recs) {
      forall disk: Path -> string, at: seq<nat> | Lists(TablePieces(disk(tablePath)), recs, at)
        ensures Survive(ScriptEnv(docPath, tablePath, disk), recs) {
        ScriptSurfacesFaithful(docPath, tablePath, disk);
        ListedSurvives(ScriptEnv(docPath, tablePath, disk), recs, at);
      }
    } else {
      var i, j :| 0 <= i < j < |recs| && docPath(recs[i].doc) == docPath(recs[j].doc) && !Agree(recs[i], recs[j]);
      OneOfEachIsSole(recs);
      SlotsArePlain(recs);
      var env := FilesReading(docPath, tablePath, OneOfEach(recs), Slots(recs, 0));
      var at := SlotsList(recs);
      SlotsResolve(env, recs);
      DocLoses(env, recs, i, j);
      assert Lists(TablePieces(env.disk(tablePath)), recs, at);
    }
  }

  /** Such a run: the table lists both rows, the doc has lost the first one's citation, and
      both rows resolve; the second takes what the first had just written. */
  lemma SharedPrefixLosesARow(docPath: string -> Path, tablePath: Path, r1: Reconciliation, r2: Reconciliation)
    returns (env: Env)
    requires GoodRecs(docPath, tablePath, [r1, r2]) && docPath(r1.doc) == docPath(r2.doc)
    requires r1.stablePrefix == r2.stablePrefix && r1.newRaw != r2.newRaw && !Blocks(r1, r2)
    ensures env == ScriptEnv(docPath, tablePath, env.disk)
    ensures env.doc.pieces(env.disk(docPath(r1.doc))) == ["", r2.raw, ""]
    ensures env.table.pieces(env.disk(tablePath)) == ["", r1.raw, "", r2.raw, ""]
    ensures var b := ReconcileRun(env, [r1, r2]);
      b.unresolved == [] && DocCount(Written(env, b), r1) == 0 && DocCount(Written(env, b), r2) >= 1
  {
    var recs, docParts := [r1, r2], ["", r2.raw, ""];
    assert r1 in recs && r2 in recs && recs[0] == r1 && recs[1] == r2;
    SlotsArePlain(recs);
    assert Slots(recs, 0) == ["", r1.raw, "", r2.raw, ""];
    env := FilesReading(docPath, tablePath, docParts, Slots(recs, 0));
    assert SoleAt(docParts, r2.stablePrefix, 1);
    assert AllSole(docParts, recs);
    SlotsResolve(env, recs);
    SecondTakes(env, r1, r2);
  }

  lemma SecondTakes(env: Env, r1: Reconciliation, r2: Reconciliation)
    requires Faithful(env.doc) && Faithful(env.table) && GoodRecs(env.docPath, env.tablePath, [r1, r2])
    requires env.docPath(r1.doc) == env.docPath(r2.doc) && !Agree(r1, r2)
    requires var b := ReconcileRun(env, [r1, r2]); b.unresolved == [] && DocsSole(env, b, [r1, r2])
    ensures var after := Written(env, ReconcileRun(env, [r1, r2]));
      DocCount(after, r1) == 0 && DocCount(after, r2) >= 1
  {
    var recs, p := [r1, r2], env.docPath(r1.doc);
    var b := ReconcileRun(env, recs);
    assert r1 in recs && r2 in recs && recs[..1] == [r1] && recs[1] == r2 && DocSole(env, b, recs, p);
    DocStep(env, r2, ReconcileRun(env, [r1]), r2);
    SoleLoses(env.doc.pieces(DocText(env, b.docs, p)), r1, r2);
    RunUnmarked(env, recs);
    WrittenReads(env, b);
  }
}
