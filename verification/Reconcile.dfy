/** The `--reconcile` half of scripts/reanchor_citations.py: doc and table are both forced
    to the citation derived from the source, found by its exact text or, where the two
    surfaces have diverged, by its stable `path:symbol` prefix. */
module Reconcile {
  import opened Counting
  import opened PyText
  import opened Decimal
  import opened Citations
  import opened Surfaces

  datatype Reconciliation =
    Reconciliation(doc: string, raw: string, stablePrefix: string, newRaw: string, resolvePath: string)

  // ----- planning -----

  datatype Verdict = Skip | Refuse(reason: Reason) | Anchor(line: nat)

  function RowVerdict(c: Checker, row: Row): Verdict {
    var tail := After(row.raw, ':');
    if LegacySpec(tail) then Refuse(LineOnly)
    else if CitedLine(tail).None? then Skip
    else match c.locate(row.resolvePath, Symbol(tail), row.token)
      case Unresolved(files) =>
        if files == 0 && (row.doc, row.raw) in c.absentOk then Skip else Refuse(NotOneFile)
      case TokenMissing => Refuse(SymbolNotFound)
      case Line(n) => Anchor(n)
  }

  function StablePrefix(raw: string): string { Before(raw, ':') + ":" + Symbol(After(raw, ':')) }

  function RowReconciliation(c: Checker, row: Row): seq<Reconciliation>
    requires Readable(row)
  {
    match RowVerdict(c, row)
    case Anchor(n) =>
      [Reconciliation(row.doc, row.raw, StablePrefix(row.raw), NewRaw(row.raw, n), row.resolvePath)]
    case _ => []
  }

  function Reconciliations(c: Checker, rows: seq<Row>): seq<Reconciliation>
    requires forall r :: r in rows ==> Readable(r)
  { Gathered(rows, ReconciliationOf(c)) }

  function ReconciliationOf(c: Checker): Row -> seq<Reconciliation> {
    (row: Row) => if Readable(row) then RowReconciliation(c, row) else []
  }

  function RowRefusal(c: Checker, row: Row): seq<Unfixable> {
    match RowVerdict(c, row) case Refuse(why) => [Unfixable(row.doc, row.raw, why)] case _ => []
  }

  function RefusalOf(c: Checker): Row -> seq<Unfixable> { (row: Row) => RowRefusal(c, row) }

  function Refusals(c: Checker, rows: seq<Row>): seq<Unfixable> { Gathered(rows, RefusalOf(c)) }

  /** One pass of the planning loop. */
  method PlanRow(c: Checker, row: Row) returns (rec: seq<Reconciliation>, refused: seq<Unfixable>)
    requires Readable(row)
    ensures rec == RowReconciliation(c, row) && refused == RowRefusal(c, row)
  {
    rec, refused := [], [];
    match RowVerdict(c, row)
    case Skip =>
    case Refuse(why) => refused := [Unfixable(row.doc, row.raw, why)];
    case Anchor(n) =>
      rec := [Reconciliation(row.doc, row.raw, StablePrefix(row.raw), NewRaw(row.raw, n), row.resolvePath)];
  }

  method ReconcilePlan(c: Checker, rows: seq<Row>)
    returns (recs: seq<Reconciliation>, unfixable: seq<Unfixable>)
    requires forall r :: r in rows ==> Readable(r)
    ensures recs == Reconciliations(c, rows) && unfixable == Refusals(c, rows)
  {
    recs, unfixable := [], [];
    for i := 0 to |rows|
      invariant recs == Reconciliations(c, rows[..i]) && unfixable == Refusals(c, rows[..i])
    {
      assert rows[..i + 1][..i] == rows[..i];
      assert rows[i] in rows;
      var rec, refused := PlanRow(c, rows[i]);
      recs, unfixable := recs + rec, unfixable + refused;
    }
    assert rows[..|rows|] == rows;
  }

  // ----- one rewrite -----

  /** The fallback pattern, `prefix:line` or `prefix:line-line`. */
  predicate Matches(piece: string, stablePrefix: string) {
    ':' in piece && RBefore(piece, ':') == stablePrefix && LegacySpec(RAfter(piece, ':'))
  }

  /** `re.findall` of the delimited pattern: non-overlapping, so a match uses up the
      delimiter its right neighbour would need. */
  function FindAll(parts: seq<string>, stablePrefix: string): seq<string> {
    if |parts| < 3 then []
    else if Matches(parts[1], stablePrefix) then [parts[1]] + FindAll(parts[2..], stablePrefix)
    else FindAll(parts[1..], stablePrefix)
  }

  /** Reconciling one quoted citation in a text, with `d` the quote of the surface: the new
      text, and whether anything changed. */
  function ReconcileIn(text: string, r: Reconciliation, d: char): Option<(string, bool)> {
    if Count(text, Quoted(r.raw, d)) == 1 then
      Some((ReplaceFirst(text, Quoted(r.raw, d), Quoted(r.newRaw, d)), r.raw != r.newRaw))
    else
      var found := FindAll(Split(text, d), r.stablePrefix);
      if |found| != 1 then None
      else Some((ReplaceFirst(text, Quoted(found[0], d), Quoted(r.newRaw, d)), found[0] != r.newRaw))
  }

  function RewriteReconcile(text: string, r: Reconciliation): Option<(string, bool)> {
    ReconcileIn(text, r, '`')
  }

  function RewriteTableRowReconcile(text: string, r: Reconciliation): Option<(string, bool)> {
    match TableSlice(text)
    case None => None
    case Some((start, end)) =>
      match ReconcileIn(text[start..end], r, '"')
      case None => None
      case Some((body, changed)) => Some((text[..start] + body + text[end..], changed))
  }

  // ----- the batch -----

  /** One of the two texts: how a row is reconciled in it, and the pieces it reads as. */
  datatype Surface = Surface(
    reconcile: (string, Reconciliation) -> Option<(string, bool)>,
    pieces: string -> seq<string>)

  type Env = Files<Surface>

  function ScriptEnv(docPath: string -> Path, tablePath: Path, disk: Path -> string): Env {
    Files(docPath, tablePath, disk,
        Surface(RewriteReconcile, DocPieces), Surface(RewriteTableRowReconcile, TablePieces))
  }

  datatype Batch =
    Batch(docs: map<Path, string>, table: string, unresolved: seq<Unfixable>, changed: set<Path>, total: nat)

  function ReconcileOne(env: Env, r: Reconciliation, b: Batch): Batch {
    var p := env.docPath(r.doc);
    match env.doc.reconcile(DocText(env, b.docs, p), r)
    case None => b.(unresolved := b.unresolved + [Unfixable(r.doc, r.raw, DocNotOnce)])
    case Some((doc, docChanged)) =>
      match env.table.reconcile(b.table, r)
      case None => b.(unresolved := b.unresolved + [Unfixable(r.doc, r.raw, TableNotOnce)])
      case Some((table, tableChanged)) =>
        Batch(b.docs[p := doc], table, b.unresolved,
              b.changed + (if docChanged then {p} else {}) + (if tableChanged then {env.tablePath} else {}),
              b.total + (if docChanged || tableChanged then 1 else 0))
  }

  function ReconcileRun(env: Env, recs: seq<Reconciliation>): Batch {
    if recs == [] then Batch(map[], env.disk(env.tablePath), [], {}, 0)
    else ReconcileOne(env, recs[|recs| - 1], ReconcileRun(env, recs[..|recs| - 1]))
  }

  function Finished(env: Env, b: Batch): map<Path, string> { FinalTexts(env, b.docs, b.table, b.changed) }

  method ReconcileAll(env: Env, recs: seq<Reconciliation>)
    returns (texts: Option<map<Path, string>>, unresolved: seq<Unfixable>, totalChanged: nat)
    ensures unresolved == ReconcileRun(env, recs).unresolved
    ensures texts == if unresolved == [] then Some(Finished(env, ReconcileRun(env, recs))) else None
    ensures totalChanged == if unresolved == [] then ReconcileRun(env, recs).total else 0
  {
    var docTexts: map<Path, string> := map[];
    var tableText := env.disk(env.tablePath);
    unresolved := [];
    totalChanged := 0;
    var changed: set<Path> := {};
    for i := 0 to |recs|
      invariant Batch(docTexts, tableText, unresolved, changed, totalChanged) == ReconcileRun(env, recs[..i])
      invariant changed <= docTexts.Keys + {env.tablePath}
    {
      assert recs[..i + 1][..i] == recs[..i];
      var r := recs[i];
      ghost var b := ReconcileRun(env, recs[..i]);
      assert ReconcileRun(env, recs[..i + 1]) == ReconcileOne(env, r, b);
      var docPath := env.docPath(r.doc);
      var docText := if docPath in docTexts then docTexts[docPath] else env.disk(docPath);
      var newDoc := env.doc.reconcile(docText, r);
      if newDoc.None? {
        unresolved := unresolved + [Unfixable(r.doc, r.raw, DocNotOnce)];
        continue;
      }
      var newTable := env.table.reconcile(tableText, r);
      if newTable.None? {
        unresolved := unresolved + [Unfixable(r.doc, r.raw, TableNotOnce)];
        continue;
      }
      docTexts := docTexts[docPath := newDoc.value.0];
      tableText := newTable.value.0;
      if newDoc.value.1 || newTable.value.1 { totalChanged := totalChanged + 1; }
      if newDoc.value.1 { changed := changed + {docPath}; }
      if newTable.value.1 { changed := changed + {env.tablePath}; }
    }
    assert recs[..|recs|] == recs;
    if unresolved != [] { return None, unresolved, 0; }
    texts := Some(map p | p in changed :: if p == env.tablePath then tableText else docTexts[p]);
    TextsAreFinal(env, docTexts, tableText, changed, texts.value);
  }

  // ----- one reconciliation, seen from the pieces -----

  /** A row the plan produced: old and new citation share the stable prefix. */
  predicate Good(r: Reconciliation) {
    Clean(r.raw) && Clean(r.newRaw) && Matches(r.raw, r.stablePrefix) && Matches(r.newRaw, r.stablePrefix)
  }

  function PieceReconcile(parts: seq<string>, r: Reconciliation): Option<(seq<string>, bool)> {
    if PieceCount(parts, r.raw) == 1 then Some((PieceReplace(parts, r.raw, r.newRaw), r.raw != r.newRaw))
    else
      var found := FindAll(parts, r.stablePrefix);
      if |found| != 1 then None
      else Some((PieceReplace(parts, found[0], r.newRaw), found[0] != r.newRaw))
  }

  /** The text-level rewrite is the piece-level one. */
  ghost predicate Faithful(f: Surface) {
    forall text: string, r: Reconciliation :: Good(r) ==> Agrees(f, text, r, f.reconcile(text, r))
  }

  ghost predicate Agrees(f: Surface, text: string, r: Reconciliation, result: Option<(string, bool)>) {
    match PieceReconcile(f.pieces(text), r)
    case None => result == None
    case Some((parts, changed)) => result.Some? && f.pieces(result.value.0) == parts && result.value.1 == changed
  }

  lemma {:induction false} FoundPieces(parts: seq<string>, stablePrefix: string, d: char)
    requires Free(parts, d)
    ensures forall x :: x in FindAll(parts, stablePrefix) ==> d !in x && PieceCount(parts, x) >= 1
  {
    if |parts| >= 3 {
      if Matches(parts[1], stablePrefix) {
        FoundPieces(parts[2..], stablePrefix, d);
        forall x | x in FindAll(parts, stablePrefix) ensures d !in x && PieceCount(parts, x) >= 1 {
          if x != parts[1] {
            assert x in FindAll(parts[2..], stablePrefix);
            CountSkips(parts, x);
          }
        }
      } else {
        FoundPieces(parts[1..], stablePrefix, d);
      }
    }
  }

  lemma {:induction false} CountSkips(parts: seq<string>, x: string)
    requires |parts| >= 3 && parts[1] != x && PieceCount(parts[2..], x) >= 1
    ensures PieceCount(parts, x) >= 1
  {
    assert parts[1..][1..] == parts[2..];
    if parts[1..][1] == x {
    } else {
      assert PieceCount(parts[1..], x) == PieceCount(parts[2..], x);
    }
  }

  lemma ReconcileInPieces(text: string, r: Reconciliation, d: char)
    requires Good(r) && (d == '`' || d == '"')
    ensures match PieceReconcile(Split(text, d), r)
            case None => ReconcileIn(text, r, d) == None
            case Some((parts, changed)) =>
              ReconcileIn(text, r, d).Some? && Split(ReconcileIn(text, r, d).value.0, d) == parts
              && ReconcileIn(text, r, d).value.1 == changed
  {
    var found := FindAll(Split(text, d), r.stablePrefix);
    QuotedRewrite(text, r.raw, r.newRaw, d);
    if |found| == 1 {
      FoundPieces(Split(text, d), r.stablePrefix, d);
      assert found[0] in found;
      QuotedRewrite(text, found[0], r.newRaw, d);
    }
  }

  lemma ReplacedCitation(body: string, r: Reconciliation, d: char) returns (old': string)
    requires Good(r) && (d == '`' || d == '"') && ReconcileIn(body, r, d).Some?
    ensures Count(body, Quoted(old', d)) >= 1
    ensures ReconcileIn(body, r, d).value.0 == ReplaceFirst(body, Quoted(old', d), Quoted(r.newRaw, d))
  {
    if Count(body, Quoted(r.raw, d)) == 1 {
      old' := r.raw;
    } else {
      var found := FindAll(Split(body, d), r.stablePrefix);
      FoundPieces(Split(body, d), r.stablePrefix, d);
      old' := found[0];
      assert old' in found;
      CountIsPieceCount(Split(body, d), old', d);
    }
  }

  lemma TableReconcile(text: string, r: Reconciliation)
    requires Good(r)
    ensures Agrees(Surface(RewriteTableRowReconcile, TablePieces), text, r, RewriteTableRowReconcile(text, r))
  {
    if TableSlice(text).Some? {
      var (start, end) := TableSlice(text).value;
      ReconcileInPieces(text[start..end], r, '"');
      var inner := ReconcileIn(text[start..end], r, '"');
      if inner.Some? {
        var old' := ReplacedCitation(text[start..end], r, '"');
        LiteralKept(text, start, end, old', r.newRaw, inner.value.0);
      }
    }
  }

  lemma ScriptSurfacesFaithful(docPath: string -> Path, tablePath: Path, disk: Path -> string)
    ensures var env := ScriptEnv(docPath, tablePath, disk); Faithful(env.doc) && Faithful(env.table)
  {
    var env := ScriptEnv(docPath, tablePath, disk);
    forall text: string, r: Reconciliation | Good(r)
      ensures Agrees(env.doc, text, r, env.doc.reconcile(text, r))
      ensures Agrees(env.table, text, r, env.table.reconcile(text, r))
    {
      ReconcileInPieces(text, r, '`');
      TableReconcile(text, r);
    }
  }

  /** Where a reconciliation acts: on one piece of its own prefix. */
  lemma Site(parts: seq<string>, r: Reconciliation) returns (a: nat)
    requires Good(r) && PieceReconcile(parts, r).Some?
    ensures Inner(parts, a) && Matches(parts[a], r.stablePrefix)
    ensures PieceReconcile(parts, r) == Some((parts[a := r.newRaw], parts[a] != r.newRaw))
    ensures PieceCount(parts, r.raw) != 1 ==>
              forall j :: Inner(parts, j) && Matches(parts[j], r.stablePrefix) ==> j == a || j == a + 1
    ensures PieceCount(parts, r.raw) == 1 ==> parts[a] == r.raw
  {
    if PieceCount(parts, r.raw) == 1 {
      a := OnePiece(parts, r.raw, r.newRaw);
    } else {
      a := FoundSite(parts, r.stablePrefix, r.newRaw);
    }
  }

  lemma {:induction false} FoundSite(parts: seq<string>, stablePrefix: string, new': string) returns (a: nat)
    requires |FindAll(parts, stablePrefix)| == 1
    ensures Inner(parts, a) && parts[a] == FindAll(parts, stablePrefix)[0] && Matches(parts[a], stablePrefix)
    ensures PieceReplace(parts, parts[a], new') == parts[a := new']
    ensures forall j :: Inner(parts, j) && Matches(parts[j], stablePrefix) ==> j == a || j == a + 1
  {
    if Matches(parts[1], stablePrefix) {
      a := 1;
      NoneFound(parts[2..], stablePrefix);
      assert PieceReplace(parts, parts[1], new') == parts[1 := new'];
      forall j | 2 < j < |parts| - 1 ensures !Matches(parts[j], stablePrefix) { assert Inner(parts[2..], j - 2); }
    } else {
      var b := FoundSite(parts[1..], stablePrefix, new');
      a := b + 1;
      forall j | 1 < j < |parts| - 1 && Matches(parts[j], stablePrefix) ensures j == a || j == a + 1 {
        assert Inner(parts[1..], j - 1);
      }
    }
  }

  lemma {:induction false} NoneFound(parts: seq<string>, stablePrefix: string)
    requires FindAll(parts, stablePrefix) == []
    ensures forall j :: Inner(parts, j) ==> !Matches(parts[j], stablePrefix)
  {
    if |parts| >= 3 {
      NoneFound(parts[1..], stablePrefix);
      forall j | 1 < j < |parts| - 1 ensures !Matches(parts[j], stablePrefix) { assert Inner(parts[1..], j - 1); }
    }
  }

  // ----- rows with different prefixes do not meet -----

  /** Two readings of a text agree on every piece of one stable prefix. */
  ghost predicate SameClass(p0: seq<string>, p: seq<string>, stablePrefix: string) {
    && |p0| == |p|
    && forall i :: 0 <= i < |p0| && (Matches(p0[i], stablePrefix) || Matches(p[i], stablePrefix)) ==> p0[i] == p[i]
  }

  lemma {:induction false} ClassCount(p0: seq<string>, p: seq<string>, stablePrefix: string, x: string)
    requires SameClass(p0, p, stablePrefix) && Matches(x, stablePrefix)
    ensures PieceCount(p0, x) == PieceCount(p, x)
  {
    if |p0| >= 3 {
      ClassCount(p0[1..], p[1..], stablePrefix, x);
      ClassCount(p0[2..], p[2..], stablePrefix, x);
    }
  }

  lemma {:induction false} ClassFind(p0: seq<string>, p: seq<string>, stablePrefix: string)
    requires SameClass(p0, p, stablePrefix)
    ensures FindAll(p0, stablePrefix) == FindAll(p, stablePrefix)
  {
    if |p0| >= 3 {
      ClassFind(p0[1..], p[1..], stablePrefix);
      ClassFind(p0[2..], p[2..], stablePrefix);
    }
  }

  lemma {:induction false} ClassSite(p0: seq<string>, p: seq<string>, stablePrefix: string, x: string, new': string)
    returns (a: nat)
    requires SameClass(p0, p, stablePrefix) && Matches(x, stablePrefix) && PieceCount(p0, x) >= 1
    ensures Inner(p0, a) && p0[a] == x == p[a]
    ensures PieceReplace(p0, x, new') == p0[a := new'] && PieceReplace(p, x, new') == p[a := new']
  {
    if p0[1] == x {
      a := 1;
      assert PieceReplace(p0, x, new') == p0[1 := new'] && PieceReplace(p, x, new') == p[1 := new'];
    } else {
      var b := ClassSite(p0[1..], p[1..], stablePrefix, x, new');
      a := b + 1;
    }
  }

  /** A reconciliation acts on two texts alike when they agree on its prefix. */
  lemma SameSite(p0: seq<string>, p: seq<string>, r: Reconciliation) returns (a: nat)
    requires Good(r) && SameClass(p0, p, r.stablePrefix) && PieceReconcile(p, r).Some?
    ensures Inner(p0, a) && p0[a] == p[a] && Matches(p[a], r.stablePrefix)
    ensures PieceReconcile(p0, r).Some? && PieceReconcile(p0, r).value.0 == p0[a := r.newRaw]
    ensures PieceReconcile(p, r).value.0 == p[a := r.newRaw]
  {
    ClassCount(p0, p, r.stablePrefix, r.raw);
    ClassFind(p0, p, r.stablePrefix);
    var x := r.raw;
    if PieceCount(p0, r.raw) != 1 {
      x := FindAll(p0, r.stablePrefix)[0];
      var b := FoundSite(p0, r.stablePrefix, r.newRaw);
      FoundCounted(p0, r.stablePrefix);
    }
    a := ClassSite(p0, p, r.stablePrefix, x, r.newRaw);
  }

  lemma {:induction false} FoundCounted(parts: seq<string>, stablePrefix: string)
    requires FindAll(parts, stablePrefix) != []
    ensures PieceCount(parts, FindAll(parts, stablePrefix)[0]) >= 1
  {
    if !Matches(parts[1], stablePrefix) { FoundCounted(parts[1..], stablePrefix); }
  }

  // ----- the batch -----

  ghost predicate Unclaimed(piece: string, recs: seq<Reconciliation>) {
    forall r :: r in recs ==> !Matches(piece, r.stablePrefix)
  }

  /** Every reconciled row has been anchored where it would have been on its own, and no
      piece of another prefix has moved. */
  ghost predicate Anchored(p0: seq<string>, p: seq<string>, recs: seq<Reconciliation>) {
    && |p0| == |p|
    && (forall i :: 0 <= i < |p0| && Unclaimed(p0[i], recs) ==> p[i] == p0[i])
    && (forall r :: r in recs ==> AnchoredRow(p0, p, r))
  }

  ghost predicate AnchoredRow(p0: seq<string>, p: seq<string>, r: Reconciliation)
    requires |p0| == |p|
  {
    && PieceReconcile(p0, r).Some? && |PieceReconcile(p0, r).value.0| == |p0|
    && forall i :: 0 <= i < |p0| && Matches(p0[i], r.stablePrefix) ==>
         Matches(p[i], r.stablePrefix) && p[i] == PieceReconcile(p0, r).value.0[i]
  }

  ghost predicate GoodBatch(recs: seq<Reconciliation>) {
    && (forall r :: r in recs ==> Good(r))
    && forall i, j :: 0 <= i < j < |recs| ==> recs[i].stablePrefix != recs[j].stablePrefix
  }

  ghost predicate NewPrefix(recs: seq<Reconciliation>, r: Reconciliation) {
    forall x :: x in recs ==> x.stablePrefix != r.stablePrefix
  }

  lemma ClassUntouched(p0: seq<string>, p: seq<string>, recs: seq<Reconciliation>, r: Reconciliation)
    requires Anchored(p0, p, recs) && NewPrefix(recs, r)
    ensures SameClass(p0, p, r.stablePrefix)
  {
    forall i | 0 <= i < |p0| && (Matches(p0[i], r.stablePrefix) || Matches(p[i], r.stablePrefix))
      ensures p0[i] == p[i] {
      forall x | x in recs ensures !Matches(p0[i], x.stablePrefix) { assert AnchoredRow(p0, p, x); }
      assert Unclaimed(p0[i], recs);
    }
  }

  lemma AnchorOne(p0: seq<string>, p: seq<string>, recs: seq<Reconciliation>, r: Reconciliation)
    requires Anchored(p0, p, recs) && NewPrefix(recs, r) && Good(r) && PieceReconcile(p, r).Some?
    ensures Anchored(p0, PieceReconcile(p, r).value.0, recs + [r])
  {
    ClassUntouched(p0, p, recs, r);
    var a := SameSite(p0, p, r);
    var p' := PieceReconcile(p, r).value.0;
    forall x | x in recs + [r] ensures AnchoredRow(p0, p', x) {
      if x in recs { assert AnchoredRow(p0, p, x); }
    }
    forall i | 0 <= i < |p0| && Unclaimed(p0[i], recs + [r]) ensures p'[i] == p0[i] {
      assert r in recs + [r] && forall x :: x in recs ==> x in recs + [r];
      assert Unclaimed(p0[i], recs);
    }
  }

  function DocRecs(env: Env, recs: seq<Reconciliation>, p: Path): seq<Reconciliation> {
    if recs == [] then []
    else
      var r := recs[|recs| - 1];
      DocRecs(env, recs[..|recs| - 1], p) + (if env.docPath(r.doc) == p then [r] else [])
  }

  lemma {:induction false} DocRecsWithin(env: Env, recs: seq<Reconciliation>, p: Path)
    ensures forall r :: r in DocRecs(env, recs, p) <==> r in recs && env.docPath(r.doc) == p
  {
    if recs != [] {
      assert recs == recs[..|recs| - 1] + [recs[|recs| - 1]];
      DocRecsWithin(env, recs[..|recs| - 1], p);
    }
  }

  ghost predicate DocAnchored(env: Env, recs: seq<Reconciliation>, b: Batch, p: Path) {
    Anchored(env.doc.pieces(env.disk(p)), env.doc.pieces(DocText(env, b.docs, p)), DocRecs(env, recs, p))
  }

  ghost predicate AllAnchored(env: Env, recs: seq<Reconciliation>, b: Batch) {
    && Anchored(env.table.pieces(env.disk(env.tablePath)), env.table.pieces(b.table), recs)
    && forall p :: DocAnchored(env, recs, b, p)
  }

  lemma AnchorStep(env: Env, recs: seq<Reconciliation>, r: Reconciliation, b0: Batch)
    requires Faithful(env.doc) && Faithful(env.table) && Good(r) && NewPrefix(recs, r)
    requires AllAnchored(env, recs, b0) && ReconcileOne(env, r, b0).unresolved == b0.unresolved
    ensures AllAnchored(env, recs + [r], ReconcileOne(env, r, b0))
  {
    var b, p := ReconcileOne(env, r, b0), env.docPath(r.doc);
    var text := DocText(env, b0.docs, p);
    assert Agrees(env.doc, text, r, env.doc.reconcile(text, r));
    assert Agrees(env.table, b0.table, r, env.table.reconcile(b0.table, r));
    AnchorOne(env.table.pieces(env.disk(env.tablePath)), env.table.pieces(b0.table), recs, r);
    assert (recs + [r])[..|recs|] == recs;
    forall q ensures DocAnchored(env, recs + [r], b, q) {
      assert DocAnchored(env, recs, b0, q);
      if q == p {
        DocRecsWithin(env, recs, p);
        AnchorOne(env.doc.pieces(env.disk(p)), env.doc.pieces(text), DocRecs(env, recs, p), r);
      }
    }
  }

  /** A reconcile run that resolves every row has anchored every one of them, in the table
      and in its own doc, and has moved no citation of any other prefix. */
  lemma {:induction false} ReconcileAnchors(env: Env, recs: seq<Reconciliation>)
    requires Faithful(env.doc) && Faithful(env.table) && GoodBatch(recs)
    requires ReconcileRun(env, recs).unresolved == []
    ensures AllAnchored(env, recs, ReconcileRun(env, recs))
  {
    if recs != [] {
      var n := |recs| - 1;
      var b0 := ReconcileRun(env, recs[..n]);
      assert recs == recs[..n] + [recs[n]];
      ReconcileAnchors(env, recs[..n]);
      AnchorStep(env, recs[..n], recs[n], b0);
    }
  }

  /** An anchored row's source-derived citation stands in the text. */
  lemma AnchoredCarries(p0: seq<string>, p: seq<string>, r: Reconciliation) returns (a: nat)
    requires |p0| == |p| && AnchoredRow(p0, p, r) && Good(r)
    ensures Inner(p, a) && p[a] == r.newRaw
  {
    a := Site(p0, r);
  }

  // ----- the second run -----

  /** The rows of the table a successful run leaves behind. */
  function Settled(r: Reconciliation): Reconciliation { r.(raw := r.newRaw) }

  function SettledAll(recs: seq<Reconciliation>): seq<Reconciliation> {
    seq(|recs|, i requires 0 <= i < |recs| => Settled(recs[i]))
  }

  /** The files once the texts a run hands back are written. */
  function Written(env: Env, b: Batch): Env {
    var texts := Finished(env, b);
    env.(disk := p => if p in texts then texts[p] else env.disk(p))
  }

  /** A text the run has not marked as changed reads as it did. */
  ghost predicate Unmarked(env: Env, b: Batch) {
    && (env.tablePath !in b.changed ==> env.table.pieces(b.table) == env.table.pieces(env.disk(env.tablePath)))
    && forall p :: p != env.tablePath && p !in b.changed ==> SameDoc(env, b, p)
  }

  /** A rewrite that reports no change leaves the pieces alone. */
  lemma NoChangeNoMove(parts: seq<string>, r: Reconciliation)
    requires Good(r) && PieceReconcile(parts, r).Some? && !PieceReconcile(parts, r).value.1
    ensures PieceReconcile(parts, r).value.0 == parts
  {
    var a := Site(parts, r);
  }

  lemma UnmarkedStep(env: Env, r: Reconciliation, b0: Batch)
    requires Faithful(env.doc) && Faithful(env.table) && Good(r) && env.docPath(r.doc) != env.tablePath
    requires Unmarked(env, b0)
    ensures Unmarked(env, ReconcileOne(env, r, b0))
  {
    var b, p := ReconcileOne(env, r, b0), env.docPath(r.doc);
    var text := DocText(env, b0.docs, p);
    assert Agrees(env.doc, text, r, env.doc.reconcile(text, r));
    assert Agrees(env.table, b0.table, r, env.table.reconcile(b0.table, r));
    var d, t := PieceReconcile(env.doc.pieces(text), r), PieceReconcile(env.table.pieces(b0.table), r);
    if d.Some? && !d.value.1 { NoChangeNoMove(env.doc.pieces(text), r); }
    if t.Some? && !t.value.1 { NoChangeNoMove(env.table.pieces(b0.table), r); }
    forall q | q != env.tablePath && q !in b.changed ensures SameDoc(env, b, q) { assert SameDoc(env, b0, q); }
  }

  lemma {:induction false} RunUnmarked(env: Env, recs: seq<Reconciliation>)
    requires Faithful(env.doc) && Faithful(env.table)
    requires forall r :: r in recs ==> Good(r) && env.docPath(r.doc) != env.tablePath
    ensures Unmarked(env, ReconcileRun(env, recs))
  {
    if recs == [] {
      forall p ensures SameDoc(env, ReconcileRun(env, []), p) {}
    } else {
      var n := |recs| - 1;
      assert recs[n] in recs && forall r :: r in recs[..n] ==> r in recs;
      RunUnmarked(env, recs[..n]);
      UnmarkedStep(env, recs[n], ReconcileRun(env, recs[..n]));
    }
  }

  /** The files read as the run's working texts do. */
  lemma WrittenReads(env: Env, b: Batch)
    requires Unmarked(env, b)
    ensures env.table.pieces(Written(env, b).disk(env.tablePath)) == env.table.pieces(b.table)
    ensures forall p :: p != env.tablePath ==>
              env.doc.pieces(Written(env, b).disk(p)) == env.doc.pieces(DocText(env, b.docs, p))
  {
    forall p | p != env.tablePath
      ensures env.doc.pieces(Written(env, b).disk(p)) == env.doc.pieces(DocText(env, b.docs, p))
    {
      if p !in b.changed { assert SameDoc(env, b, p); }
    }
  }

  // ----- where a citation stands -----

  ghost predicate Reads(parts: seq<string>, x: string, i: nat) { Inner(parts, i) && parts[i] == x }

  lemma {:induction false} Standing(parts: seq<string>, x: string, j: nat)
    requires Reads(parts, x, j)
    ensures PieceCount(parts, x) >= 1
  {
    if parts[1] != x { Standing(parts[1..], x, j - 1); }
  }

  lemma {:induction false} FirstPlace(parts: seq<string>, x: string) returns (a: nat)
    requires PieceCount(parts, x) >= 1
    ensures Reads(parts, x, a) && FirstHere(parts, a)
  {
    if parts[1] == x {
      a := 1;
    } else {
      var b := FirstPlace(parts[1..], x);
      a := b + 1;
      forall j | 0 < j < a ensures parts[j] != x { if j > 1 { assert parts[1..][j - 1] != x; } }
    }
  }

  /** One occurrence, or two side by side, count as one. */
  lemma {:induction false} OneOrTwinCounts(parts: seq<string>, x: string, a: nat)
    requires Reads(parts, x, a)
    requires forall j :: Inner(parts, j) && parts[j] == x ==> j == a || j == a + 1
    ensures PieceCount(parts, x) == 1
  {
    if a == 1 {
      var rest := parts[2..];
      if PieceCount(rest, x) >= 1 { var j := FirstPlace(rest, x); }
    } else {
      forall j | Inner(parts[1..], j) && parts[1..][j] == x ensures j == a - 1 || j == a {
        assert parts[j + 1] == x;
      }
      OneOrTwinCounts(parts[1..], x, a - 1);
    }
  }

  /** A count above one means two occurrences with a piece between them. */
  lemma CountsApart(parts: seq<string>, x: string)
    ensures PieceCount(parts, x) >= 2 <==> exists i, j :: Reads(parts, x, i) && Reads(parts, x, j) && i + 1 < j
  {
    if PieceCount(parts, x) >= 2 {
      var a := FirstPlace(parts, x);
      if forall j :: Reads(parts, x, j) ==> j <= a + 1 {
        forall j | Inner(parts, j) && parts[j] == x ensures j == a || j == a + 1 { assert Reads(parts, x, j); }
        OneOrTwinCounts(parts, x, a);
      }
    } else if exists i, j :: Reads(parts, x, i) && Reads(parts, x, j) && i + 1 < j {
      var i, j :| Reads(parts, x, i) && Reads(parts, x, j) && i + 1 < j;
      Standing(parts, x, i);
      var a := OnePiece(parts, x, x);
      assert false;
    }
  }

  lemma {:induction false} CountFalls(parts: seq<string>, x: string)
    requires |parts| >= 1
    ensures PieceCount(parts[1..], x) <= PieceCount(parts, x)
  {
    if |parts| >= 3 && parts[1] == x {
      CountFalls(parts[2..], x);
      assert parts[1..][1..] == parts[2..] && parts[1..][2..] == parts[2..][1..];
    }
  }

  /** The fallback sees at least the copies that the count sees. */
  lemma {:induction false} CountIsFound(parts: seq<string>, stablePrefix: string, x: string)
    requires Matches(x, stablePrefix)
    ensures PieceCount(parts, x) <= |FindAll(parts, stablePrefix)|
  {
    if |parts| >= 3 {
      if Matches(parts[1], stablePrefix) {
        CountIsFound(parts[2..], stablePrefix, x);
        if parts[1] != x && |parts| >= 4 {
          CountFalls(parts[2..], x);
          assert parts[1..][1..] == parts[2..] && parts[1..][2..] == parts[2..][1..];
        }
      } else {
        CountIsFound(parts[1..], stablePrefix, x);
      }
    }
  }

  /** A text that quotes the row's citation twice refuses the row. */
  lemma TwiceRefused(parts: seq<string>, r: Reconciliation)
    requires Good(r) && PieceCount(parts, r.raw) >= 2
    ensures PieceReconcile(parts, r) == None
  {
    CountIsFound(parts, r.stablePrefix, r.raw);
  }

  // ----- collisions -----

  /** Where the new citation stands once the first piece that reads the old one is rewritten. */
  ghost predicate Stands(parts: seq<string>, r: Reconciliation, i: nat) {
    Inner(parts, i) && (parts[i] == r.newRaw || (parts[i] == r.raw && FirstHere(parts, i)))
  }

  /** The row moves, and the citation it moves to then stands twice, with a piece between. */
  ghost predicate Collides(parts: seq<string>, r: Reconciliation) {
    && r.raw != r.newRaw && PieceCount(parts, r.raw) == 1
    && exists i, j :: Stands(parts, r, i) && Stands(parts, r, j) && i + 1 < j
  }

  /** An anchored row's new citation stands, and counts once exactly when it did not collide. */
  lemma AnchoredOnce(parts: seq<string>, r: Reconciliation)
    requires Good(r) && PieceReconcile(parts, r).Some?
    ensures PieceCount(PieceReconcile(parts, r).value.0, r.newRaw) >= 1
    ensures PieceCount(PieceReconcile(parts, r).value.0, r.newRaw) == 1 <==> !Collides(parts, r)
  {
    var a := Site(parts, r);
    var after := PieceReconcile(parts, r).value.0;
    Standing(after, r.newRaw, a);
    if PieceCount(parts, r.raw) != 1 {
      OneOrTwinCounts(after, r.newRaw, a);
    } else if r.raw == r.newRaw {
      assert after == parts;
    } else {
      var b := OnePiece(parts, r.raw, r.newRaw);
      assert a == b && FirstHere(parts, a);
      forall i: nat ensures Reads(after, r.newRaw, i) <==> Stands(parts, r, i) {}
      CountsApart(after, r.newRaw);
    }
  }

  /** Asked for again, a citation that stands is left alone if it counts once, and else the
      row is refused. */
  lemma SettledIsStill(parts: seq<string>, r: Reconciliation)
    requires Good(r) && PieceCount(parts, r.newRaw) >= 1
    ensures PieceReconcile(parts, Settled(r))
            == if PieceCount(parts, r.newRaw) == 1 then Some((parts, false)) else None
  {
    if PieceCount(parts, r.newRaw) == 1 {
      var a := OnePiece(parts, r.newRaw, r.newRaw);
      assert parts[a := r.newRaw] == parts;
    } else {
      TwiceRefused(parts, Settled(r));
    }
  }

  function DocCount(env: Env, r: Reconciliation): nat {
    PieceCount(env.doc.pieces(env.disk(env.docPath(r.doc))), r.newRaw)
  }

  function TableCount(env: Env, r: Reconciliation): nat {
    PieceCount(env.table.pieces(env.disk(env.tablePath)), r.newRaw)
  }

  ghost predicate Unmoved(env: Env, b: Batch) {
    && env.table.pieces(b.table) == env.table.pieces(env.disk(env.tablePath))
    && forall p :: SameDoc(env, b, p)
  }

  ghost predicate SameDoc(env: Env, b: Batch, p: Path) {
    env.doc.pieces(DocText(env, b.docs, p)) == env.doc.pieces(env.disk(p))
  }

  /** The refusals of rows whose new citation does not count once. */
  function NotOnce(env: Env): Reconciliation -> seq<Unfixable> {
    (r: Reconciliation) =>
      if DocCount(env, r) != 1 then [Unfixable(r.doc, r.newRaw, DocNotOnce)]
      else if TableCount(env, r) != 1 then [Unfixable(r.doc, r.newRaw, TableNotOnce)] else []
  }

  lemma StillStep(env: Env, r: Reconciliation, b0: Batch)
    requires Faithful(env.doc) && Faithful(env.table) && Good(r) && r.raw == r.newRaw
    requires DocCount(env, r) >= 1 && TableCount(env, r) >= 1 && Unmoved(env, b0)
    ensures var b := ReconcileOne(env, r, b0);
      && Unmoved(env, b) && b.changed == b0.changed && b.total == b0.total
      && b.unresolved == b0.unresolved + NotOnce(env)(r)
  {
    var p := env.docPath(r.doc);
    var text := DocText(env, b0.docs, p);
    assert Settled(r) == r && SameDoc(env, b0, p);
    assert Agrees(env.doc, text, r, env.doc.reconcile(text, r));
    assert Agrees(env.table, b0.table, r, env.table.reconcile(b0.table, r));
    SettledIsStill(env.doc.pieces(text), r);
    SettledIsStill(env.table.pieces(b0.table), r);
    var b := ReconcileOne(env, r, b0);
    forall q ensures SameDoc(env, b, q) { assert SameDoc(env, b0, q); }
  }

  /** A run over settled rows that all stand changes nothing, and refuses exactly those that
      do not count once. */
  lemma {:induction false} StillRun(env: Env, recs: seq<Reconciliation>)
    requires Faithful(env.doc) && Faithful(env.table)
    requires forall r :: r in recs ==> Good(r) && r.raw == r.newRaw && DocCount(env, r) >= 1 && TableCount(env, r) >= 1
    ensures var b := ReconcileRun(env, recs);
      Unmoved(env, b) && b.changed == {} && b.total == 0 && b.unresolved == Gathered(recs, NotOnce(env))
  {
    if recs == [] {
      forall p ensures SameDoc(env, ReconcileRun(env, []), p) {}
    } else {
      var n := |recs| - 1;
      assert recs[n] in recs && forall r :: r in recs[..n] ==> r in recs;
      StillRun(env, recs[..n]);
      StillStep(env, recs[n], ReconcileRun(env, recs[..n]));
    }
  }

  lemma AnchoredClass(p0: seq<string>, p: seq<string>, recs: seq<Reconciliation>, r: Reconciliation)
    requires Anchored(p0, p, recs) && r in recs && Good(r)
    ensures PieceReconcile(p0, r).Some? && SameClass(PieceReconcile(p0, r).value.0, p, r.stablePrefix)
  {
    assert AnchoredRow(p0, p, r);
    var a := Site(p0, r);
    var p' := PieceReconcile(p0, r).value.0;
    forall i | 0 <= i < |p0| && (Matches(p'[i], r.stablePrefix) || Matches(p[i], r.stablePrefix))
      ensures p'[i] == p[i] {
      if i != a { OutsideStaysOut(p0, p, recs, r.stablePrefix, i); }
    }
  }

  lemma OutsideStaysOut(p0: seq<string>, p: seq<string>, recs: seq<Reconciliation>, stablePrefix: string, i: nat)
    requires Anchored(p0, p, recs) && i < |p0|
    ensures Matches(p[i], stablePrefix) ==> Matches(p0[i], stablePrefix)
  {
    if !Unclaimed(p0[i], recs) {
      var x :| x in recs && Matches(p0[i], x.stablePrefix);
      assert AnchoredRow(p0, p, x);
    }
  }

  lemma OnceAfter(p0: seq<string>, p: seq<string>, recs: seq<Reconciliation>, r: Reconciliation)
    requires Anchored(p0, p, recs) && r in recs && Good(r)
    ensures PieceCount(p, r.newRaw) >= 1
    ensures PieceCount(p, r.newRaw) == 1 <==> !Collides(p0, r)
  {
    AnchoredClass(p0, p, recs, r);
    ClassCount(PieceReconcile(p0, r).value.0, p, r.stablePrefix, r.newRaw);
    AnchoredOnce(p0, r);
  }

  /** The row collides in its doc, or in the table, as the files stand before the run. */
  ghost predicate DocCollides(env: Env, r: Reconciliation) {
    Collides(env.doc.pieces(env.disk(env.docPath(r.doc))), r)
  }

  ghost predicate TableCollides(env: Env, r: Reconciliation) {
    Collides(env.table.pieces(env.disk(env.tablePath)), r)
  }

  /** The refusals of rows that collide. */
  ghost function Collision(env: Env): Reconciliation -> seq<Unfixable> {
    (r: Reconciliation) =>
      if DocCollides(env, r) then [Unfixable(r.doc, r.newRaw, DocNotOnce)]
      else if TableCollides(env, r) then [Unfixable(r.doc, r.newRaw, TableNotOnce)] else []
  }

  lemma RowConverges(env: Env, recs: seq<Reconciliation>, b: Batch, r: Reconciliation)
    requires AllAnchored(env, recs, b) && Unmarked(env, b) && r in recs && Good(r)
    requires env.docPath(r.doc) != env.tablePath
    ensures var after := Written(env, b);
      && DocCount(after, Settled(r)) >= 1 && TableCount(after, Settled(r)) >= 1
      && NotOnce(after)(Settled(r)) == Collision(env)(r)
  {
    var p := env.docPath(r.doc);
    assert DocAnchored(env, recs, b, p);
    WrittenReads(env, b);
    DocRecsWithin(env, recs, p);
    OnceAfter(env.doc.pieces(env.disk(p)), env.doc.pieces(DocText(env, b.docs, p)), DocRecs(env, recs, p), r);
    OnceAfter(env.table.pieces(env.disk(env.tablePath)), env.table.pieces(b.table), recs, r);
  }

  lemma AllStand(env: Env, recs: seq<Reconciliation>, b: Batch, s: Reconciliation)
    requires AllAnchored(env, recs, b) && Unmarked(env, b) && s in SettledAll(recs)
    requires forall r :: r in recs ==> Good(r) && env.docPath(r.doc) != env.tablePath
    ensures var after := Written(env, b);
      Good(s) && s.raw == s.newRaw && DocCount(after, s) >= 1 && TableCount(after, s) >= 1
  {
    var k :| 0 <= k < |recs| && SettledAll(recs)[k] == s;
    assert recs[k] in recs;
    RowConverges(env, recs, b, recs[k]);
  }

  lemma SameRefusals(env: Env, recs: seq<Reconciliation>, b: Batch)
    requires AllAnchored(env, recs, b) && Unmarked(env, b)
    requires forall r :: r in recs ==> Good(r) && env.docPath(r.doc) != env.tablePath
    ensures Gathered(SettledAll(recs), NotOnce(Written(env, b))) == Gathered(recs, Collision(env))
  {
    forall k | 0 <= k < |recs| ensures NotOnce(Written(env, b))(SettledAll(recs)[k]) == Collision(env)(recs[k]) {
      assert recs[k] in recs;
      RowConverges(env, recs, b, recs[k]);
    }
    GatheredAlike(SettledAll(recs), recs, NotOnce(Written(env, b)), Collision(env));
  }

  /** After a successful run over reconciliations with distinct stable prefixes, a second
      run over the files it wrote, with each old citation replaced by its new one, changes
      nothing. It refuses exactly the rows that moved onto a citation already standing
      elsewhere in their doc or in the table, in order and for that reason. */
  lemma ReconcileConverges(env: Env, recs: seq<Reconciliation>)
    requires Faithful(env.doc) && Faithful(env.table) && GoodBatch(recs)
    requires ReconcileRun(env, recs).unresolved == []
    requires forall r :: r in recs ==> env.docPath(r.doc) != env.tablePath
    ensures var again := ReconcileRun(Written(env, ReconcileRun(env, recs)), SettledAll(recs));
      && again.changed == {} && again.total == 0 && again.unresolved == Gathered(recs, Collision(env))
      && (again.unresolved == [] <==> forall r :: r in recs ==> !DocCollides(env, r) && !TableCollides(env, r))
  {
    var b := ReconcileRun(env, recs);
    ReconcileAnchors(env, recs);
    RunUnmarked(env, recs);
    forall s | s in SettledAll(recs)
      ensures Good(s) && s.raw == s.newRaw
      ensures DocCount(Written(env, b), s) >= 1 && TableCount(Written(env, b), s) >= 1
    {
      AllStand(env, recs, b, s);
    }
    StillRun(Written(env, b), SettledAll(recs));
    SameRefusals(env, recs, b);
    NoRefusals(env, recs);
  }

  lemma NoRefusals(env: Env, recs: seq<Reconciliation>)
    ensures Gathered(recs, Collision(env)) == []
            <==> forall r :: r in recs ==> !DocCollides(env, r) && !TableCollides(env, r)
  {
    if Gathered(recs, Collision(env)) == [] {
      forall r | r in recs ensures Collision(env)(r) == [] {
        var k :| 0 <= k < |recs| && recs[k] == r;
        if Collision(env)(r) != [] { GatheredHas(recs, Collision(env), k, Collision(env)(r)[0]); }
      }
    } else if forall r :: r in recs ==> Collision(env)(r) == [] {
      GatheredNone(recs, Collision(env));
    }
  }

  /** A planned row meets what the batch asks of it exactly when its citation is clean, its
      lines are digits or a range of digits, and the range does not move below line 0. */
  lemma PlanIsGood(c: Checker, row: Row, n: nat)
    requires Readable(row) && RowVerdict(c, row) == Anchor(n)
    ensures var spec := RAfter(After(row.raw, ':'), ':');
      Good(RowReconciliation(c, row)[0]) <==> Clean(row.raw) && LegacySpec(spec) && n + Span(spec) >= 0
  {
    var tail := After(row.raw, ':');
    var spec, r := RAfter(tail, ':'), RowReconciliation(c, row)[0];
    NewRawReads(row.raw, n);
    NewSpecMoves(spec, n);
    FirstParts(row.raw, ':');
    LastParts(tail, ':');
    PrefixesMatch(Before(row.raw, ':'), Symbol(tail), spec, row.raw, r.stablePrefix);
    PrefixesMatch(Before(row.raw, ':'), Symbol(tail), NewSpec(spec, n), r.newRaw, r.stablePrefix);
    if LegacySpec(spec) { MovedRange(spec, n); }
  }

  lemma PrefixesMatch(path: string, symbol: string, spec: string, raw: string, stablePrefix: string)
    requires raw == path + ":" + (symbol + ":" + spec) && stablePrefix == path + ":" + symbol && ':' !in spec
    ensures Matches(raw, stablePrefix) <==> LegacySpec(spec)
  {
    assert raw == stablePrefix + [':'] + spec;
    LastSplit(stablePrefix, ':', spec);
  }

  lemma SignedDigits(z: int)
    ensures IsDigits(IntStr(z)) <==> z >= 0
  {
    if z >= 0 {
      NatStrParses(z);
    } else {
      assert IntStr(z)[0] == '-' && !IsDigit('-');
    }
  }

  lemma MovedRange(spec: string, n: nat)
    requires LineSpec(spec) && LegacySpec(spec)
    ensures LegacySpec(NewSpec(spec, n)) <==> n + Span(spec) >= 0
  {
    NatStrParses(n);
    if '-' in spec {
      var end := ParseInt(After(spec, '-')) + n - ParseNat(Before(spec, '-'));
      RangeReads(n, end);
      SignedDigits(end);
      DashIsNoDigit(NewSpec(spec, n));
    } else {
      DigitsHaveNoDash(spec);
    }
  }

  lemma DashIsNoDigit(s: string)
    ensures '-' in s ==> !IsDigits(s)
  {
    if '-' in s {
      var i :| 0 <= i < |s| && s[i] == '-';
      assert !IsDigit(s[i]);
    }
  }

  lemma DigitsHaveNoDash(s: string)
    requires IsDigits(s)
    ensures '-' !in s
  {
    DashIsNoDigit(s);
  }

  function RawOf(path: string, symbol: string, spec: string): string { path + [':'] + (symbol + [':'] + spec) }

  lemma RawReads(path: string, symbol: string, spec: string)
    requires ':' !in path && ':' !in spec && LineSpec(spec)
    ensures var raw := RawOf(path, symbol, spec); var tail := After(raw, ':');
      && ':' in raw && Before(raw, ':') == path && Symbol(tail) == symbol && RAfter(tail, ':') == spec
      && CitedLine(tail).Some? && !LegacySpec(tail)
  {
    var tail := symbol + [':'] + spec;
    LastSplit(symbol, ':', spec);
    FirstSplit(path, ':', tail);
    ColonNotLegacy(tail);
  }

  /** A checker that finds every token on line `n` plans the row there. */
  lemma PlannedAt(c: Checker, row: Row, path: string, symbol: string, spec: string, n: nat)
    requires ':' !in path && ':' !in spec && LineSpec(spec) && row.raw == RawOf(path, symbol, spec)
    requires c.locate(row.resolvePath, symbol, row.token) == Line(n)
    ensures Readable(row) && RowVerdict(c, row) == Anchor(n)
    ensures var r := RowReconciliation(c, row)[0];
      && r.stablePrefix == path + [':'] + symbol && r.newRaw == RawOf(path, symbol, NewSpec(spec, n))
      && (Matches(r.raw, r.stablePrefix) <==> LegacySpec(spec))
      && (Matches(r.newRaw, r.stablePrefix) <==> LegacySpec(NewSpec(spec, n)))
  {
    RawReads(path, symbol, spec);
    NewSpecMoves(spec, n);
    var r := RowReconciliation(c, row)[0];
    PrefixesMatch(path, symbol, spec, r.raw, r.stablePrefix);
    PrefixesMatch(path, symbol, NewSpec(spec, n), r.newRaw, r.stablePrefix);
  }

  lemma NineToTwo()
    ensures LegacySpec("9-2") && LineSpec("9-2") && ':' !in "9-2" && NewSpec("9-2", 3) == "3--4" && !LegacySpec("3--4")
  {
    assert "9-2" == "9" + ['-'] + "2";
    FirstSplit("9", '-', "2");
    assert "9"[..0] == "" && "2"[..0] == "";
    MovedRange("9-2", 3);
  }

  /** Such a row: a descending range, moved up until its end falls below line 0. */
  lemma DescendingRangeIsLost(c: Checker, row: Row, path: string, symbol: string)
    requires ':' !in path && row.raw == RawOf(path, symbol, "9-2")
    requires c.locate(row.resolvePath, symbol, row.token) == Line(3)
    ensures Readable(row) && RowVerdict(c, row) == Anchor(3)
    ensures var r := RowReconciliation(c, row)[0];
      r.newRaw == RawOf(path, symbol, "3--4") && Matches(r.raw, r.stablePrefix) && !Matches(r.newRaw, r.stablePrefix)
  {
    NineToTwo();
    PlannedAt(c, row, path, symbol, "9-2", 3);
  }
}
