/** When `--apply` succeeds: which drifts of a batch it refuses, read off the files as they
    stand before the run. */
module ApplyOutcome {
  import opened Counting
  import opened PyText
  import opened Citations
  import opened Reanchor
  import opened Surfaces

  /** A rewrite succeeds exactly on a text that quotes the old citation once. */
  ghost predicate Complete(f: Surface) {
    forall text: string, raw: string, new': string :: Clean(raw) && Clean(new') ==> Decides(f, text, raw, new')
  }

  ghost predicate Decides(f: Surface, text: string, raw: string, new': string) {
    f.rewrite(text, raw, new').Some? <==> PieceCount(f.pieces(text), raw) == 1
  }

  lemma DocDecides(text: string, raw: string, new': string)
    requires Clean(raw) && Clean(new')
    ensures Rewrite(text, raw, new').Some? <==> PieceCount(DocPieces(text), raw) == 1
  {
    QuotedRewrite(text, raw, new', '`');
  }

  lemma TableDecides(text: string, raw: string, new': string)
    requires Clean(raw) && Clean(new')
    ensures RewriteTableRow(text, raw, new').Some? <==> PieceCount(TablePieces(text), raw) == 1
  {
    if TableSlice(text).Some? {
      var (start, end) := TableSlice(text).value;
      QuotedRewrite(text[start..end], raw, new', '"');
    }
  }

  lemma ScriptSurfacesComplete(docPath: string -> Path, tablePath: Path, disk: Path -> string)
    ensures var env := ScriptEnv(docPath, tablePath, disk); Complete(env.doc) && Complete(env.table)
  {
    var env := ScriptEnv(docPath, tablePath, disk);
    forall text: string, raw: string, new': string | Clean(raw) && Clean(new')
      ensures Decides(env.doc, text, raw, new') && Decides(env.table, text, raw, new')
    {
      DocDecides(text, raw, new');
      TableDecides(text, raw, new');
    }
  }

  /** How often the drift's old citation is quoted in its doc and in the table, on disk. */
  function DocCount(env: Env, d: Drift): nat {
    PieceCount(env.doc.pieces(env.disk(env.docPath(d.doc))), d.oldRaw)
  }

  function TableCount(env: Env, d: Drift): nat {
    PieceCount(env.table.pieces(env.disk(env.tablePath)), d.oldRaw)
  }

  function Refused(env: Env): Drift -> seq<Unfixable> {
    (d: Drift) =>
      if DocCount(env, d) != 1 then [Unfixable(d.doc, d.oldRaw, DocNotOnce)]
      else if TableCount(env, d) != 1 then [Unfixable(d.doc, d.oldRaw, TableNotOnce)] else []
  }

  lemma CountKept(parts: seq<string>, old': string, new': string, x: string)
    requires PieceCount(parts, old') == 1 && x != old' && x != new'
    ensures PieceCount(PieceReplace(parts, old', new'), x) == PieceCount(parts, x)
  {
    var a := OnePiece(parts, old', new');
    SamePlaces(PieceReplace(parts, old', new'), parts, x);
  }

  ghost predicate DocCountKept(env: Env, b: Batch, p: Path, x: string) {
    PieceCount(env.doc.pieces(DocText(env, b.docs, p)), x) == PieceCount(env.doc.pieces(env.disk(p)), x)
  }

  /** A citation no drift reads or writes keeps its count in every text. */
  ghost predicate CountsKept(env: Env, b: Batch, x: string) {
    && PieceCount(env.table.pieces(b.table), x) == PieceCount(env.table.pieces(env.disk(env.tablePath)), x)
    && forall p :: DocCountKept(env, b, p, x)
  }

  lemma StepKeepsCounts(env: Env, d: Drift, b0: Batch, x: string)
    requires Faithful(env.doc) && Faithful(env.table) && Clean(d.oldRaw) && Clean(d.newRaw)
    requires CountsKept(env, b0, x) && x != d.oldRaw && x != d.newRaw
    ensures CountsKept(env, ApplyDrift(env, d, b0), x)
  {
    var b, p := ApplyDrift(env, d, b0), env.docPath(d.doc);
    var text := DocText(env, b0.docs, p);
    var doc, table := env.doc.rewrite(text, d.oldRaw, d.newRaw), env.table.rewrite(b0.table, d.oldRaw, d.newRaw);
    if doc.Some? {
      assert OnePieceRewritten(env.doc, text, d.oldRaw, d.newRaw, doc.value);
      CountKept(env.doc.pieces(text), d.oldRaw, d.newRaw, x);
    }
    if table.Some? {
      assert OnePieceRewritten(env.table, b0.table, d.oldRaw, d.newRaw, table.value);
      CountKept(env.table.pieces(b0.table), d.oldRaw, d.newRaw, x);
    }
    forall q ensures DocCountKept(env, b, q, x) {
      assert DocCountKept(env, b0, q, x) && DocCountKept(env, b0, p, x);
    }
  }

  lemma {:induction false} RunKeepsCounts(env: Env, drifts: seq<Drift>, x: string)
    requires Faithful(env.doc) && Faithful(env.table)
    requires forall d :: d in drifts ==> Clean(d.oldRaw) && Clean(d.newRaw) && x != d.oldRaw && x != d.newRaw
    ensures CountsKept(env, ApplyDrifts(env, drifts), x)
  {
    if drifts == [] {
      forall p ensures DocCountKept(env, ApplyDrifts(env, []), p, x) {}
    } else {
      var n := |drifts| - 1;
      assert drifts[n] in drifts && forall d :: d in drifts[..n] ==> d in drifts;
      RunKeepsCounts(env, drifts[..n], x);
      StepKeepsCounts(env, drifts[n], ApplyDrifts(env, drifts[..n]), x);
    }
  }

  lemma RefusedStep(env: Env, d: Drift, b0: Batch)
    requires Complete(env.doc) && Complete(env.table) && Clean(d.oldRaw) && Clean(d.newRaw)
    requires CountsKept(env, b0, d.oldRaw)
    ensures ApplyDrift(env, d, b0).unresolved == b0.unresolved + Refused(env)(d)
  {
    var p := env.docPath(d.doc);
    assert DocCountKept(env, b0, p, d.oldRaw);
    assert Decides(env.doc, DocText(env, b0.docs, p), d.oldRaw, d.newRaw);
    assert Decides(env.table, b0.table, d.oldRaw, d.newRaw);
  }

  /** A batch in which no drift repeats another or leads on to one refuses exactly the drifts
      whose old citation is not quoted once in their doc and once in the table, in order and
      with the text at fault. So it goes through if and only if there is none. */
  lemma {:induction false} ApplyRefuses(env: Env, drifts: seq<Drift>)
    requires Faithful(env.doc) && Faithful(env.table) && Complete(env.doc) && Complete(env.table)
    requires CleanDrifts(drifts) && NoChain(drifts)
    ensures ApplyDrifts(env, drifts).unresolved == Gathered(drifts, Refused(env))
  {
    if drifts != [] {
      var n := |drifts| - 1;
      assert drifts[n] in drifts && forall d :: d in drifts[..n] ==> d in drifts;
      ApplyRefuses(env, drifts[..n]);
      forall d | d in drifts[..n] ensures drifts[n].oldRaw != d.oldRaw && drifts[n].oldRaw != d.newRaw {
        var j :| 0 <= j < n && drifts[j] == d;
      }
      RunKeepsCounts(env, drifts[..n], drifts[n].oldRaw);
      RefusedStep(env, drifts[n], ApplyDrifts(env, drifts[..n]));
    }
  }

  lemma NothingRefused(env: Env, drifts: seq<Drift>)
    ensures Gathered(drifts, Refused(env)) == []
            <==> forall d :: d in drifts ==> DocCount(env, d) == 1 && TableCount(env, d) == 1
  {
    GatheredEmpty(drifts, Refused(env));
    if Gathered(drifts, Refused(env)) == [] {
      forall d | d in drifts ensures Refused(env)(d) == [] { var k :| 0 <= k < |drifts| && drifts[k] == d; }
    }
  }

  /** Over the files the script meets, whose table lists the drifted rows: the batch goes
      through if and only if every old citation is quoted once in its doc and once in the
      table, and no drift repeats another or leads on to one. */
  lemma ApplyResolvesIff(
    docPath: string -> Path, tablePath: Path, disk: Path -> string, drifts: seq<Drift>, at: seq<nat>)
    requires CleanDrifts(drifts) && Listed(TablePieces(disk(tablePath)), drifts, at)
    ensures var env := ScriptEnv(docPath, tablePath, disk);
      ApplyDrifts(env, drifts).unresolved == []
      <==> NoChain(drifts) && forall d :: d in drifts ==>
             && PieceCount(DocPieces(disk(docPath(d.doc))), d.oldRaw) == 1
             && PieceCount(TablePieces(disk(tablePath)), d.oldRaw) == 1
  {
    var env := ScriptEnv(docPath, tablePath, disk);
    ScriptSurfacesFaithful(docPath, tablePath, disk);
    ScriptSurfacesComplete(docPath, tablePath, disk);
    if NoChain(drifts) {
      ApplyRefuses(env, drifts);
      NothingRefused(env, drifts);
      assert forall d :: d in drifts ==> DocCount(env, d) == PieceCount(DocPieces(disk(docPath(d.doc))), d.oldRaw);
    } else if ApplyDrifts(env, drifts).unresolved == [] {
      BatchIsDone(env, drifts, at);
    }
  }
}
