/** The `--apply` half of scripts/reanchor_citations.py: one drift at a time is written
    into its doc and into the CITATION_TABLE literal, and the texts are handed back only
    when every drift resolved on both surfaces. */
module Reanchor {
  import opened Counting
  import opened PyText
  import opened Citations
  import opened Surfaces

  // ----- the batch -----

  /** One of the two texts a citation stands in: how a citation in it is rewritten, the
      delimited pieces it reads as, and the text around them that no rewrite may touch. */
  datatype Surface = Surface(
    rewrite: (string, string, string) -> Option<string>,
    pieces: string -> seq<string>,
    outside: string -> (string, string))

  type Env = Files<Surface>

  datatype Batch = Batch(docs: map<Path, string>, table: string, unresolved: seq<Unfixable>, changed: set<Path>)

  function ApplyDrift(env: Env, d: Drift, b: Batch): Batch {
    var p := env.docPath(d.doc);
    match env.doc.rewrite(DocText(env, b.docs, p), d.oldRaw, d.newRaw)
    case None => b.(unresolved := b.unresolved + [Unfixable(d.doc, d.oldRaw, DocNotOnce)])
    case Some(doc) =>
      match env.table.rewrite(b.table, d.oldRaw, d.newRaw)
      case None => b.(unresolved := b.unresolved + [Unfixable(d.doc, d.oldRaw, TableNotOnce)])
      case Some(table) =>
        Batch(b.docs[p := doc], table, b.unresolved, b.changed + {p, env.tablePath})
  }

  function ApplyDrifts(env: Env, drifts: seq<Drift>): Batch {
    if drifts == [] then Batch(map[], env.disk(env.tablePath), [], {})
    else ApplyDrift(env, drifts[|drifts| - 1], ApplyDrifts(env, drifts[..|drifts| - 1]))
  }

  function Finished(env: Env, b: Batch): map<Path, string> { FinalTexts(env, b.docs, b.table, b.changed) }

  method ApplyAll(env: Env, drifts: seq<Drift>)
    returns (texts: Option<map<Path, string>>, unresolved: seq<Unfixable>)
    ensures unresolved == ApplyDrifts(env, drifts).unresolved
    ensures texts == if unresolved == [] then Some(Finished(env, ApplyDrifts(env, drifts))) else None
  {
    var docTexts: map<Path, string> := map[];
    var tableText := env.disk(env.tablePath);
    unresolved := [];
    var changed: set<Path> := {};
    for i := 0 to |drifts|
      invariant Batch(docTexts, tableText, unresolved, changed) == ApplyDrifts(env, drifts[..i])
      invariant changed <= docTexts.Keys + {env.tablePath}
    {
      assert drifts[..i + 1][..i] == drifts[..i];
      var d := drifts[i];
      var docPath := env.docPath(d.doc);
      var docText := if docPath in docTexts then docTexts[docPath] else env.disk(docPath);
      var newDocText := env.doc.rewrite(docText, d.oldRaw, d.newRaw);
      if newDocText.None? {
        unresolved := unresolved + [Unfixable(d.doc, d.oldRaw, DocNotOnce)];
        continue;
      }
      var newTableText := env.table.rewrite(tableText, d.oldRaw, d.newRaw);
      if newTableText.None? {
        unresolved := unresolved + [Unfixable(d.doc, d.oldRaw, TableNotOnce)];
        continue;
      }
      docTexts := docTexts[docPath := newDocText.value];
      tableText := newTableText.value;
      changed := changed + {docPath};
      changed := changed + {env.tablePath};
    }
    assert drifts[..|drifts|] == drifts;
    if unresolved != [] { return None, unresolved; }
    texts := Some(map p | p in changed :: if p == env.tablePath then tableText else docTexts[p]);
    TextsAreFinal(env, docTexts, tableText, changed, texts.value);
  }

  function ScriptEnv(docPath: string -> Path, tablePath: Path, disk: Path -> string): Env {
    Files(docPath, tablePath, disk,
        Surface(Rewrite, DocPieces, (text: string) => ("", "")),
        Surface(RewriteTableRow, TablePieces, TableOutside))
  }

  // ----- simultaneous substitution, piece by piece -----

  /** Every delimited piece that is a key becomes its value, all at once. */
  function Simultaneous(parts: seq<string>, m: map<string, string>): seq<string> {
    seq(|parts|, i requires 0 <= i < |parts| =>
      if Inner(parts, i) && parts[i] in m then m[parts[i]] else parts[i])
  }

  /** The same, for the first piece that reads each key. */
  ghost function FirstSub(parts: seq<string>, m: map<string, string>): seq<string> {
    seq(|parts|, i requires 0 <= i < |parts| =>
      if Inner(parts, i) && parts[i] in m && FirstHere(parts, i) then m[parts[i]] else parts[i])
  }

  /** No two neighbouring delimited pieces read the same key. */
  ghost predicate NoTwins(parts: seq<string>, keys: set<string>) {
    forall i :: 0 < i < |parts| - 2 && parts[i] in keys ==> parts[i] != parts[i + 1]
  }

  /** One piece reads `raw`, and at most its right neighbour as well: `str.count` is 1. */
  predicate OnceOrTwin(parts: seq<string>, raw: string) { PieceCount(parts, raw) == 1 }

  lemma {:induction false} SamePlaces(p: seq<string>, q: seq<string>, x: string)
    requires |p| == |q| && forall i :: 0 <= i < |p| ==> (p[i] == x <==> q[i] == x)
    ensures PieceCount(p, x) == PieceCount(q, x)
  {
    if |p| >= 3 {
      if p[1] == x { SamePlaces(p[2..], q[2..], x); } else { SamePlaces(p[1..], q[1..], x); }
    }
  }

  /** One more rewrite on top of a partial substitution that never wrote its old text. */
  lemma SubstituteOne(parts: seq<string>, m: map<string, string>, old': string, new': string)
    requires old' !in m && (forall k :: k in m ==> m[k] != old')
    requires PieceCount(FirstSub(parts, m), old') == 1
    ensures PieceReplace(FirstSub(parts, m), old', new') == FirstSub(parts, m[old' := new'])
    ensures OnceOrTwin(parts, old')
  {
    var cur := FirstSub(parts, m);
    var a := OnePiece(cur, old', new');
    assert forall i :: 0 <= i < |parts| ==> (cur[i] == old' <==> parts[i] == old');
    SamePlaces(cur, parts, old');
    assert Inner(parts, a) && parts[a] == old';
    assert FirstHere(parts, a) by {
      forall j | 0 < j < a ensures parts[j] != parts[a] { assert Inner(cur, j); }
    }
    assert cur[a := new'] == FirstSub(parts, m[old' := new']) by {
      forall i | Inner(parts, i) && parts[i] == old' && FirstHere(parts, i) ensures i == a { assert Inner(cur, i); }
    }
  }

  /** Where no key has a twin, rewriting first occurrences is simultaneous substitution,
      and nowhere else. */
  lemma FirstSubIsSimultaneous(parts: seq<string>, m: map<string, string>)
    requires forall k :: k in m ==> m[k] != k && OnceOrTwin(parts, k)
    ensures FirstSub(parts, m) == Simultaneous(parts, m) <==> NoTwins(parts, m.Keys)
  {
    if NoTwins(parts, m.Keys) {
      forall i | Inner(parts, i) && parts[i] in m ensures FirstHere(parts, i) {
        var a := OnePiece(parts, parts[i], parts[i]);
        forall j | 0 < j < i ensures parts[j] != parts[i] { assert Inner(parts, j); }
      }
      assert FirstSub(parts, m) == Simultaneous(parts, m);
    } else {
      var i :| 0 < i < |parts| - 2 && parts[i] in m && parts[i] == parts[i + 1];
      assert !FirstHere(parts, i + 1);
      assert FirstSub(parts, m)[i + 1] != Simultaneous(parts, m)[i + 1];
    }
  }

  // ----- the batch as one substitution -----

  /** A rewrite that succeeds changes the one piece that read the old citation. */
  ghost predicate Faithful(f: Surface) {
    forall text: string, raw: string, new': string ::
      Clean(raw) && Clean(new') && f.rewrite(text, raw, new').Some? ==>
        OnePieceRewritten(f, text, raw, new', f.rewrite(text, raw, new').value)
  }

  ghost predicate OnePieceRewritten(f: Surface, text: string, raw: string, new': string, after: string) {
    && PieceCount(f.pieces(text), raw) == 1
    && f.pieces(after) == PieceReplace(f.pieces(text), raw, new')
    && f.outside(after) == f.outside(text)
  }

  lemma ScriptSurfacesFaithful(docPath: string -> Path, tablePath: Path, disk: Path -> string)
    ensures var env := ScriptEnv(docPath, tablePath, disk); Faithful(env.doc) && Faithful(env.table)
  {
    var env := ScriptEnv(docPath, tablePath, disk);
    forall text: string, raw: string, new': string |
      Clean(raw) && Clean(new') && env.doc.rewrite(text, raw, new').Some?
      ensures OnePieceRewritten(env.doc, text, raw, new', env.doc.rewrite(text, raw, new').value)
    {
      QuotedRewrite(text, raw, new', '`');
    }
    forall text: string, raw: string, new': string |
      Clean(raw) && Clean(new') && env.table.rewrite(text, raw, new').Some?
      ensures OnePieceRewritten(env.table, text, raw, new', env.table.rewrite(text, raw, new').value)
    {
      TableRewrite(text, raw, new', RewriteTableRow(text, raw, new').value);
    }
  }

  /** Old citation to new one, over a whole batch. */
  function BatchMap(drifts: seq<Drift>): map<string, string> {
    if drifts == [] then map[]
    else BatchMap(drifts[..|drifts| - 1])[drifts[|drifts| - 1].oldRaw := drifts[|drifts| - 1].newRaw]
  }

  /** The same, for the drifts that cite from the doc at `p`. */
  function DocMap(env: Env, drifts: seq<Drift>, p: Path): map<string, string> {
    if drifts == [] then map[]
    else
      var d, m := drifts[|drifts| - 1], DocMap(env, drifts[..|drifts| - 1], p);
      if env.docPath(d.doc) == p then m[d.oldRaw := d.newRaw] else m
  }

  function DocsOf(env: Env, drifts: seq<Drift>): set<Path> {
    set d | d in drifts :: env.docPath(d.doc)
  }

  /** The table literal quotes every drifted row, in order, with text between two rows. */
  ghost predicate Listed(parts: seq<string>, drifts: seq<Drift>, at: seq<nat>) {
    && |at| == |drifts|
    && (forall k :: 0 <= k < |at| ==> Inner(parts, at[k]) && parts[at[k]] == drifts[k].oldRaw)
    && forall i, j :: 0 <= i < j < |at| ==> at[i] + 2 <= at[j]
  }

  ghost predicate CleanDrifts(drifts: seq<Drift>) {
    forall d :: d in drifts ==> Clean(d.oldRaw) && Clean(d.newRaw) && d.oldRaw != d.newRaw
  }

  /** What a batch is run on: clean citations, each listed in the table literal. */
  ghost predicate WellPosed(env: Env, drifts: seq<Drift>, at: seq<nat>) {
    && CleanDrifts(drifts)
    && Faithful(env.doc) && Faithful(env.table)
    && Listed(env.table.pieces(env.disk(env.tablePath)), drifts, at)
  }

  /** The table lists each drift of the batch at its own row, and beside it at most. */
  ghost predicate ListedOnce(parts: seq<string>, drifts: seq<Drift>) {
    forall d :: d in drifts ==> OnceOrTwin(parts, d.oldRaw)
  }

  /** No citation is moved twice, and none is moved onto text a later drift looks for. */
  ghost predicate NoChain(drifts: seq<Drift>) {
    forall j, k :: 0 <= j < k < |drifts| ==>
      drifts[j].oldRaw != drifts[k].oldRaw && drifts[j].newRaw != drifts[k].oldRaw
  }

  lemma {:induction false} BatchMapSources(drifts: seq<Drift>)
    ensures forall k :: k in BatchMap(drifts) ==>
              exists j :: 0 <= j < |drifts| && drifts[j].oldRaw == k && drifts[j].newRaw == BatchMap(drifts)[k]
    ensures forall d :: d in drifts ==> d.oldRaw in BatchMap(drifts)
  {
    if drifts != [] {
      var front, n := drifts[..|drifts| - 1], |drifts| - 1;
      BatchMapSources(front);
      forall k | k in BatchMap(drifts)
        ensures exists j :: 0 <= j < |drifts| && drifts[j].oldRaw == k && drifts[j].newRaw == BatchMap(drifts)[k]
      {
        if k == drifts[n].oldRaw {
          assert drifts[n].newRaw == BatchMap(drifts)[k];
        } else {
          var j :| 0 <= j < |front| && front[j].oldRaw == k && front[j].newRaw == BatchMap(front)[k];
          assert drifts[j] == front[j];
        }
      }
    }
  }

  lemma {:induction false} DocMapWithin(env: Env, drifts: seq<Drift>, p: Path)
    ensures forall k :: k in DocMap(env, drifts, p) ==>
              exists j :: 0 <= j < |drifts| && drifts[j].oldRaw == k && drifts[j].newRaw == DocMap(env, drifts, p)[k]
                          && env.docPath(drifts[j].doc) == p
  {
    if drifts != [] {
      var front, n := drifts[..|drifts| - 1], |drifts| - 1;
      var m := DocMap(env, drifts, p);
      DocMapWithin(env, front, p);
      forall k | k in m
        ensures exists j :: 0 <= j < |drifts| && drifts[j].oldRaw == k && drifts[j].newRaw == m[k]
                            && env.docPath(drifts[j].doc) == p
      {
        if k == drifts[n].oldRaw && env.docPath(drifts[n].doc) == p {
          assert drifts[n].newRaw == m[k];
        } else {
          assert k in DocMap(env, front, p) && DocMap(env, front, p)[k] == m[k];
          var j :| 0 <= j < |front| && front[j].oldRaw == k && front[j].newRaw == DocMap(env, front, p)[k]
                   && env.docPath(front[j].doc) == p;
          assert drifts[j] == front[j];
        }
      }
    }
  }

  lemma {:induction false} BatchMapExact(drifts: seq<Drift>)
    requires NoChain(drifts)
    ensures forall j :: 0 <= j < |drifts| ==>
              drifts[j].oldRaw in BatchMap(drifts) && BatchMap(drifts)[drifts[j].oldRaw] == drifts[j].newRaw
  {
    if drifts != [] {
      var front := drifts[..|drifts| - 1];
      assert forall j :: 0 <= j < |front| ==> drifts[j] == front[j];
      BatchMapExact(front);
    }
  }

  /** Two places that read one citation of the batch are neighbours. */
  lemma OnlyNeighbours(parts: seq<string>, raw: string, i: nat, j: nat)
    requires OnceOrTwin(parts, raw) && Inner(parts, i) && Inner(parts, j) && parts[i] == raw == parts[j]
    ensures -1 <= i - j <= 1
  {
    var a := OnePiece(parts, raw, raw);
  }

  /** A citation the batch moved shows its new text at its row or right before it. */
  lemma FirstShows(parts: seq<string>, drifts: seq<Drift>, j: nat, at: nat) returns (a: nat)
    requires j < |drifts| && NoChain(drifts) && ListedOnce(parts, drifts)
    requires Inner(parts, at) && parts[at] == drifts[j].oldRaw
    ensures Inner(parts, a) && at - 1 <= a <= at && FirstHere(parts, a) && parts[a] == drifts[j].oldRaw
    ensures FirstSub(parts, BatchMap(drifts))[a] == drifts[j].newRaw
  {
    assert drifts[j] in drifts;
    BatchMapExact(drifts);
    a := OnePiece(parts, drifts[j].oldRaw, drifts[j].oldRaw);
    forall i | 0 < i < a ensures parts[i] != parts[a] { assert Inner(parts, i); }
    assert FirstHere(parts, a);
  }

  /** The heart of the argument: the old text of the next drift still stands at its own
      row, so had an earlier drift written it elsewhere the table would show it twice. */
  lemma NeverWritten(parts: seq<string>, drifts: seq<Drift>, at: seq<nat>, d: Drift)
    requires Listed(parts, drifts + [d], at) && ListedOnce(parts, drifts) && NoChain(drifts)
    requires PieceCount(FirstSub(parts, BatchMap(drifts)), d.oldRaw) == 1
    ensures forall j :: 0 <= j < |drifts| ==> drifts[j].oldRaw != d.oldRaw && drifts[j].newRaw != d.oldRaw
  {
    var m, n, all := BatchMap(drifts), |drifts|, drifts + [d];
    var cur := FirstSub(parts, m);
    assert all[n] == d && parts[at[n]] == d.oldRaw;
    forall j | 0 <= j < n ensures drifts[j].oldRaw != d.oldRaw {
      assert all[j] == drifts[j] && at[j] + 2 <= at[n] && parts[at[j]] == drifts[j].oldRaw && drifts[j] in drifts;
      if drifts[j].oldRaw == d.oldRaw { OnlyNeighbours(parts, d.oldRaw, at[j], at[n]); }
    }
    assert cur[at[n]] == d.oldRaw by { BatchMapSources(drifts); }
    var a := OnePiece(cur, d.oldRaw, d.oldRaw);
    forall j | 0 <= j < n ensures drifts[j].newRaw != d.oldRaw {
      assert all[j] == drifts[j] && at[j] + 2 <= at[n];
      var written := FirstShows(parts, drifts, j, at[j]);
    }
  }

  /** What a batch with nothing unresolved has done to the table. */
  ghost predicate TableDone(env: Env, drifts: seq<Drift>, at: seq<nat>, after: string)
    requires WellPosed(env, drifts, at)
  {
    var table := env.disk(env.tablePath);
    && env.table.outside(after) == env.table.outside(table)
    && env.table.pieces(after) == FirstSub(env.table.pieces(table), BatchMap(drifts))
    && ListedOnce(env.table.pieces(table), drifts)
    && NoChain(drifts)
  }

  ghost predicate DocDone(env: Env, drifts: seq<Drift>, b: Batch, p: Path)
  { env.doc.pieces(DocText(env, b.docs, p)) == FirstSub(env.doc.pieces(env.disk(p)), DocMap(env, drifts, p)) }

  ghost predicate CitedOnce(env: Env, d: Drift)
  { OnceOrTwin(env.doc.pieces(env.disk(env.docPath(d.doc))), d.oldRaw) }

  /** What it has done to the docs. */
  ghost predicate DocsDone(env: Env, drifts: seq<Drift>, b: Batch)
  {
    && b.changed == DocsOf(env, drifts) + (if drifts == [] then {} else {env.tablePath})
    && b.docs.Keys == DocsOf(env, drifts)
    && (forall p :: DocDone(env, drifts, b, p))
    && (forall d :: d in drifts ==> CitedOnce(env, d))
  }

  lemma NothingToDo(env: Env, at: seq<nat>)
    requires WellPosed(env, [], at)
    ensures TableDone(env, [], at, ApplyDrifts(env, []).table) && DocsDone(env, [], ApplyDrifts(env, []))
  {
    var table := env.table.pieces(env.disk(env.tablePath));
    assert FirstSub(table, map[]) == table;
    forall p ensures DocDone(env, [], ApplyDrifts(env, []), p) {
      assert FirstSub(env.doc.pieces(env.disk(p)), map[]) == env.doc.pieces(env.disk(p));
    }
  }

  /** One drift on a batch that is done: both surfaces take exactly one more substitution. */
  lemma TableStep(parts: seq<string>, drifts: seq<Drift>, at: seq<nat>, d: Drift)
    requires Listed(parts, drifts + [d], at) && ListedOnce(parts, drifts) && NoChain(drifts)
    requires PieceCount(FirstSub(parts, BatchMap(drifts)), d.oldRaw) == 1
    ensures PieceReplace(FirstSub(parts, BatchMap(drifts)), d.oldRaw, d.newRaw)
            == FirstSub(parts, BatchMap(drifts + [d]))
    ensures ListedOnce(parts, drifts + [d]) && NoChain(drifts + [d])
  {
    var n, all := |drifts|, drifts + [d];
    assert all[..n] == drifts && all[n] == d;
    assert forall k :: 0 <= k < n ==> all[k] == drifts[k];
    NeverWritten(parts, drifts, at, d);
    BatchMapSources(drifts);
    SubstituteOne(parts, BatchMap(drifts), d.oldRaw, d.newRaw);
  }

  lemma DocStep(env: Env, drifts: seq<Drift>, d: Drift, text: string, parts: seq<string>)
    requires Faithful(env.doc) && Clean(d.oldRaw) && Clean(d.newRaw)
    requires forall j :: 0 <= j < |drifts| ==> drifts[j].oldRaw != d.oldRaw && drifts[j].newRaw != d.oldRaw
    requires env.doc.pieces(text) == FirstSub(parts, DocMap(env, drifts, env.docPath(d.doc)))
    requires env.doc.rewrite(text, d.oldRaw, d.newRaw).Some?
    ensures env.doc.pieces(env.doc.rewrite(text, d.oldRaw, d.newRaw).value)
            == FirstSub(parts, DocMap(env, drifts + [d], env.docPath(d.doc)))
    ensures OnceOrTwin(parts, d.oldRaw)
  {
    var p := env.docPath(d.doc);
    var m := DocMap(env, drifts, p);
    assert OnePieceRewritten(env.doc, text, d.oldRaw, d.newRaw, env.doc.rewrite(text, d.oldRaw, d.newRaw).value);
    DocMapWithin(env, drifts, p);
    forall k | k in m ensures k != d.oldRaw && m[k] != d.oldRaw {
      var j :| 0 <= j < |drifts| && drifts[j].oldRaw == k && drifts[j].newRaw == m[k]
               && env.docPath(drifts[j].doc) == p;
    }
    SubstituteOne(parts, m, d.oldRaw, d.newRaw);
    assert (drifts + [d])[..|drifts|] == drifts;
  }

  lemma OneMoreTable(env: Env, drifts: seq<Drift>, at: seq<nat>, d: Drift, before: string, after: string)
    requires WellPosed(env, drifts + [d], at) && WellPosed(env, drifts, at[..|drifts|])
    requires TableDone(env, drifts, at[..|drifts|], before)
    requires env.table.rewrite(before, d.oldRaw, d.newRaw) == Some(after)
    ensures TableDone(env, drifts + [d], at, after)
  {
    assert (drifts + [d])[|drifts|] == d && d in drifts + [d];
    var table := env.table.pieces(env.disk(env.tablePath));
    assert OnePieceRewritten(env.table, before, d.oldRaw, d.newRaw, after);
    TableStep(table, drifts, at, d);
  }

  lemma WrittenDoc(env: Env, drifts: seq<Drift>, d: Drift, b0: Batch, b: Batch, p: Path, doc: string)
    requires Faithful(env.doc) && Clean(d.oldRaw) && Clean(d.newRaw)
    requires NoChain(drifts + [d])
    requires p == env.docPath(d.doc) && DocDone(env, drifts, b0, p)
    requires env.doc.rewrite(DocText(env, b0.docs, p), d.oldRaw, d.newRaw) == Some(doc) && b.docs == b0.docs[p := doc]
    ensures DocDone(env, drifts + [d], b, p) && CitedOnce(env, d)
  {
    var n, all := |drifts|, drifts + [d];
    assert all[n] == d && forall k :: 0 <= k < n ==> all[k] == drifts[k];
    DocStep(env, drifts, d, DocText(env, b0.docs, p), env.doc.pieces(env.disk(p)));
  }

  lemma OtherDoc(env: Env, drifts: seq<Drift>, d: Drift, b0: Batch, b: Batch, p: Path)
    requires p != env.docPath(d.doc)
    requires DocDone(env, drifts, b0, p) && DocText(env, b.docs, p) == DocText(env, b0.docs, p)
    ensures DocDone(env, drifts + [d], b, p)
  {
    assert (drifts + [d])[..|drifts|] == drifts;
    assert DocMap(env, drifts + [d], p) == DocMap(env, drifts, p);
  }

  lemma OneMoreDoc(env: Env, drifts: seq<Drift>, d: Drift, b0: Batch, b: Batch, doc: string)
    requires Faithful(env.doc) && Clean(d.oldRaw) && Clean(d.newRaw)
    requires DocsDone(env, drifts, b0) && NoChain(drifts + [d])
    requires var p := env.docPath(d.doc);
             env.doc.rewrite(DocText(env, b0.docs, p), d.oldRaw, d.newRaw) == Some(doc) && b.docs == b0.docs[p := doc]
             && b.changed == b0.changed + {p, env.tablePath}
    ensures DocsDone(env, drifts + [d], b)
  {
    var p := env.docPath(d.doc);
    WrittenDoc(env, drifts, d, b0, b, p, doc);
    assert DocsOf(env, drifts + [d]) == DocsOf(env, drifts) + {p};
    forall q ensures DocDone(env, drifts + [d], b, q) {
      if q != p { OtherDoc(env, drifts, d, b0, b, q); }
    }
  }

  lemma PrefixWellPosed(env: Env, drifts: seq<Drift>, at: seq<nat>, n: nat)
    requires WellPosed(env, drifts, at) && n <= |drifts|
    ensures WellPosed(env, drifts[..n], at[..n])
  {
    assert forall d :: d in drifts[..n] ==> d in drifts;
  }

  /** The last step of a batch with nothing unresolved. */
  lemma LastStep(env: Env, drifts: seq<Drift>, d: Drift) returns (b0: Batch, doc: string)
    requires ApplyDrifts(env, drifts + [d]).unresolved == []
    ensures b0 == ApplyDrifts(env, drifts) && b0.unresolved == []
    ensures var b, p := ApplyDrifts(env, drifts + [d]), env.docPath(d.doc);
            && env.table.rewrite(b0.table, d.oldRaw, d.newRaw) == Some(b.table)
            && env.doc.rewrite(DocText(env, b0.docs, p), d.oldRaw, d.newRaw) == Some(doc)
            && b.docs == b0.docs[p := doc] && b.changed == b0.changed + {p, env.tablePath}
  {
    var all := drifts + [d];
    assert all[..|drifts|] == drifts && all[|drifts|] == d;
    b0 := ApplyDrifts(env, drifts);
    assert ApplyDrifts(env, all) == ApplyDrift(env, d, b0);
    doc := env.doc.rewrite(DocText(env, b0.docs, env.docPath(d.doc)), d.oldRaw, d.newRaw).value;
  }

  lemma OneMore(env: Env, drifts: seq<Drift>, at: seq<nat>, d: Drift, b0: Batch, b: Batch)
    requires WellPosed(env, drifts + [d], at) && WellPosed(env, drifts, at[..|drifts|])
    requires ApplyDrifts(env, drifts) == b0 && ApplyDrifts(env, drifts + [d]) == b && b.unresolved == []
    requires TableDone(env, drifts, at[..|drifts|], b0.table) && DocsDone(env, drifts, b0)
    ensures TableDone(env, drifts + [d], at, b.table) && DocsDone(env, drifts + [d], b)
  {
    assert d in drifts + [d];
    var b', doc := LastStep(env, drifts, d);
    OneMoreTable(env, drifts, at, d, b0.table, b.table);
    OneMoreDoc(env, drifts, d, b0, b, doc);
  }

  lemma {:induction false} BatchIsDone(env: Env, drifts: seq<Drift>, at: seq<nat>)
    requires WellPosed(env, drifts, at) && ApplyDrifts(env, drifts).unresolved == []
    ensures TableDone(env, drifts, at, ApplyDrifts(env, drifts).table)
            && DocsDone(env, drifts, ApplyDrifts(env, drifts))
  {
    if drifts == [] {
      NothingToDo(env, at);
    } else {
      var n := |drifts| - 1;
      assert drifts == drifts[..n] + [drifts[n]];
      PrefixWellPosed(env, drifts, at, n);
      BatchIsDone(env, drifts[..n], at[..n]);
      OneMore(env, drifts[..n], at, drifts[n], ApplyDrifts(env, drifts[..n]), ApplyDrifts(env, drifts));
    }
  }

  /** A batch that resolves every drift is one simultaneous substitution of the table
      literal, with the rest of that file untouched, and of every doc the batch cites from:
      in each of them exactly when it never quotes one old citation twice in a row. No
      drift rewrites text an earlier drift wrote. */
  lemma ApplyIsSimultaneous(env: Env, drifts: seq<Drift>, at: seq<nat>)
    requires WellPosed(env, drifts, at) && ApplyDrifts(env, drifts).unresolved == []
    requires forall d :: d in drifts ==> env.docPath(d.doc) != env.tablePath
    ensures var texts := Finished(env, ApplyDrifts(env, drifts));
      && texts.Keys == DocsOf(env, drifts) + (if drifts == [] then {} else {env.tablePath})
      && (drifts != [] ==>
            && env.table.outside(texts[env.tablePath]) == env.table.outside(env.disk(env.tablePath))
            && (env.table.pieces(texts[env.tablePath])
                == Simultaneous(env.table.pieces(env.disk(env.tablePath)), BatchMap(drifts))
                <==> NoTwins(env.table.pieces(env.disk(env.tablePath)), BatchMap(drifts).Keys)))
      && forall p :: p in DocsOf(env, drifts) ==>
           (env.doc.pieces(texts[p]) == Simultaneous(env.doc.pieces(env.disk(p)), DocMap(env, drifts, p))
            <==> NoTwins(env.doc.pieces(env.disk(p)), DocMap(env, drifts, p).Keys))
    ensures NoChain(drifts)
  {
    var b := ApplyDrifts(env, drifts);
    BatchIsDone(env, drifts, at);
    TableSimultaneous(env, drifts, at, b.table);
    forall p | p in DocsOf(env, drifts)
      ensures p != env.tablePath && p in b.docs
      ensures env.doc.pieces(b.docs[p]) == Simultaneous(env.doc.pieces(env.disk(p)), DocMap(env, drifts, p))
              <==> NoTwins(env.doc.pieces(env.disk(p)), DocMap(env, drifts, p).Keys)
    {
      DocSimultaneous(env, drifts, b, p);
    }
  }

  lemma TableSimultaneous(env: Env, drifts: seq<Drift>, at: seq<nat>, after: string)
    requires WellPosed(env, drifts, at) && TableDone(env, drifts, at, after)
    ensures env.table.pieces(after) == Simultaneous(env.table.pieces(env.disk(env.tablePath)), BatchMap(drifts))
            <==> NoTwins(env.table.pieces(env.disk(env.tablePath)), BatchMap(drifts).Keys)
  {
    BatchMapSources(drifts);
    FirstSubIsSimultaneous(env.table.pieces(env.disk(env.tablePath)), BatchMap(drifts));
  }

  lemma DocSimultaneous(env: Env, drifts: seq<Drift>, b: Batch, p: Path)
    requires CleanDrifts(drifts) && DocsDone(env, drifts, b) && p in b.docs
    ensures env.doc.pieces(b.docs[p]) == Simultaneous(env.doc.pieces(env.disk(p)), DocMap(env, drifts, p))
            <==> NoTwins(env.doc.pieces(env.disk(p)), DocMap(env, drifts, p).Keys)
  {
    var parts, m := env.doc.pieces(env.disk(p)), DocMap(env, drifts, p);
    assert DocDone(env, drifts, b, p);
    DocMapWithin(env, drifts, p);
    forall k | k in m ensures m[k] != k && OnceOrTwin(parts, k) {
      var j :| 0 <= j < |drifts| && drifts[j].oldRaw == k && drifts[j].newRaw == m[k]
               && env.docPath(drifts[j].doc) == p;
      assert drifts[j] in drifts && CitedOnce(env, drifts[j]);
    }
    FirstSubIsSimultaneous(parts, m);
  }

  // ----- plan, apply, plan again -----

  /** The table literal quotes every row's citation, in order, with text between two rows. */
  ghost predicate ListsRows(parts: seq<string>, rows: seq<Row>, at: seq<nat>) {
    && |at| == |rows|
    && (forall k :: 0 <= k < |at| ==> Inner(parts, at[k]) && parts[at[k]] == rows[k].raw)
    && forall i, j :: 0 <= i < j < |at| ==> at[i] + 2 <= at[j]
  }

  ghost predicate GoodRows(rows: seq<Row>) {
    forall r :: r in rows ==> Readable(r) && Clean(r.raw)
  }

  /** Where the rows that drifted are listed. */
  function DriftAt(c: Checker, rows: seq<Row>, at: seq<nat>): seq<nat>
    requires |at| == |rows| && forall r :: r in rows ==> Readable(r)
  {
    if rows == [] then []
    else
      var n := |rows| - 1;
      DriftAt(c, rows[..n], at[..n]) + (if RowDrift(c, rows[n]) == [] then [] else [at[n]])
  }

  lemma {:induction false} DriftsAreListed(c: Checker, rows: seq<Row>, at: seq<nat>, parts: seq<string>)
    requires GoodRows(rows) && ListsRows(parts, rows, at)
    ensures Listed(parts, Drifts(c, rows), DriftAt(c, rows, at)) && CleanDrifts(Drifts(c, rows))
  {
    if rows != [] {
      var n := |rows| - 1;
      var fat := DriftAt(c, rows[..n], at[..n]);
      assert rows[n] in rows;
      DriftsAreListed(c, rows[..n], at[..n], parts);
      if RowDrift(c, rows[n]) != [] {
        RowDriftSound(c, rows[n]);
        DriftAtWithin(c, rows[..n], at[..n]);
        forall i | 0 <= i < |fat| ensures fat[i] + 2 <= at[n] { assert fat[i] in at[..n]; }
      }
    }
  }

  lemma RowsDrift(c: Checker, rows: seq<Row>, k: nat, d: Drift)
    requires (forall r :: r in rows ==> Readable(r)) && k < |rows| && rows[k] in rows && d in RowDrift(c, rows[k])
    ensures d in Drifts(c, rows)
  {
    GatheredHas(rows, DriftOf(c), k, d);
  }

  /** The piece right before a row reads the row's own citation. */
  predicate LeftTwin(parts: seq<string>, i: nat)
    requires Inner(parts, i)
  { i > 1 && parts[i - 1] == parts[i] }

  /** Row `k` of the rewritten table reads what the plan asked for, unless the copy right
      before it was rewritten in its place. */
  lemma RowAfter(c: Checker, rows: seq<Row>, at: seq<nat>, parts: seq<string>, k: nat)
    requires GoodRows(rows) && ListsRows(parts, rows, at) && k < |rows| && rows[k] in rows
    requires ListedOnce(parts, Drifts(c, rows)) && NoChain(Drifts(c, rows))
    ensures FirstSub(parts, BatchMap(Drifts(c, rows)))[at[k]] == Reanchored(c, rows[k]).raw
            <==> RowDrift(c, rows[k]) == [] || !LeftTwin(parts, at[k])
  {
    var drifts := Drifts(c, rows);
    if RowDrift(c, rows[k]) != [] {
      var d := RowDrift(c, rows[k])[0];
      RowsDrift(c, rows, k, d);
      RowDriftSound(c, rows[k]);
      DriftShows(parts, drifts, d, at[k]);
    } else {
      StillRowIsNoKey(c, rows, at, parts, k);
    }
  }

  lemma DriftShows(parts: seq<string>, drifts: seq<Drift>, d: Drift, at: nat)
    requires ListedOnce(parts, drifts) && NoChain(drifts) && d in drifts && d.newRaw != d.oldRaw
    requires Inner(parts, at) && parts[at] == d.oldRaw
    ensures FirstSub(parts, BatchMap(drifts))[at] == d.newRaw <==> !LeftTwin(parts, at)
  {
    BatchMapExact(drifts);
    var j :| 0 <= j < |drifts| && drifts[j] == d;
    var a := FirstShows(parts, drifts, j, at);
    assert LeftTwin(parts, at) <==> !FirstHere(parts, at);
  }

  lemma StillRowIsNoKey(c: Checker, rows: seq<Row>, at: seq<nat>, parts: seq<string>, k: nat)
    requires GoodRows(rows) && ListsRows(parts, rows, at) && k < |rows| && rows[k] in rows
    requires ListedOnce(parts, Drifts(c, rows)) && RowDrift(c, rows[k]) == []
    ensures rows[k].raw !in BatchMap(Drifts(c, rows))
  {
    var drifts := Drifts(c, rows);
    BatchMapSources(drifts);
    forall j | 0 <= j < |drifts| ensures drifts[j].oldRaw != rows[k].raw {
      StillRowIsNoDrift(c, rows, at, parts, k, j);
    }
  }

  lemma StillRowIsNoDrift(c: Checker, rows: seq<Row>, at: seq<nat>, parts: seq<string>, k: nat, j: nat)
    requires GoodRows(rows) && ListsRows(parts, rows, at) && k < |rows| && rows[k] in rows
    requires ListedOnce(parts, Drifts(c, rows)) && RowDrift(c, rows[k]) == [] && j < |Drifts(c, rows)|
    ensures Drifts(c, rows)[j].oldRaw != rows[k].raw
  {
    var d, at' := Drifts(c, rows)[j], DriftAt(c, rows, at);
    DriftsAreListed(c, rows, at, parts);
    StillRowIsNotListed(c, rows, at, k);
    DriftAtWithin(c, rows, at);
    assert at'[j] in at' && d in Drifts(c, rows);
    if d.oldRaw == rows[k].raw { OnlyNeighbours(parts, rows[k].raw, at'[j], at[k]); }
  }

  lemma {:induction false} StillRowIsNotListed(c: Checker, rows: seq<Row>, at: seq<nat>, k: nat)
    requires |at| == |rows| && (forall r :: r in rows ==> Readable(r)) && k < |rows| && rows[k] in rows
    requires RowDrift(c, rows[k]) == [] && forall i, j :: 0 <= i < j < |at| ==> at[i] + 2 <= at[j]
    ensures at[k] !in DriftAt(c, rows, at)
  {
    var n := |rows| - 1;
    assert rows[n] in rows;
    DriftAtWithin(c, rows[..n], at[..n]);
    if k < n {
      assert rows[..n][k] == rows[k] && at[..n][k] == at[k];
      StillRowIsNotListed(c, rows[..n], at[..n], k);
    }
  }

  lemma {:induction false} DriftAtWithin(c: Checker, rows: seq<Row>, at: seq<nat>)
    requires |at| == |rows| && forall r :: r in rows ==> Readable(r)
    ensures forall p :: p in DriftAt(c, rows, at) ==> p in at
  {
    if rows != [] {
      var n := |rows| - 1;
      assert rows[n] in rows && forall r :: r in rows[..n] ==> r in rows;
      DriftAtWithin(c, rows[..n], at[..n]);
      assert at[n] in at && forall p :: p in at[..n] ==> p in at;
    }
  }

  /** Planning over the re-anchored rows finds no drift: a second run has nothing left to
      do. After a successful `--apply` those are the rows the table literal lists, exactly
      when no drifted row follows right on a copy of its own citation. */
  lemma ApplySettles(env: Env, c: Checker, rows: seq<Row>, at: seq<nat>)
    requires Faithful(env.doc) && Faithful(env.table) && GoodRows(rows)
    requires ListsRows(env.table.pieces(env.disk(env.tablePath)), rows, at)
    requires ApplyDrifts(env, Drifts(c, rows)).unresolved == []
    ensures var parts := env.table.pieces(env.disk(env.tablePath));
      var after, rows' := env.table.pieces(ApplyDrifts(env, Drifts(c, rows)).table), ReanchoredTable(c, rows);
      && (ListsRows(after, rows', at)
          <==> forall k :: 0 <= k < |rows| && LeftTwin(parts, at[k]) ==> DriftOf(c)(rows[k]) == [])
      && (forall r :: r in rows' ==> Readable(r)) && Drifts(c, rows') == []
  {
    var parts, drifts, at' := env.table.pieces(env.disk(env.tablePath)), Drifts(c, rows), DriftAt(c, rows, at);
    DriftsAreListed(c, rows, at, parts);
    BatchIsDone(env, drifts, at');
    PlanSettles(c, rows);
    var after, rows' := env.table.pieces(ApplyDrifts(env, drifts).table), ReanchoredTable(c, rows);
    forall k | 0 <= k < |rows|
      ensures after[at[k]] == rows'[k].raw <==> DriftOf(c)(rows[k]) == [] || !LeftTwin(parts, at[k])
    {
      assert rows[k] in rows;
      RowAfter(c, rows, at, parts, k);
      assert rows'[k] == Reanchored(c, rows[k]);
    }
    assert |after| == |parts|;
  }

  /** Why the docs need the condition: `str.count` sees one of two neighbouring copies, and
      the rewrite reaches only that one. */
  lemma TwinIsHalfRewritten(raw: string, newRaw: string)
    requires Clean(raw) && Clean(newRaw) && raw != newRaw
    ensures var twin := Join(["", raw, raw, ""], '`');
            Rewrite(twin, raw, newRaw) == Some(Join(["", newRaw, raw, ""], '`'))
  {
    var parts := ["", raw, raw, ""];
    CountIsPieceCount(parts, raw, '`');
    ReplaceIsPieceReplace(parts, raw, newRaw, '`');
    assert parts[2..] == [raw, ""];
    assert PieceCount(parts, raw) == 1;
    assert PieceReplace(parts, raw, newRaw) == ["", newRaw, raw, ""];
  }
}
