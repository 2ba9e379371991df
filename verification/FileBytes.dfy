/** What `--apply` does to the bytes of a file. The script reads text, where every line ending
    is a newline, and writes that text back byte by byte. */
module FileBytes {
  import opened Counting
  import opened PyText
  import opened Citations
  import opened Reanchor
  import opened Surfaces

  ghost predicate NoCR(parts: seq<string>) { forall i :: 0 <= i < |parts| ==> '\r' !in parts[i] }

  ghost predicate MapNoCR(m: map<string, string>) { forall k :: k in m ==> '\r' !in k && '\r' !in m[k] }

  lemma {:induction false} JoinHas(parts: seq<string>, d: char, ch: char)
    requires d != ch
    ensures ch in Join(parts, d) <==> exists i :: 0 <= i < |parts| && ch in parts[i]
  {
    if |parts| > 1 {
      JoinHas(parts[1..], d, ch);
      if exists i :: 0 <= i < |parts| && ch in parts[i] {
        var i :| 0 <= i < |parts| && ch in parts[i];
        if i > 0 { assert ch in parts[1..][i - 1]; }
      }
    }
  }

  lemma PiecesHold(text: string, d: char)
    requires d != '\r'
    ensures NoCR(Split(text, d)) <==> '\r' !in text
  {
    JoinHas(Split(text, d), d, '\r');
  }

  /** A piece with a carriage return is no key, and does not come out of a substitution. */
  lemma SubstitutedLacks(read: seq<string>, file: seq<string>, m: map<string, string>)
    requires NoCR(read) && MapNoCR(m) && FirstSub(read, m) == FirstSub(file, m)
    ensures NoCR(file)
  {
    forall i | 0 <= i < |file| ensures '\r' !in file[i] {
      assert FirstSub(read, m)[i] == FirstSub(file, m)[i];
    }
  }

  /** Only the batch's citations differ from the file, which for the table stand in the literal. */
  ghost predicate DocKept(file: string, after: string, m: map<string, string>) {
    DocPieces(after) == FirstSub(DocPieces(file), m)
  }

  ghost predicate TableKept(file: string, after: string, m: map<string, string>) {
    TableOutside(after) == TableOutside(file) && TablePieces(after) == FirstSub(TablePieces(file), m)
  }

  lemma DocBytes(file: string, after: string, m: map<string, string>)
    requires MapNoCR(m) && DocKept(Universal(file), after, m)
    ensures DocKept(file, after, m) <==> '\r' !in file
  {
    UniversalHasNoCR(file);
    PiecesHold(Universal(file), '`');
    PiecesHold(file, '`');
    if DocKept(file, after, m) {
      SubstitutedLacks(DocPieces(Universal(file)), DocPieces(file), m);
    }
  }

  /** The pieces of the literal and the text around it are all of the table's file. */
  lemma TableHolds(text: string)
    ensures '\r' !in text <==>
              NoCR(TablePieces(text)) && '\r' !in TableOutside(text).0 && '\r' !in TableOutside(text).1
  {
    if TableSlice(text).Some? {
      var (start, end) := TableSlice(text).value;
      PiecesHold(text[start..end], '"');
      assert text == text[..start] + text[start..end] + text[end..];
    }
  }

  lemma TableBytes(file: string, after: string, m: map<string, string>)
    requires MapNoCR(m) && TableKept(Universal(file), after, m)
    ensures TableKept(file, after, m) <==> '\r' !in file
  {
    UniversalHasNoCR(file);
    TableHolds(Universal(file));
    TableHolds(file);
    if TableKept(file, after, m) {
      SubstitutedLacks(TablePieces(Universal(file)), TablePieces(file), m);
    }
  }

  // ----- a whole batch -----

  lemma DriftLacks(c: Checker, rows: seq<Row>, parts: seq<string>, j: nat)
    requires (forall r :: r in rows ==> Readable(r)) && j < |Drifts(c, rows)| && ListedOnce(parts, Drifts(c, rows))
    requires NoCR(parts)
    ensures var d := Drifts(c, rows)[j]; '\r' !in d.oldRaw && '\r' !in d.newRaw
  {
    var d := Drifts(c, rows)[j];
    assert d in Drifts(c, rows);
    var a := OnePiece(parts, d.oldRaw, d.oldRaw);
    var k := GatheredFrom(rows, DriftOf(c), d);
    assert rows[k] in rows;
    NewRawLacksCR(rows[k].raw, SymbolDrift(c, rows[k]).value);
  }

  /** What a resolved batch rewrites, and rewrites it to, holds no carriage return. */
  lemma BatchLacks(env: Env, c: Checker, rows: seq<Row>, parts: seq<string>)
    requires (forall r :: r in rows ==> Readable(r)) && ListedOnce(parts, Drifts(c, rows)) && NoCR(parts)
    ensures MapNoCR(BatchMap(Drifts(c, rows)))
    ensures forall p :: MapNoCR(DocMap(env, Drifts(c, rows), p))
  {
    forall j | 0 <= j < |Drifts(c, rows)|
      ensures '\r' !in Drifts(c, rows)[j].oldRaw && '\r' !in Drifts(c, rows)[j].newRaw {
      DriftLacks(c, rows, parts, j);
    }
    BatchMapSources(Drifts(c, rows));
    forall p ensures MapNoCR(DocMap(env, Drifts(c, rows), p)) { DocMapWithin(env, Drifts(c, rows), p); }
  }

  lemma BatchBytes(env: Env, files: Path -> string, c: Checker, rows: seq<Row>, at: seq<nat>)
    requires env == ScriptEnv(env.docPath, env.tablePath, env.disk) && Faithful(env.doc) && Faithful(env.table)
    requires GoodRows(rows) && ListsRows(TablePieces(env.disk(env.tablePath)), rows, at)
    requires forall p :: env.disk(p) == Universal(files(p))
    requires forall d :: d in Drifts(c, rows) ==> env.docPath(d.doc) != env.tablePath
    requires ApplyDrifts(env, Drifts(c, rows)).unresolved == []
    ensures var drifts := Drifts(c, rows); var b := ApplyDrifts(env, drifts);
      && b.changed == DocsOf(env, drifts) + (if drifts == [] then {} else {env.tablePath})
      && (TableKept(files(env.tablePath), b.table, BatchMap(drifts)) <==> '\r' !in files(env.tablePath))
      && forall p :: p in DocsOf(env, drifts) ==>
           (DocKept(files(p), DocText(env, b.docs, p), DocMap(env, drifts, p)) <==> '\r' !in files(p))
  {
    var parts, drifts := TablePieces(env.disk(env.tablePath)), Drifts(c, rows);
    var b := ApplyDrifts(env, drifts);
    DriftsAreListed(c, rows, at, parts);
    BatchIsDone(env, drifts, DriftAt(c, rows, at));
    UniversalHasNoCR(files(env.tablePath));
    TableHolds(env.disk(env.tablePath));
    BatchLacks(env, c, rows, parts);
    TableBytes(files(env.tablePath), b.table, BatchMap(drifts));
    forall p | p in DocsOf(env, drifts)
      ensures DocKept(files(p), DocText(env, b.docs, p), DocMap(env, drifts, p)) <==> '\r' !in files(p)
    {
      assert DocDone(env, drifts, b, p);
      DocBytes(files(p), DocText(env, b.docs, p), DocMap(env, drifts, p));
    }
  }

  /** A resolved `--apply` leaves everything of a file but its citations byte for byte as it
      was exactly if the file holds no carriage return: one with CRLF endings loses them. */
  lemma ApplyKeepsBytesIff(env: Env, files: Path -> string, c: Checker, rows: seq<Row>, at: seq<nat>)
    requires env == ScriptEnv(env.docPath, env.tablePath, env.disk) && forall p :: env.disk(p) == Universal(files(p))
    requires GoodRows(rows) && ListsRows(TablePieces(env.disk(env.tablePath)), rows, at)
    requires forall d :: d in Drifts(c, rows) ==> env.docPath(d.doc) != env.tablePath
    requires ApplyDrifts(env, Drifts(c, rows)).unresolved == []
    ensures var drifts := Drifts(c, rows); var texts := Finished(env, ApplyDrifts(env, drifts));
      && texts.Keys == DocsOf(env, drifts) + (if drifts == [] then {} else {env.tablePath})
      && (drifts != [] ==>
            (TableKept(files(env.tablePath), texts[env.tablePath], BatchMap(drifts))
             <==> '\r' !in files(env.tablePath)))
      && forall p :: p in DocsOf(env, drifts) ==>
           (DocKept(files(p), texts[p], DocMap(env, drifts, p)) <==> '\r' !in files(p))
  {
    ScriptSurfacesFaithful(env.docPath, env.tablePath, env.disk);
    BatchBytes(env, files, c, rows, at);
  }
}
