/** The commit gate of scripts/precommit_manifest_gate.py as a guard on commits: what it lets
    through, and what its guard keeps along any run of commits. */
module Gate {
  import opened PyText
  import opened Manifest
  import D = Digest

  type Hash = D.Bytes -> string

  // ----- what the gate reads -----

  /** What a commit records: the files, and the manifest's text when there is one. */
  datatype Snapshot = Snapshot(files: map<string, D.Bytes>, manifest: Option<string>)

  /** The pins of a snapshot, or `None` when the manifest does not parse. */
  function PinsOf(s: Snapshot): Option<map<string, string>> {
    if s.manifest.None? then Some(map[])
    else match Parse(Universal(s.manifest.value)) case Rows(rows) => Some(rows) case _ => None
  }

  lemma PinsAreOneLine(s: Snapshot)
    ensures PinsOf(s).Some? ==> forall p :: p in PinsOf(s).value ==> '\n' !in p && '\r' !in p
  {
    if s.manifest.Some? {
      var text := Universal(s.manifest.value);
      UniversalHasNoCR(s.manifest.value);
      SplitFree(text, '\n');
      SplitFree(text, '\r');
      ReadPathsLack(Split(text, '\n'), '\n');
      ReadPathsLack(Split(text, '\n'), '\r');
    }
  }

  // ----- the gate -----

  datatype Offender = Offender(path: string, pinned: string, actual: string)

  /** A staged file whose bytes are not the ones its row pins. */
  predicate Offends(h: Hash, s: Snapshot, pins: map<string, string>, p: string) {
    p in pins && p in s.files && h(s.files[p]) != pins[p]
  }

  /** The offenders among some paths, in their order. */
  function Offenders(h: Hash, s: Snapshot, pins: map<string, string>, paths: seq<string>): (r: seq<Offender>)
    ensures forall o :: o in r <==> o.path in paths && Offends(h, s, pins, o.path)
                                    && o == Offender(o.path, pins[o.path], h(s.files[o.path]))
  {
    if paths == [] then []
    else
      var p := paths[|paths| - 1];
      assert paths == paths[..|paths| - 1] + [p];
      Offenders(h, s, pins, paths[..|paths| - 1])
      + if Offends(h, s, pins, p) then [Offender(p, pins[p], h(s.files[p]))] else []
  }

  /** The loop over the staged paths, as text mode hands them over. */
  method OffendersAmong(h: Hash, s: Snapshot, pins: map<string, string>, staged: seq<string>, own: string)
    returns (offenders: seq<Offender>)
    requires own !in s.files && forall p :: p in staged ==> p == own || p in s.files
    requires forall p :: p in pins ==> '\r' !in p && '\n' !in p
    ensures offenders == Offenders(h, s, pins, staged)
  {
    offenders := [];
    for i := 0 to |staged|
      invariant offenders == Offenders(h, s, pins, staged[..i])
    {
      var rel := Universal(staged[i]);
      assert staged[..i + 1][..i] == staged[..i];
      UniversalHasNoCR(staged[i]);
      if rel == own || rel !in pins {
        assert !Offends(h, s, pins, staged[i]);
        continue;
      }
      assert rel == staged[i] && staged[i] in staged;
      var actual := h(s.files[rel]);
      if actual != pins[rel] { offenders := offenders + [Offender(rel, pins[rel], actual)]; }
    }
    assert staged[..|staged|] == staged;
  }

  /** `own` is the manifest's own path, which stands apart from the other files. */
  method FindUnpinnedChanges(h: Hash, s: Snapshot, staged: seq<string>, own: string)
    returns (r: Option<seq<Offender>>)
    requires own !in s.files && forall p :: p in staged ==> p == own || p in s.files
    ensures r == match PinsOf(s) case None => None case Some(pins) => Some(Offenders(h, s, pins, staged))
  {
    var pins: map<string, string> := map[];
    if s.manifest.Some? {
      var parsed := ParseManifest(Universal(s.manifest.value));
      if !parsed.Rows? { return None; }
      pins := parsed.rows;
    }
    PinsAreOneLine(s);
    if pins == map[] {
      NoPinsNoOffenders(h, s, staged);
      return Some([]);
    }
    var offenders := OffendersAmong(h, s, pins, staged, own);
    r := Some(offenders);
  }

  lemma {:induction false} NoPinsNoOffenders(h: Hash, s: Snapshot, paths: seq<string>)
    ensures Offenders(h, s, map[], paths) == []
  {
    if paths != [] { NoPinsNoOffenders(h, s, paths[..|paths| - 1]); }
  }

  // ----- commits -----

  /** A commit: the paths it stages, and the snapshot it records. */
  datatype Commit = Commit(staged: seq<string>, after: Snapshot)

  /** Every file the commit adds or modifies is staged; a staged path is the manifest's own
      or one of a file that is there. */
  ghost predicate Records(before: Snapshot, c: Commit, own: string) {
    && own !in c.after.files
    && (forall p :: p in c.staged ==> p == own || p in c.after.files)
    && (forall p :: p in c.after.files ==>
          p in c.staged || (p in before.files && before.files[p] == c.after.files[p]))
  }

  /** The hook's verdict: it lets the commit pass when it finds nothing. */
  method Gate(h: Hash, before: Snapshot, c: Commit, own: string) returns (passes: bool)
    requires Records(before, c, own)
    ensures passes <==> Passes(h, c)
  {
    var found := FindUnpinnedChanges(h, c.after, c.staged, own);
    passes := found == Some([]);
    if found.Some? && found.value != [] { assert found.value[0] in found.value; }
    if PinsOf(c.after).Some? {
      ghost var pins := PinsOf(c.after).value;
      forall p | p in c.staged && Offends(h, c.after, pins, p) ensures found.value != [] {
        assert Offender(p, pins[p], h(c.after.files[p])) in found.value;
      }
    }
  }

  ghost predicate Passes(h: Hash, c: Commit) {
    PinsOf(c.after).Some? && forall p :: p in c.staged ==> !Offends(h, c.after, PinsOf(c.after).value, p)
  }

  /** No pinned file that is present differs from its pin. */
  ghost predicate Pinned(h: Hash, s: Snapshot) {
    PinsOf(s).Some? && forall p :: !Offends(h, s, PinsOf(s).value, p)
  }

  /** A row the commit writes without staging the file it names. */
  ghost predicate LooseRow(before: Snapshot, c: Commit, p: string)
    requires PinsOf(before).Some? && PinsOf(c.after).Some?
  {
    var was, now := PinsOf(before).value, PinsOf(c.after).value;
    p in now && p in c.after.files && p !in c.staged && !(p in was && was[p] == now[p])
  }

  ghost predicate Disciplined(before: Snapshot, c: Commit)
    requires PinsOf(before).Some?
  {
    PinsOf(c.after).Some? ==> forall p :: !LooseRow(before, c, p)
  }

  /** From a state where the pins hold, a commit leaves them holding exactly when the gate
      passes it and every row it writes for an unstaged file is that file's hash. */
  lemma GateIsExact(h: Hash, before: Snapshot, c: Commit, own: string)
    requires Records(before, c, own) && Pinned(h, before)
    ensures Pinned(h, c.after) <==>
            Passes(h, c) && forall p :: LooseRow(before, c, p) ==> !Offends(h, c.after, PinsOf(c.after).value, p)
  {
    if Passes(h, c) {
      var now := PinsOf(c.after).value;
      forall p | Offends(h, c.after, now, p) ensures LooseRow(before, c, p) {
        assert !Offends(h, before, PinsOf(before).value, p) && p !in c.staged;
      }
    }
  }

  // ----- runs -----

  lemma PinsHoldOnce(h: Hash, before: Snapshot, c: Commit, own: string)
    requires Records(before, c, own) && Pinned(h, before) && Passes(h, c) && Disciplined(before, c)
    ensures Pinned(h, c.after)
  {
    GateIsExact(h, before, c, own);
  }

  ghost predicate Run(before: Snapshot, commits: seq<Commit>, own: string)
    decreases |commits|
  {
    commits == [] || (Records(before, commits[0], own) && Run(commits[0].after, commits[1..], own))
  }

  /** Each commit passes the gate and writes rows only for files it stages. */
  ghost predicate Gated(h: Hash, before: Snapshot, commits: seq<Commit>)
    requires PinsOf(before).Some?
    decreases |commits|
  {
    commits == []
    || (Passes(h, commits[0]) && Disciplined(before, commits[0]) && Gated(h, commits[0].after, commits[1..]))
  }

  /** Along every run of such commits the pins hold after each. */
  lemma {:induction false} PinsHoldThroughout(h: Hash, before: Snapshot, commits: seq<Commit>, own: string, i: nat)
    requires Pinned(h, before) && Run(before, commits, own) && Gated(h, before, commits) && i < |commits|
    ensures Pinned(h, commits[i].after)
    decreases i
  {
    PinsHoldOnce(h, before, commits[0], own);
    if i > 0 { PinsHoldThroughout(h, commits[0].after, commits[1..], own, i - 1); }
  }

  /** Without the discipline the gate is not enough: a row rewritten for a file that is not
      staged passes, and the pin no longer holds. */
  lemma LooseRowSlips(h: Hash, data: D.Bytes, path: string, other: string, own: string)
    returns (before: Snapshot, c: Commit)
    requires IsDigest(h(data)) && IsDigest(other) && other != h(data)
    requires Plain(path) && '\r' !in path && path != own
    ensures Records(before, c, own) && Pinned(h, before) && Passes(h, c) && !Pinned(h, c.after)
  {
    var files := map[path := data];
    var was := OneRow(path, h(data));
    var now := OneRow(path, other);
    before := Snapshot(files, Some(was));
    c := Commit([own], Snapshot(files, Some(now)));
    OneRowCommit(h, data, path, other, own, before, c);
  }

  lemma OneRowCommit(h: Hash, data: D.Bytes, path: string, other: string, own: string, before: Snapshot, c: Commit)
    requires path != own && other != h(data) && c.staged == [own]
    requires before.files == map[path := data] == c.after.files
    requires PinsOf(before) == Some(map[path := h(data)]) && PinsOf(c.after) == Some(map[path := other])
    ensures Records(before, c, own) && Pinned(h, before) && Passes(h, c) && !Pinned(h, c.after)
  {
    assert Offends(h, c.after, map[path := other], path);
  }

  /** The text of a manifest with one row, which the gate reads back. */
  lemma OneRow(path: string, digest: string) returns (text: string)
    requires IsDigest(digest) && Plain(path) && '\r' !in path
    ensures Parse(Universal(text)) == Rows(map[path := digest])
  {
    text := Render([path], map[path := digest]);
    GateReadsManifest([path], map[path := digest]);
  }

  // ----- the gate's reading of the manifest -----

  /** The gate reads a written manifest as the checker does exactly when no path in it holds
      a carriage return: it sees the text after newline translation. */
  lemma GateReadsManifest(order: seq<string>, rows: map<string, string>)
    requires Lists(order, rows) && forall p :: p in rows ==> IsDigest(rows[p]) && Plain(p)
    ensures Parse(Render(order, rows)) == Rows(rows)
    ensures Parse(Universal(Render(order, rows))) == Rows(rows) <==> forall p :: p in rows ==> '\r' !in p
  {
    var text := Render(order, rows);
    ParseUndoesRender(order, rows);
    UniversalHasNoCR(text);
    if forall p :: p in rows ==> '\r' !in p {
      HeaderLinesIgnored();
      RenderedText(HEADER_LINES, order, rows);
      CRFreeLines(HEADER_LINES, order, rows);
    } else {
      PinsAreOneLine(Snapshot(map[], Some(text)));
    }
  }

  /** A path with a carriage return inside: the checker reads its row back, the gate does not. */
  lemma InnerCRIsMisread(digest: string)
    requires IsDigest(digest)
    ensures var text := Render(["a\rb"], map["a\rb" := digest]);
      Parse(text) == Rows(map["a\rb" := digest]) && Parse(Universal(text)) != Rows(map["a\rb" := digest])
  {
    assert Plain("a\rb") && '\r' in "a\rb" && "a\rb"[1] == '\r';
    GateReadsManifest(["a\rb"], map["a\rb" := digest]);
  }

  lemma CRFreeLines(header: seq<string>, order: seq<string>, rows: map<string, string>)
    requires forall l :: l in header ==> '\r' !in l
    requires forall p :: p in order ==> p in rows && IsDigest(rows[p]) && '\r' !in p
    ensures '\r' !in Terminated(header + RowLines(order, rows))
  {
    var lines := header + RowLines(order, rows);
    forall l | l in lines ensures '\r' !in l {
      if l !in header {
        var i :| 0 <= i < |order| && RowLines(order, rows)[i] == l;
        assert order[i] in order;
        assert l == rows[order[i]] + "  " + order[i];
      }
    }
    TerminatedLacks(lines);
  }

  lemma {:induction false} TerminatedLacks(lines: seq<string>)
    requires forall l :: l in lines ==> '\r' !in l
    ensures '\r' !in Terminated(lines)
  {
    if lines != [] {
      assert lines[|lines| - 1] in lines && forall l :: l in lines[..|lines| - 1] ==> l in lines;
      TerminatedLacks(lines[..|lines| - 1]);
    }
  }
}
