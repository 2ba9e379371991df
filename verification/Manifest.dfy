/** The manifest grammar of scripts/check_release_manifest.py: one `<sha256>  <path>` row per
    file, under a comment header, and what reading a written manifest gives back. */
module Manifest {
  import opened PyText
  import opened Order

  const MANIFEST_NAME := "RELEASE_MANIFEST.txt"

  // The header's lines, written in parts: the verifier is slow on long literals.
  const TITLE := "# RELEASE_MANIFEST.txt — the" + " release file inventory."
  const NOTE1 := "# One row per file: `<sha256>  <path>`." + " CI verifies a checkout against this"
  const NOTE2 := "# file with" + " scripts/check_release_manifest.py," + " so every content change is"
  const NOTE3 := "# visible here, like a lockfile." + " Rows are sorted by path."

  const HEADER_LINES: seq<string> := [TITLE, "#", NOTE1, NOTE2, NOTE3]

  // ----- reading -----

  /** What `str.strip` removes. */
  predicate IsSpace(c: char) {
    '\t' <= c <= '\r' || '\U{1c}' <= c <= ' ' || c == '\U{85}' || c == '\U{a0}' || c == '\U{1680}'
    || '\U{2000}' <= c <= '\U{200a}' || c == '\U{2028}' || c == '\U{2029}' || c == '\U{202f}'
    || c == '\U{205f}' || c == '\U{3000}'
  }

  /** A line with nothing but white space, or whose first other character is `#`. */
  predicate Ignored(s: string) {
    s == "" || (if IsSpace(s[0]) then Ignored(s[1..]) else s[0] == '#')
  }

  predicate IsHex(c: char) { '0' <= c <= '9' || 'a' <= c <= 'f' }

  predicate IsDigest(s: string) { |s| == 64 && forall c :: c in s ==> IsHex(c) }

  datatype Parsed = Rows(rows: map<string, string>) | BadRow(line: nat) | ListedTwice(line: nat)

  /** One trailing carriage return is dropped, so a CRLF checkout reads the same. */
  function StripCR(line: string): string {
    if line != "" && line[|line| - 1] == '\r' then line[..|line| - 1] else line
  }

  function ParseLine(rows: map<string, string>, line: string, number: nat): Parsed {
    var s := StripCR(line);
    if Ignored(s) then Rows(rows)
    else match IndexOf(s, "  ", 0)
      case None => BadRow(number)
      case Some(i) =>
        var digest, path := s[..i], s[i + 2..];
        if path == "" || !IsDigest(digest) then BadRow(number)
        else if path in rows then ListedTwice(number)
        else Rows(rows[path := digest])
  }

  function ParseLines(lines: seq<string>): Parsed {
    if lines == [] then Rows(map[])
    else match ParseLines(lines[..|lines| - 1])
      case Rows(rows) => ParseLine(rows, lines[|lines| - 1], |lines|)
      case error => error
  }

  function Parse(text: string): Parsed { ParseLines(Split(text, '\n')) }

  /** The first row that does not parse decides the outcome. */
  lemma {:induction false} ErrorSticks(lines: seq<string>, n: nat)
    requires n <= |lines| && !ParseLines(lines[..n]).Rows?
    ensures ParseLines(lines) == ParseLines(lines[..n])
  {
    if n < |lines| {
      assert lines[..|lines| - 1][..n] == lines[..n];
      ErrorSticks(lines[..|lines| - 1], n);
    } else {
      assert lines[..n] == lines;
    }
  }

  method ParseManifest(text: string) returns (r: Parsed)
    ensures r == Parse(text)
  {
    var lines := Split(text, '\n');
    var out: map<string, string> := map[];
    for i := 0 to |lines|
      invariant ParseLines(lines[..i]) == Rows(out)
    {
      assert lines[..i + 1][..i] == lines[..i];
      match ParseLine(out, lines[i], i + 1)
      case Rows(more) =>
        out := more;
      case error =>
        ErrorSticks(lines, i + 1);
        return error;
    }
    assert lines[..|lines|] == lines;
    r := Rows(out);
  }

  // ----- writing -----

  function RowOf(path: string, rows: map<string, string>): string
    requires path in rows
  { RowText(rows[path], path) }

  function RowText(digest: string, path: string): string { digest + "  " + path }

  function Body(order: seq<string>, rows: map<string, string>): string
    requires forall p :: p in order ==> p in rows
  {
    if order == [] then "" else Body(order[..|order| - 1], rows) + RowOf(order[|order| - 1], rows) + "\n"
  }

  /** Lines, each ended by a newline. */
  function Terminated(lines: seq<string>): string {
    if lines == [] then "" else Terminated(lines[..|lines| - 1]) + lines[|lines| - 1] + "\n"
  }

  function RenderUnder(header: seq<string>, order: seq<string>, rows: map<string, string>): string
    requires forall p :: p in order ==> p in rows
  { Terminated(header) + Body(order, rows) }

  /** The manifest of a tree: the header, then a row per path. */
  function Render(order: seq<string>, rows: map<string, string>): string
    requires forall p :: p in order ==> p in rows
  { RenderUnder(HEADER_LINES, order, rows) }

  /** The paths, each once. */
  ghost predicate Lists(order: seq<string>, rows: map<string, string>) {
    Distinct(order) && forall p :: p in order <==> p in rows
  }

  // ----- reading back what was written -----

  /** A path the row grammar can carry. */
  predicate Plain(path: string) {
    path != "" && '\n' !in path && path[|path| - 1] != '\r'
  }

  function RowLines(order: seq<string>, rows: map<string, string>): seq<string>
    requires forall p :: p in order ==> p in rows
  { seq(|order|, i requires 0 <= i < |order| => assert order[i] in order; RowOf(order[i], rows)) }

  lemma {:induction false} TerminatedAppend(a: seq<string>, b: seq<string>)
    ensures Terminated(a + b) == Terminated(a) + Terminated(b)
  {
    if b == [] {
      assert a + b == a;
    } else {
      assert (a + b)[..|a + b| - 1] == a + b[..|b| - 1];
      TerminatedAppend(a, b[..|b| - 1]);
    }
  }

  lemma {:induction false} BodyIsTerminated(order: seq<string>, rows: map<string, string>)
    requires forall p :: p in order ==> p in rows
    ensures Body(order, rows) == Terminated(RowLines(order, rows))
  {
    if order != [] {
      var front := order[..|order| - 1];
      BodyIsTerminated(front, rows);
      assert RowLines(order, rows)[..|order| - 1] == RowLines(front, rows);
    }
  }

  lemma {:induction false} TerminatedIsJoin(lines: seq<string>)
    ensures Terminated(lines) == Join(lines + [""], '\n')
  {
    if lines == [] {
      assert lines + [""] == [""];
    } else {
      var n := |lines| - 1;
      TerminatedIsJoin(lines[..n]);
      assert lines + [""] == (lines[..n] + [lines[n]]) + [""];
      JoinLast(lines[..n] + [lines[n]], "");
      if n == 0 {
        assert lines[..0] == [] && lines == [lines[0]];
      } else {
        JoinLast(lines[..n], lines[n]);
        JoinLast(lines[..n], "");
      }
    }
  }

  lemma {:induction false} JoinLast(parts: seq<string>, last: string)
    requires |parts| >= 1
    ensures Join(parts + [last], '\n') == Join(parts, '\n') + "\n" + last
  {
    if |parts| == 1 {
      assert (parts + [last])[1..] == [last];
    } else {
      assert (parts + [last])[1..] == parts[1..] + [last];
      JoinLast(parts[1..], last);
    }
  }

  predicate CommentLine(l: string) { l != "" && l[0] == '#' && '\n' !in l }

  /** The header's own lines hold no carriage return either. */
  predicate HeaderLine(l: string) { CommentLine(l) && '\r' !in l }

  predicate OneLine(part: string) { '\n' !in part && '\r' !in part }

  lemma HeaderParts(a: string, b: string)
    requires OneLine(a) && OneLine(b) && a != "" && a[0] == '#'
    ensures HeaderLine(a + b)
  {
  }

  lemma TitleIsComment()
    ensures HeaderLine(TITLE)
  {
    assert OneLine("# RELEASE_MANIFEST.txt — the");
    assert OneLine(" release file inventory.");
    HeaderParts("# RELEASE_MANIFEST.txt — the", " release file inventory.");
  }

  lemma Note1Opens()
    ensures OneLine("# One row per file: `<sha256>  <path>`.")
  {
  }

  lemma Note1Closes()
    ensures OneLine(" CI verifies a checkout against this")
  {
  }

  lemma Note1IsComment()
    ensures HeaderLine(NOTE1)
  {
    Note1Opens();
    Note1Closes();
    HeaderParts("# One row per file: `<sha256>  <path>`.", " CI verifies a checkout against this");
  }

  lemma Note2Opens()
    ensures HeaderLine("# file with" + " scripts/check_release_manifest.py,")
  {
    HeaderParts("# file with", " scripts/check_release_manifest.py,");
  }

  lemma Note2Closes()
    ensures OneLine(" so every content change is")
  {
  }

  lemma Note2IsComment()
    ensures HeaderLine(NOTE2)
  {
    Note2Opens();
    Note2Closes();
    HeaderParts("# file with" + " scripts/check_release_manifest.py,", " so every content change is");
  }

  lemma Note3IsComment()
    ensures HeaderLine(NOTE3)
  {
    assert OneLine("# visible here, like a lockfile.");
    assert OneLine(" Rows are sorted by path.");
    HeaderParts("# visible here, like a lockfile.", " Rows are sorted by path.");
  }

  lemma HeaderLinesIgnored()
    ensures forall l :: l in HEADER_LINES ==> HeaderLine(l)
  {
    TitleIsComment();
    Note1IsComment();
    Note2IsComment();
    Note3IsComment();
  }

  /** A header that reads as nothing. */
  ghost predicate Comments(header: seq<string>) { forall l :: l in header ==> CommentLine(l) }

  lemma RenderedText(header: seq<string>, order: seq<string>, rows: map<string, string>)
    requires forall p :: p in order ==> p in rows
    ensures RenderUnder(header, order, rows) == Terminated(header + RowLines(order, rows))
  {
    BodyIsTerminated(order, rows);
    TerminatedAppend(header, RowLines(order, rows));
  }

  lemma SplitTerminated(lines: seq<string>)
    requires forall l :: l in lines ==> '\n' !in l
    ensures Split(Terminated(lines), '\n') == lines + [""]
  {
    TerminatedIsJoin(lines);
    SplitJoin(lines + [""], '\n');
  }

  /** Where no path holds a newline, the lines of a manifest are its header and its rows. */
  lemma RenderedLines(header: seq<string>, order: seq<string>, rows: map<string, string>)
    requires Comments(header) && forall p :: p in order ==> p in rows && '\n' !in p && IsDigest(rows[p])
    ensures Split(RenderUnder(header, order, rows), '\n') == header + RowLines(order, rows) + [""]
  {
    RenderedText(header, order, rows);
    forall l | l in header + RowLines(order, rows) ensures '\n' !in l { LineIsClean(header, order, rows, l); }
    SplitTerminated(header + RowLines(order, rows));
  }

  lemma LineIsClean(header: seq<string>, order: seq<string>, rows: map<string, string>, l: string)
    requires Comments(header) && forall p :: p in order ==> p in rows && '\n' !in p && IsDigest(rows[p])
    requires l in header + RowLines(order, rows)
    ensures '\n' !in l
  {
    if l !in header {
      var i :| 0 <= i < |order| && RowLines(order, rows)[i] == l;
      assert order[i] in order;
      RowIsClean(order[i], rows);
    }
  }

  lemma RowIsClean(p: string, rows: map<string, string>)
    requires p in rows && '\n' !in p && IsDigest(rows[p])
    ensures '\n' !in RowOf(p, rows)
  {
    assert !IsHex('\n');
  }

  // ----- one line at a time -----

  lemma RowSeparator(digest: string, path: string)
    requires IsDigest(digest)
    ensures var s := RowText(digest, path);
      IndexOf(s, "  ", 0) == Some(64) && s[..64] == digest && s[66..] == path && !Ignored(s)
  {
    var s := RowText(digest, path);
    forall j | 0 <= j < 64 ensures !At(s, j, "  ") {
      assert s[j] == digest[j] && IsHex(s[j]) && s[j..j + 2][0] == s[j];
    }
    assert s[64..66] == "  ";
    FirstIndex(s, "  ", 0, 64);
    assert s[0] == digest[0] && IsHex(s[0]);
  }

  lemma RowTextParses(line: string, digest: string, path: string, before: map<string, string>, number: nat)
    requires IsDigest(digest) && StripCR(line) == RowText(digest, path)
    ensures ParseLine(before, line, number)
            == if path == "" then BadRow(number)
               else if path in before then ListedTwice(number)
               else Rows(before[path := digest])
  {
    RowSeparator(digest, path);
  }

  lemma StripsRow(digest: string, path: string)
    ensures StripCR(RowText(digest, path)) == RowText(digest, StripCR(path))
    ensures StripCR(RowText(digest, path) + "\r") == RowText(digest, path)
  {
    var s := RowText(digest, path);
    assert path != "" ==> s[|s| - 1] == path[|path| - 1];
    assert path == "" ==> s[|s| - 1] == ' ';
    assert (s + "\r")[..|s|] == s;
    if path != "" { assert s[..|s| - 1] == RowText(digest, path[..|path| - 1]); }
  }

  lemma {:induction false} HeaderParses(header: seq<string>)
    requires Comments(header)
    ensures ParseLines(header) == Rows(map[])
  {
    if header != [] {
      var l := header[|header| - 1];
      assert l in header;
      assert header[..|header| - 1] <= header;
      HeaderParses(header[..|header| - 1]);
      assert Ignored(StripCR(l));
    }
  }

  lemma ParseSnoc(lines: seq<string>, l: string)
    ensures ParseLines(lines + [l])
            == match ParseLines(lines) case Rows(rows) => ParseLine(rows, l, |lines| + 1) case error => error
  {
    assert (lines + [l])[..|lines|] == lines;
  }

  // ----- a list of rows -----

  datatype Entry = Entry(digest: string, path: string)

  /** The dictionary a list of rows fills, if no path is empty or repeated. */
  ghost function Filled(entries: seq<Entry>): Option<map<string, string>> {
    if entries == [] then Some(map[])
    else
      FillOne(Filled(entries[..|entries| - 1]), entries[|entries| - 1])
  }

  ghost function FillOne(filled: Option<map<string, string>>, e: Entry): Option<map<string, string>> {
    match filled
    case None => None
    case Some(m) => if e.path == "" || e.path in m then None else Some(m[e.path := e.digest])
  }

  /** Lines that read, up to a carriage return, as these rows. */
  ghost predicate ReadsAs(lines: seq<string>, entries: seq<Entry>) {
    |lines| == |entries| && forall i :: 0 <= i < |lines| ==>
      IsDigest(entries[i].digest) && StripCR(lines[i]) == RowText(entries[i].digest, entries[i].path)
  }

  lemma OneMoreLine(before: seq<string>, l: string, filled: Option<map<string, string>>, e: Entry)
    requires IsDigest(e.digest) && StripCR(l) == RowText(e.digest, e.path)
    requires if filled.None? then !ParseLines(before).Rows? else ParseLines(before) == Rows(filled.value)
    ensures match FillOne(filled, e)
            case None => !ParseLines(before + [l]).Rows?
            case Some(m) => ParseLines(before + [l]) == Rows(m)
  {
    ParseSnoc(before, l);
    if filled.Some? { RowTextParses(l, e.digest, e.path, filled.value, |before| + 1); }
  }

  lemma {:induction false} LinesFill(header: seq<string>, lines: seq<string>, entries: seq<Entry>)
    requires Comments(header) && ReadsAs(lines, entries)
    ensures match Filled(entries)
            case None => !ParseLines(header + lines).Rows?
            case Some(m) => ParseLines(header + lines) == Rows(m)
  {
    if lines == [] {
      HeaderParses(header);
      assert header + lines == header;
    } else {
      var n := |lines| - 1;
      assert ReadsAs(lines[..n], entries[..n]);
      LinesFill(header, lines[..n], entries[..n]);
      OneMoreLine(header + lines[..n], lines[n], Filled(entries[..n]), entries[n]);
      assert header + lines == header + lines[..n] + [lines[n]];
    }
  }

  ghost function PathsOf(entries: seq<Entry>): set<string> { set e | e in entries :: e.path }

  lemma {:induction false} FilledKeys(entries: seq<Entry>)
    ensures Filled(entries).Some? ==> Filled(entries).value.Keys == PathsOf(entries)
  {
    if entries != [] {
      var n := |entries| - 1;
      FilledKeys(entries[..n]);
      assert entries == entries[..n] + [entries[n]];
      assert PathsOf(entries) == PathsOf(entries[..n]) + {entries[n].path};
    }
  }

  lemma PathAmong(entries: seq<Entry>, p: string)
    ensures p in PathsOf(entries) <==> exists i :: 0 <= i < |entries| && entries[i].path == p
  {
    if p in PathsOf(entries) {
      var e :| e in entries && e.path == p;
      var i :| 0 <= i < |entries| && entries[i] == e;
    }
  }

  /** Filling succeeds exactly on non-empty, distinct paths. */
  lemma {:induction false} FilledIff(entries: seq<Entry>)
    ensures Filled(entries).Some? <==>
              (forall i :: 0 <= i < |entries| ==> entries[i].path != "")
              && (forall i, j :: 0 <= i < j < |entries| ==> entries[i].path != entries[j].path)
  {
    if entries != [] {
      var n := |entries| - 1;
      assert forall i :: 0 <= i < n ==> entries[..n][i] == entries[i];
      FilledIff(entries[..n]);
      FilledKeys(entries[..n]);
      PathAmong(entries[..n], entries[n].path);
    }
  }

  lemma {:induction false} FilledAt(entries: seq<Entry>, i: nat)
    requires i < |entries| && Filled(entries).Some?
    ensures entries[i].path in Filled(entries).value && Filled(entries).value[entries[i].path] == entries[i].digest
  {
    var n := |entries| - 1;
    if i < n { FilledAt(entries[..n], i); }
  }

  /** The rows of a manifest, their paths as the reader will see them. */
  ghost function EntriesOf(order: seq<string>, rows: map<string, string>): seq<Entry>
    requires forall p :: p in order ==> p in rows
  { seq(|order|, i requires 0 <= i < |order| => assert order[i] in order; Entry(rows[order[i]], StripCR(order[i]))) }

  lemma RowLinesRead(order: seq<string>, rows: map<string, string>)
    requires forall p :: p in order ==> p in rows && IsDigest(rows[p])
    ensures ReadsAs(RowLines(order, rows), EntriesOf(order, rows))
  {
    var lines, entries := RowLines(order, rows), EntriesOf(order, rows);
    forall i | 0 <= i < |order|
      ensures IsDigest(entries[i].digest) && StripCR(lines[i]) == RowText(entries[i].digest, entries[i].path)
    {
      assert order[i] in order;
      StripsRow(rows[order[i]], order[i]);
    }
  }

  lemma ParseOfRender(header: seq<string>, order: seq<string>, rows: map<string, string>)
    requires Comments(header) && forall p :: p in order ==> p in rows && '\n' !in p && IsDigest(rows[p])
    ensures match Filled(EntriesOf(order, rows))
            case None => !Parse(RenderUnder(header, order, rows)).Rows?
            case Some(m) => Parse(RenderUnder(header, order, rows)) == Rows(m)
  {
    RenderedLines(header, order, rows);
    ParseSnoc(header + RowLines(order, rows), "");
    RowLinesRead(order, rows);
    LinesFill(header, RowLines(order, rows), EntriesOf(order, rows));
  }

  // ----- the round trip -----

  lemma {:induction false} SplitFree(text: string, c: char)
    requires c == '\n' || c !in text
    ensures forall l :: l in Split(text, '\n') ==> c !in l
  {
    if text != [] {
      SplitFree(text[1..], c);
      forall l | l in Split(text, '\n') ensures c !in l {
        var rest := Split(text[1..], '\n');
        assert rest[0] in rest && forall k :: k in rest[1..] ==> k in rest;
      }
    }
  }

  /** No path that was read holds a character its line lacks. */
  lemma {:induction false} ReadPathsLack(lines: seq<string>, c: char)
    requires forall l :: l in lines ==> c !in l
    ensures ParseLines(lines).Rows? ==> forall p :: p in ParseLines(lines).rows ==> c !in p
  {
    if lines != [] {
      assert lines[|lines| - 1] in lines && forall l :: l in lines[..|lines| - 1] ==> l in lines;
      ReadPathsLack(lines[..|lines| - 1], c);
    }
  }

  lemma {:induction false} LongestPath(paths: set<string>) returns (n: nat)
    ensures forall p :: p in paths ==> |p| <= n
  {
    if paths == {} {
      n := 0;
    } else {
      var q :| q in paths;
      var k := LongestPath(paths - {q});
      n := if |q| > k then |q| else k;
    }
  }

  ghost predicate ReadOff(paths: set<string>, q: string) { exists r :: r in paths && StripCR(r) == q }

  ghost predicate AllReadOff(paths: set<string>) {
    forall q {:trigger ReadOff(paths, q)} :: q in paths ==> ReadOff(paths, q)
  }

  predicate EndsInCR(p: string) { p != "" && p[|p| - 1] == '\r' }

  /** A path that ends in a carriage return could only be read off a longer one. */
  lemma {:induction false} CRChain(paths: set<string>, p: string, n: nat) returns (q: string)
    requires p in paths && EndsInCR(p) && AllReadOff(paths)
    ensures q in paths && EndsInCR(q) && |q| == |p| + n
  {
    q := p;
    if n > 0 {
      var q' := CRChain(paths, p, n - 1);
      assert ReadOff(paths, q');
      q :| q in paths && StripCR(q) == q';
    }
  }

  lemma NoCREnding(paths: set<string>)
    requires AllReadOff(paths)
    ensures forall p :: p in paths ==> !EndsInCR(p)
  {
    var n := LongestPath(paths);
    forall p | p in paths ensures !EndsInCR(p) {
      if EndsInCR(p) {
        var q := CRChain(paths, p, n);
        assert false;
      }
    }
  }

  lemma EntryPaths(order: seq<string>, rows: map<string, string>, i: nat)
    requires (forall p :: p in order ==> p in rows) && i < |order|
    ensures |EntriesOf(order, rows)| == |order| && order[i] in order
    ensures EntriesOf(order, rows)[i] == Entry(rows[order[i]], StripCR(order[i]))
  {
    assert order[i] in order;
  }

  lemma PlainFill(order: seq<string>, rows: map<string, string>)
    requires Lists(order, rows) && forall p :: p in rows ==> Plain(p)
    ensures Filled(EntriesOf(order, rows)) == Some(rows)
  {
    var entries := EntriesOf(order, rows);
    forall i | 0 <= i < |order| ensures entries[i] == Entry(rows[order[i]], order[i]) && order[i] != "" {
      EntryPaths(order, rows, i);
    }
    FilledIff(entries);
    FilledKeys(entries);
    var m := Filled(entries).value;
    forall p ensures p in PathsOf(entries) <==> p in rows {
      if p in rows {
        var i :| 0 <= i < |order| && order[i] == p;
        assert entries[i] in entries;
      }
    }
    forall p | p in rows ensures m[p] == rows[p] {
      var i :| 0 <= i < |order| && order[i] == p;
      FilledAt(entries, i);
    }
    assert m == rows;
  }

  lemma FillIsPlain(order: seq<string>, rows: map<string, string>)
    requires Lists(order, rows) && (forall p :: p in rows ==> '\n' !in p)
    requires Filled(EntriesOf(order, rows)) == Some(rows)
    ensures forall p :: p in rows ==> Plain(p)
  {
    var entries := EntriesOf(order, rows);
    FilledIff(entries);
    FilledKeys(entries);
    assert rows.Keys == PathsOf(entries);
    forall q | q in rows.Keys ensures q != "" && ReadOff(rows.Keys, q) {
      var i := EntryOf(order, rows, q);
    }
    NoCREnding(rows.Keys);
  }

  lemma EntryOf(order: seq<string>, rows: map<string, string>, q: string) returns (i: nat)
    requires (forall p :: p in order ==> p in rows) && q in PathsOf(EntriesOf(order, rows))
    ensures i < |order| == |EntriesOf(order, rows)| && EntriesOf(order, rows)[i].path == q == StripCR(order[i])
    ensures ReadOff(rows.Keys, q)
  {
    var entries := EntriesOf(order, rows);
    var e :| e in entries && e.path == q;
    i :| 0 <= i < |entries| && entries[i] == e;
    EntryPaths(order, rows, i);
  }

  /** Reading undoes writing exactly on plain paths: not empty, no newline, no carriage
      return at the end. The order the rows are written in does not matter. */
  lemma ParseUndoesRender(order: seq<string>, rows: map<string, string>)
    requires Lists(order, rows) && forall p :: p in rows ==> IsDigest(rows[p])
    ensures Parse(Render(order, rows)) == Rows(rows) <==> forall p :: p in rows ==> Plain(p)
  {
    HeaderLinesIgnored();
    if forall p :: p in rows ==> '\n' !in p {
      ParseOfRender(HEADER_LINES, order, rows);
      if forall p :: p in rows ==> Plain(p) {
        PlainFill(order, rows);
      } else if Filled(EntriesOf(order, rows)) == Some(rows) {
        FillIsPlain(order, rows);
      }
    } else {
      SplitFree(Render(order, rows), '\n');
      ReadPathsLack(Split(Render(order, rows), '\n'), '\n');
    }
  }

  /** A path that ends in a carriage return is read back, under another name. */
  lemma TrailingCRIsLost(name: string, digest: string)
    requires IsDigest(digest) && name != "" && '\n' !in name
    ensures Parse(Render([name + "\r"], map[name + "\r" := digest])) == Rows(map[name := digest])
  {
    var order, rows := [name + "\r"], map[name + "\r" := digest];
    HeaderLinesIgnored();
    ParseOfRender(HEADER_LINES, order, rows);
    assert (name + "\r")[..|name|] == name;
    assert EntriesOf(order, rows) == [Entry(digest, name)];
    FilledByOne(Entry(digest, name));
  }

  lemma FilledByOne(e: Entry)
    requires e.path != ""
    ensures Filled([e]) == Some(map[e.path := e.digest])
  {
    assert [e][..0] == [];
    assert Filled([e]) == FillOne(Filled([]), e);
  }

  // ----- a checkout with CRLF line endings -----

  lemma {:induction false} ReplaceAllAppend(a: string, b: string)
    ensures ReplaceAll(a + b, "\n", "\r\n") == ReplaceAll(a, "\n", "\r\n") + ReplaceAll(b, "\n", "\r\n")
  {
    if a == "" {
      assert a + b == b;
    } else {
      assert (a + b)[1..] == a[1..] + b;
      ReplaceAllAppend(a[1..], b);
    }
  }

  lemma {:induction false} NothingToReplace(l: string)
    requires '\n' !in l
    ensures ReplaceAll(l, "\n", "\r\n") == l
  {
    if l != "" {
      assert l == [l[0]] + l[1..];
      NothingToReplace(l[1..]);
    }
  }

  function WithCRs(lines: seq<string>): seq<string> {
    seq(|lines|, i requires 0 <= i < |lines| => lines[i] + "\r")
  }

  lemma {:induction false} CrlfTerminated(lines: seq<string>)
    requires forall l :: l in lines ==> '\n' !in l
    ensures ReplaceAll(Terminated(lines), "\n", "\r\n") == Terminated(WithCRs(lines))
  {
    if lines != [] {
      var n := |lines| - 1;
      var l := lines[n];
      assert l in lines;
      CrlfTerminated(lines[..n]);
      ReplaceAllAppend(Terminated(lines[..n]) + l, "\n");
      ReplaceAllAppend(Terminated(lines[..n]), l);
      NothingToReplace(l);
      assert ReplaceAll("\n", "\n", "\r\n") == "\r\n" by { assert "\n"[1..] == ""; }
      assert WithCRs(lines)[..n] == WithCRs(lines[..n]);
    }
  }

  ghost function PlainEntries(order: seq<string>, rows: map<string, string>): seq<Entry>
    requires forall p :: p in order ==> p in rows
  { seq(|order|, i requires 0 <= i < |order| => assert order[i] in order; Entry(rows[order[i]], order[i])) }

  lemma CrlfLinesRead(order: seq<string>, rows: map<string, string>)
    requires forall p :: p in order ==> p in rows && IsDigest(rows[p])
    ensures ReadsAs(WithCRs(RowLines(order, rows)), PlainEntries(order, rows))
  {
    var lines, entries := WithCRs(RowLines(order, rows)), PlainEntries(order, rows);
    forall i | 0 <= i < |order|
      ensures IsDigest(entries[i].digest) && StripCR(lines[i]) == RowText(entries[i].digest, entries[i].path)
    {
      assert order[i] in order;
      StripsRow(rows[order[i]], order[i]);
    }
  }

  lemma CrlfParse(header: seq<string>, order: seq<string>, rows: map<string, string>)
    requires Comments(header) && forall p :: p in order ==> p in rows && '\n' !in p && IsDigest(rows[p])
    ensures match Filled(PlainEntries(order, rows))
            case None => !Parse(ReplaceAll(RenderUnder(header, order, rows), "\n", "\r\n")).Rows?
            case Some(m) => Parse(ReplaceAll(RenderUnder(header, order, rows), "\n", "\r\n")) == Rows(m)
  {
    var lines := header + RowLines(order, rows);
    RenderedText(header, order, rows);
    forall l | l in lines ensures '\n' !in l { LineIsClean(header, order, rows, l); }
    CrlfTerminated(lines);
    assert WithCRs(lines) == WithCRs(header) + WithCRs(RowLines(order, rows));
    CrlfClean(lines);
    SplitTerminated(WithCRs(lines));
    ParseSnoc(WithCRs(lines), "");
    CrlfComments(header);
    CrlfLinesRead(order, rows);
    LinesFill(WithCRs(header), WithCRs(RowLines(order, rows)), PlainEntries(order, rows));
  }

  lemma CrlfClean(lines: seq<string>)
    requires forall l :: l in lines ==> '\n' !in l
    ensures forall l :: l in WithCRs(lines) ==> '\n' !in l
  {
    forall l | l in WithCRs(lines) ensures '\n' !in l {
      var i :| 0 <= i < |lines| && WithCRs(lines)[i] == l;
      assert lines[i] in lines;
    }
  }

  lemma CrlfComments(header: seq<string>)
    requires Comments(header)
    ensures Comments(WithCRs(header))
  {
    forall l | l in WithCRs(header) ensures CommentLine(l) {
      var i :| 0 <= i < |header| && WithCRs(header)[i] == l;
      assert header[i] in header;
    }
  }

  lemma PlainEntriesFill(order: seq<string>, rows: map<string, string>)
    requires Lists(order, rows)
    ensures Filled(PlainEntries(order, rows)) == if "" in rows then None else Some(rows)
  {
    var entries := PlainEntries(order, rows);
    forall i | 0 <= i < |order| ensures order[i] in order && entries[i] == Entry(rows[order[i]], order[i]) {}
    FilledIff(entries);
    FilledKeys(entries);
    if "" in rows {
      var i :| 0 <= i < |order| && order[i] == "";
      assert entries[i].path == "";
    } else {
      var m := Filled(entries).value;
      forall p ensures p in PathsOf(entries) <==> p in rows {
        PathAmong(entries, p);
        if p in rows {
          var i :| 0 <= i < |order| && order[i] == p;
          assert entries[i].path == p;
        }
      }
      forall p | p in rows ensures m[p] == rows[p] {
        var i :| 0 <= i < |order| && order[i] == p;
        FilledAt(entries, i);
      }
      assert m == rows;
    }
  }

  /** A checkout that turned every line ending into CRLF reads back the same map; there a
      path may even end in a carriage return, because only the last one is dropped. */
  lemma ParseUndoesCrlf(order: seq<string>, rows: map<string, string>)
    requires Lists(order, rows) && forall p :: p in rows ==> IsDigest(rows[p])
    ensures Parse(ReplaceAll(Render(order, rows), "\n", "\r\n")) == Rows(rows)
            <==> forall p :: p in rows ==> p != "" && '\n' !in p
  {
    HeaderLinesIgnored();
    if forall p :: p in rows ==> '\n' !in p {
      CrlfParse(HEADER_LINES, order, rows);
      PlainEntriesFill(order, rows);
    } else {
      var text := ReplaceAll(Render(order, rows), "\n", "\r\n");
      SplitFree(text, '\n');
      ReadPathsLack(Split(text, '\n'), '\n');
    }
  }
}
