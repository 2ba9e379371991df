/** Which manifests are read, what is read from them, and which line an error names. */
module ManifestLaws {
  import opened Manifest
  import opened PyText

  /** 64 lower-case hexadecimal digits. */
  predicate HexDigest(s: string) { |s| == 64 && forall i :: 0 <= i < 64 ==> s[i] in "0123456789abcdef" }

  /** The line, less a carriage return at its end, reads digest, two spaces, path. */
  predicate Shows(line: string, digest: string, path: string) {
    && HexDigest(digest) && path != ""
    && (line == digest + "  " + path + "\r" || (line == digest + "  " + path && path[|path| - 1] != '\r'))
  }

  /** The line holds white space only, or its first other character is `#`. */
  ghost predicate SaysNothing(line: string) {
    (forall c :: c in line ==> IsSpace(c)) || exists k: nat :: CommentAt(line, k)
  }

  ghost predicate CommentAt(line: string, k: nat) {
    k < |line| && line[k] == '#' && forall i :: 0 <= i < k ==> IsSpace(line[i])
  }

  ghost predicate ShowsRow(line: string) { exists digest, path :: Shows(line, digest, path) }

  /** Some row for the path stands among the lines. */
  ghost predicate Lists(lines: seq<string>, path: string, digest: string) {
    exists i :: 0 <= i < |lines| && Shows(lines[i], digest, path)
  }

  // ----- one line -----

  lemma {:induction false} IgnoredIff(s: string)
    ensures Ignored(s) <==> SaysNothing(s)
  {
    if s != "" {
      assert s == [s[0]] + s[1..];
      if IsSpace(s[0]) {
        IgnoredIff(s[1..]);
        if k: nat :| CommentAt(s[1..], k) { assert CommentAt(s, k + 1); }
        if k: nat :| CommentAt(s, k) { assert CommentAt(s[1..], k - 1); }
      } else if s[0] == '#' {
        assert CommentAt(s, 0);
      }
    }
  }

  lemma StripSaysNothing(line: string)
    ensures SaysNothing(StripCR(line)) <==> SaysNothing(line)
  {
    var s := StripCR(line);
    if s != line {
      assert line == s + ['\r'] && IsSpace('\r') && '\r' in line;
      if k: nat :| CommentAt(s, k) { assert CommentAt(line, k); }
      if k: nat :| CommentAt(line, k) { assert CommentAt(s, k); }
    }
  }

  lemma HexDigestIs(s: string)
    ensures IsDigest(s) <==> HexDigest(s)
  {
    forall c ensures IsHex(c) <==> c in "0123456789abcdef" {}
    if HexDigest(s) { forall c | c in s ensures IsHex(c) {} }
  }

  lemma ShowsIff(line: string, digest: string, path: string)
    ensures Shows(line, digest, path) <==> HexDigest(digest) && path != "" && StripCR(line) == RowText(digest, path)
  {
    var s := RowText(digest, path);
    if path != "" {
      assert s[|s| - 1] == path[|path| - 1];
      assert StripCR(s + "\r") == s by { assert (s + "\r")[..|s|] == s; }
      if StripCR(line) == s {
        if line != "" && line[|line| - 1] == '\r' { assert line == s + "\r"; }
      }
    }
  }

  /** A line shows at most one row, and a line that shows one says something. */
  lemma ShowsOnce(line: string, digest: string, path: string)
    requires Shows(line, digest, path)
    ensures StripCR(line)[..64] == digest && StripCR(line)[66..] == path && !SaysNothing(line)
  {
    ShowsIff(line, digest, path);
    HexDigestIs(digest);
    RowSeparator(digest, path);
    IgnoredIff(StripCR(line));
    StripSaysNothing(line);
  }

  lemma LineReads(rows: map<string, string>, line: string, number: nat)
    ensures SaysNothing(line) ==> ParseLine(rows, line, number) == Rows(rows)
    ensures !SaysNothing(line) && !ShowsRow(line) ==> ParseLine(rows, line, number) == BadRow(number)
    ensures forall digest, path :: Shows(line, digest, path) ==>
      ParseLine(rows, line, number) == if path in rows then ListedTwice(number) else Rows(rows[path := digest])
  {
    var s := StripCR(line);
    IgnoredIff(s);
    StripSaysNothing(line);
    forall digest, path | Shows(line, digest, path)
      ensures ParseLine(rows, line, number) == if path in rows then ListedTwice(number) else Rows(rows[path := digest])
    {
      ShowsIff(line, digest, path);
      HexDigestIs(digest);
      RowTextParses(line, digest, path, rows, number);
    }
    if !SaysNothing(line) && !ShowsRow(line) { NoRowIsBad(rows, line, number); }
  }

  lemma NoRowIsBad(rows: map<string, string>, line: string, number: nat)
    requires !Ignored(StripCR(line)) && !ShowsRow(line)
    ensures ParseLine(rows, line, number) == BadRow(number)
  {
    var s := StripCR(line);
    IndexOfIsFirst(s, "  ", 0);
    if IndexOf(s, "  ", 0).Some? {
      var i := IndexOf(s, "  ", 0).value;
      var digest, path := s[..i], s[i + 2..];
      HexDigestIs(digest);
      assert s == RowText(digest, path) by { assert s[i..i + 2] == "  "; }
      ShowsIff(line, digest, path);
      assert !Shows(line, digest, path);
    }
  }

  // ----- all lines -----

  /** Every line says nothing or shows a row, and no two show rows for one path. */
  ghost predicate WellFormed(lines: seq<string>) {
    && (forall i :: 0 <= i < |lines| ==> SaysNothing(lines[i]) || ShowsRow(lines[i]))
    && forall i, j :: 0 <= i < j < |lines| ==> !SamePath(lines[i], lines[j])
  }

  ghost predicate SamePath(a: string, b: string) {
    exists path, d, e :: Shows(a, d, path) && Shows(b, e, path)
  }

  ghost predicate RowsListed(rows: map<string, string>, lines: seq<string>) {
    forall path, digest :: Lists(lines, path, digest) <==> path in rows && rows[path] == digest
  }

  /** The line repeats a path of the lines before it. */
  ghost predicate Repeats(lines: seq<string>, line: string) {
    exists i :: 0 <= i < |lines| && SamePath(lines[i], line)
  }

  lemma WellFormedSnoc(lines: seq<string>, line: string)
    ensures WellFormed(lines + [line])
            <==> WellFormed(lines) && (SaysNothing(line) || (ShowsRow(line) && !Repeats(lines, line)))
  {
    var all := lines + [line];
    assert all[|lines|] == line && forall i :: 0 <= i < |lines| ==> all[i] == lines[i];
    if ShowsRow(line) {
      var digest, path :| Shows(line, digest, path);
      ShowsOnce(line, digest, path);
    }
    if Repeats(lines, line) {
      var i :| 0 <= i < |lines| && SamePath(lines[i], line);
      assert SamePath(all[i], all[|lines|]);
    }
    if SaysNothing(line) {
      forall i | 0 <= i < |lines| ensures !SamePath(lines[i], line) { NothingRepeats(lines[i], line); }
    }
  }

  lemma NothingRepeats(a: string, line: string)
    requires SaysNothing(line)
    ensures !SamePath(a, line)
  {
    if path, d, e :| Shows(a, d, path) && Shows(line, e, path) { ShowsOnce(line, e, path); }
  }

  lemma ListsSnoc(lines: seq<string>, line: string, path: string, digest: string)
    ensures Lists(lines + [line], path, digest) <==> Lists(lines, path, digest) || Shows(line, digest, path)
  {
    var all := lines + [line];
    assert all[|lines|] == line && forall i :: 0 <= i < |lines| ==> all[i] == lines[i];
  }

  /** What a parse of the lines has to be: the listed rows of a well-formed manifest, and else
      the first line that shows no row or repeats a path. */
  ghost predicate ReadsAs(parsed: Parsed, lines: seq<string>) {
    match parsed
    case Rows(rows) => WellFormed(lines) && RowsListed(rows, lines)
    case BadRow(n) =>
      0 < n <= |lines| && WellFormed(lines[..n - 1]) && !SaysNothing(lines[n - 1]) && !ShowsRow(lines[n - 1])
    case ListedTwice(n) =>
      0 < n <= |lines| && WellFormed(lines[..n - 1]) && ShowsRow(lines[n - 1]) && Repeats(lines[..n - 1], lines[n - 1])
  }

  lemma RowStep(rows: map<string, string>, lines: seq<string>, line: string, digest: string, path: string)
    requires WellFormed(lines) && RowsListed(rows, lines) && Shows(line, digest, path)
    ensures path in rows <==> Repeats(lines, line)
    ensures path !in rows ==> RowsListed(rows[path := digest], lines + [line])
  {
    ShowsOnce(line, digest, path);
    if path in rows {
      assert Lists(lines, path, rows[path]);
      var i :| 0 <= i < |lines| && Shows(lines[i], rows[path], path);
      assert SamePath(lines[i], line);
    }
    if Repeats(lines, line) {
      var i :| 0 <= i < |lines| && SamePath(lines[i], line);
      var p, d, e :| Shows(lines[i], d, p) && Shows(line, e, p);
      ShowsOnce(line, e, p);
      assert Lists(lines, path, d);
    }
    if path !in rows {
      forall p, d ensures Lists(lines + [line], p, d) <==> p in rows[path := digest] && rows[path := digest][p] == d {
        ListsSnoc(lines, line, p, d);
        if Shows(line, d, p) { ShowsOnce(line, d, p); }
        assert Lists(lines, p, d) <==> p in rows && rows[p] == d;
      }
    }
  }

  lemma QuietStep(rows: map<string, string>, lines: seq<string>, line: string)
    requires RowsListed(rows, lines) && SaysNothing(line)
    ensures RowsListed(rows, lines + [line])
  {
    forall p, d ensures Lists(lines + [line], p, d) <==> p in rows && rows[p] == d {
      ListsSnoc(lines, line, p, d);
      if Shows(line, d, p) { ShowsOnce(line, d, p); }
      assert Lists(lines, p, d) <==> p in rows && rows[p] == d;
    }
  }

  lemma LineStep(rows: map<string, string>, lines: seq<string>, line: string)
    requires WellFormed(lines) && RowsListed(rows, lines)
    ensures ReadsAs(ParseLine(rows, line, |lines| + 1), lines + [line])
  {
    assert (lines + [line])[..|lines|] == lines && (lines + [line])[|lines|] == line;
    LineReads(rows, line, |lines| + 1);
    WellFormedSnoc(lines, line);
    if SaysNothing(line) {
      QuietStep(rows, lines, line);
    } else if ShowsRow(line) {
      var digest, path :| Shows(line, digest, path);
      RowStep(rows, lines, line, digest, path);
    }
  }

  lemma {:induction false} LinesRead(lines: seq<string>)
    ensures ReadsAs(ParseLines(lines), lines)
  {
    if lines != [] {
      var front, line := lines[..|lines| - 1], lines[|lines| - 1];
      assert lines == front + [line];
      LinesRead(front);
      ParseSnoc(front, line);
      match ParseLines(front)
      case Rows(rows) => LineStep(rows, front, line);
      case BadRow(n) => assert front[..n - 1] == lines[..n - 1] && front[n - 1] == lines[n - 1];
      case ListedTwice(n) => assert front[..n - 1] == lines[..n - 1] && front[n - 1] == lines[n - 1];
    }
  }

  /** A manifest is read exactly when each of its lines says nothing or shows a row, no two for
      one path, and then its rows are those it shows. Otherwise the error is at the first line,
      counted from 1, that shows no row, or that repeats a path. */
  lemma ManifestReads(text: string)
    ensures ReadsAs(Parse(text), Split(text, '\n'))
    ensures Parse(text).Rows? <==> WellFormed(Split(text, '\n'))
  {
    var lines := Split(text, '\n');
    LinesRead(lines);
    if WellFormed(lines) && !Parse(text).Rows? { NotBoth(Parse(text), lines); }
  }

  lemma NotBoth(parsed: Parsed, lines: seq<string>)
    requires ReadsAs(parsed, lines) && !parsed.Rows?
    ensures !WellFormed(lines)
  {
    var n := parsed.line;
    if parsed.ListedTwice? {
      var i :| 0 <= i < n - 1 && SamePath(lines[..n - 1][i], lines[n - 1]);
      assert SamePath(lines[i], lines[n - 1]);
    }
  }
}
