/** The Python text primitives the scripts lean on: `str.count`, `str.replace`,
    `str.index`, `str.split` and `str.join`, over sequences of any element so that
    the same laws serve text (`seq<char>`) and bytes. */
module PyText {

  datatype Option<+T> = None | Some(value: T)

  /** The window of `s` that starts at `i` reads `p`. */
  predicate At<T(==)>(s: seq<T>, i: int, p: seq<T>) {
    0 <= i <= |s| - |p| && s[i..i + |p|] == p
  }

  /** `s.index(p, start)`, with `None` for the `ValueError`. */
  function IndexOf<T(==)>(s: seq<T>, p: seq<T>, start: nat): (r: Option<nat>)
    ensures r.Some? ==> start <= r.value && r.value + |p| <= |s|
    decreases |s| - start
  {
    if |s| < start + |p| then None
    else if s[start..start + |p|] == p then Some(start)
    else if start == |s| then None
    else IndexOf(s, p, start + 1)
  }

  /** `IndexOf` finds the first occurrence at or after `start`, and misses none. */
  lemma {:induction false} IndexOfIsFirst<T>(s: seq<T>, p: seq<T>, start: nat)
    ensures match IndexOf(s, p, start)
            case Some(i) => At(s, i, p) && forall j :: start <= j < i ==> !At(s, j, p)
            case None => forall j :: start <= j ==> !At(s, j, p)
    decreases |s| - start
  {
    if |s| < start + |p| || s[start..start + |p|] == p || start == |s| {
    } else {
      IndexOfIsFirst(s, p, start + 1);
    }
  }

  lemma FirstIndex<T>(s: seq<T>, p: seq<T>, start: nat, i: nat)
    requires start <= i && At(s, i, p) && forall j :: start <= j < i ==> !At(s, j, p)
    ensures IndexOf(s, p, start) == Some(i)
  {
    IndexOfIsFirst(s, p, start);
  }

  /** A first occurrence stays the first whatever follows it. */
  lemma FirstIndexKept<T>(head: seq<T>, sep: seq<T>, rest: seq<T>)
    requires IndexOf(head + sep, sep, 0) == Some(|head|)
    ensures IndexOf(head + sep + rest, sep, 0) == Some(|head|)
  {
    var short, whole := head + sep, head + sep + rest;
    IndexOfIsFirst(short, sep, 0);
    forall j | 0 <= j < |head| ensures !At(whole, j, sep) {
      assert !At(short, j, sep);
      assert whole[j..j + |sep|] == short[j..j + |sep|];
    }
    assert whole[|head|..|head| + |sep|] == sep;
    FirstIndex(whole, sep, 0, |head|);
  }

  /** `s.split(sep, 1)[0]`. */
  function HeadOf<T(==)>(s: seq<T>, sep: seq<T>): seq<T> {
    match IndexOf(s, sep, 0) case Some(i) => s[..i] case None => s
  }

  /** The separator's first occurrence in `head + sep` is the one just put there. */
  predicate EndsAt<T(==)>(head: seq<T>, sep: seq<T>) { IndexOf(head + sep, sep, 0) == Some(|head|) }

  lemma HeadKept<T>(head: seq<T>, sep: seq<T>, rest: seq<T>)
    requires EndsAt(head, sep)
    ensures HeadOf(head + sep + rest, sep) == head
  {
    FirstIndexKept(head, sep, rest);
  }

  /** `s.count(needle)`: non-overlapping, scanned from the left. */
  function Count<T(==)>(s: seq<T>, needle: seq<T>): nat
    requires needle != []
  {
    if |s| < |needle| then 0
    else if needle <= s then 1 + Count(s[|needle|..], needle)
    else Count(s[1..], needle)
  }

  /** `s.replace(old, new, 1)`. */
  function ReplaceFirst<T(==)>(s: seq<T>, old': seq<T>, new': seq<T>): seq<T>
    requires old' != []
  {
    if |s| < |old'| then s
    else if old' <= s then new' + s[|old'|..]
    else [s[0]] + ReplaceFirst(s[1..], old', new')
  }

  /** `s.replace(old, new)`. */
  function ReplaceAll<T(==)>(s: seq<T>, old': seq<T>, new': seq<T>): seq<T>
    requires old' != []
  {
    if |s| < |old'| then s
    else if old' <= s then new' + ReplaceAll(s[|old'|..], old', new')
    else [s[0]] + ReplaceAll(s[1..], old', new')
  }

  /** `d.join(parts)`. */
  function Join<T>(parts: seq<seq<T>>, d: T): seq<T> {
    if |parts| == 0 then []
    else if |parts| == 1 then parts[0]
    else parts[0] + [d] + Join(parts[1..], d)
  }

  ghost predicate Free<T>(parts: seq<seq<T>>, d: T) {
    forall i :: 0 <= i < |parts| ==> d !in parts[i]
  }

  /** `s.split(d)` for a one-element separator. */
  function Split<T(==)>(s: seq<T>, d: T): (r: seq<seq<T>>)
    ensures |r| >= 1 && Free(r, d) && Join(r, d) == s
  {
    if s == [] then [[]]
    else
      var rest := Split(s[1..], d);
      if s[0] == d then
        assert [s[0]] + s[1..] == s;
        [[]] + rest
      else
        var r := [[s[0]] + rest[0]] + rest[1..];
        assert Join(r, d) == [s[0]] + Join(rest, d) by {
          if |rest| > 1 { assert r[1..] == rest[1..]; }
        }
        r
  }

  lemma {:induction false} SplitOfPrefixed<T>(a: seq<T>, rest: seq<T>, d: T)
    requires d !in a
    ensures Split(a + rest, d) == [a + Split(rest, d)[0]] + Split(rest, d)[1..]
  {
    var r := Split(rest, d);
    if a == [] {
      assert a + rest == rest && a + r[0] == r[0] && [r[0]] + r[1..] == r;
    } else {
      assert (a + rest)[1..] == a[1..] + rest;
      SplitOfPrefixed(a[1..], rest, d);
      assert [a[0]] + (a[1..] + Split(rest, d)[0]) == a + Split(rest, d)[0];
    }
  }

  /** Splitting undoes joining: delimiter-free pieces come back piece by piece. */
  lemma {:induction false} SplitJoin<T>(parts: seq<seq<T>>, d: T)
    requires |parts| >= 1 && Free(parts, d)
    ensures Split(Join(parts, d), d) == parts
  {
    var a := parts[0];
    if |parts| == 1 {
      SplitOfPrefixed(a, [], d);
      assert a + [] == a;
    } else {
      var rest := Join(parts[1..], d);
      SplitJoin(parts[1..], d);
      assert Join(parts, d) == a + ([d] + rest);
      assert Split([d] + rest, d) == [[]] + parts[1..] by { assert ([d] + rest)[1..] == rest; }
      SplitOfPrefixed(a, [d] + rest, d);
      assert a + [] == a && [a] + parts[1..] == parts;
    }
  }

  // ----- one delimited piece -----

  /** `raw` between two copies of the delimiter. */
  function Quoted<T>(raw: seq<T>, d: T): seq<T> { [d] + raw + [d] }

  /** `Count` of a delimited piece, read off the pieces: a match uses up its closing
      delimiter, so the very next piece cannot match as well. */
  function PieceCount<T(==)>(parts: seq<seq<T>>, raw: seq<T>): nat {
    if |parts| < 3 then 0
    else if parts[1] == raw then 1 + PieceCount(parts[2..], raw)
    else PieceCount(parts[1..], raw)
  }

  /** `ReplaceFirst` of a delimited piece, read off the pieces. */
  function PieceReplace<T(==)>(parts: seq<seq<T>>, raw: seq<T>, new': seq<T>): seq<seq<T>> {
    if |parts| < 3 then parts
    else if parts[1] == raw then [parts[0], new'] + parts[2..]
    else [parts[0]] + PieceReplace(parts[1..], raw, new')
  }

  /** The piece at `i` stands between two delimiters. */
  predicate Inner<T>(parts: seq<seq<T>>, i: int) { 0 < i < |parts| - 1 }

  /** No piece between the first delimiter and `i` reads what `i` reads. */
  ghost predicate FirstHere<T>(parts: seq<seq<T>>, i: nat)
    requires i < |parts|
  { forall j :: 0 < j < i ==> parts[j] != parts[i] }

  lemma {:induction false} QuotedAtFront<T>(parts: seq<seq<T>>, raw: seq<T>, d: T)
    requires |parts| >= 2 && Free(parts, d) && parts[0] == [] && d !in raw
    ensures Quoted(raw, d) <= Join(parts, d) <==> |parts| >= 3 && parts[1] == raw
    ensures |parts| >= 3 && parts[1] == raw
            ==> Join(parts, d)[|raw| + 2..] == Join(parts[2..], d)
    ensures Join(parts, d)[1..] == Join(parts[1..], d)
  {
    var t, needle := Join(parts, d), Quoted(raw, d);
    assert t == [d] + Join(parts[1..], d);
    if |parts| == 2 {
      assert t == [d] + parts[1];
      assert forall i :: 0 < i < |t| ==> t[i] == parts[1][i - 1];
      assert needle[|raw| + 1] == d;
    } else {
      var rest := Join(parts[2..], d);
      assert parts[1..][1..] == parts[2..];
      assert t == [d] + parts[1] + [d] + rest;
      if parts[1] == raw {
        assert t == needle + rest;
      }
      if needle <= t {
        FirstDelimiter(parts[1], rest, raw, t[|needle|..], d) by {
          assert t == needle + t[|needle|..];
          assert [d] + (parts[1] + [d] + rest) == [d] + (raw + [d] + t[|needle|..]);
          assert ([d] + (parts[1] + [d] + rest))[1..] == parts[1] + [d] + rest;
          assert ([d] + (raw + [d] + t[|needle|..]))[1..] == raw + [d] + t[|needle|..];
        }
      }
    }
  }

  /** What stands before the first delimiter is determined by the text. */
  lemma FirstDelimiter<T>(a: seq<T>, x: seq<T>, b: seq<T>, y: seq<T>, d: T)
    requires d !in a && d !in b && a + [d] + x == b + [d] + y
    ensures a == b && x == y
  {
    var t, u := a + [d] + x, b + [d] + y;
    assert t[|a|] == d && u[|b|] == d;
    assert forall i :: 0 <= i < |b| ==> u[i] == b[i];
    assert forall i :: 0 <= i < |a| ==> t[i] == a[i];
    assert |a| == |b|;
    assert a == t[..|a|] && b == u[..|b|];
    assert x == t[|a| + 1..] && y == u[|b| + 1..];
  }

  lemma {:induction false} DropFromFirstPiece<T>(parts: seq<seq<T>>, d: T)
    requires |parts| >= 1 && parts[0] != [] && Free(parts, d)
    ensures var less := [parts[0][1..]] + parts[1..];
            Free(less, d) && Join(parts, d) == [parts[0][0]] + Join(less, d)
  {
    var less := [parts[0][1..]] + parts[1..];
    assert less[1..] == parts[1..];
    assert parts[0] == [parts[0][0]] + parts[0][1..];
    assert forall i :: 0 <= i < |less| ==> d !in less[i];
  }

  /** Counting a quoted citation in the text is counting it among the pieces. */
  lemma {:induction false} CountIsPieceCount<T>(parts: seq<seq<T>>, raw: seq<T>, d: T)
    requires |parts| >= 1 && Free(parts, d) && d !in raw
    ensures Count(Join(parts, d), Quoted(raw, d)) == PieceCount(parts, raw)
    decreases |parts|, |parts[0]|
  {
    var t, needle := Join(parts, d), Quoted(raw, d);
    if parts[0] != [] {
      var less := [parts[0][1..]] + parts[1..];
      DropFromFirstPiece(parts, d);
      assert t[0] != d && t[1..] == Join(less, d);
      CountIsPieceCount(less, raw, d);
      assert less[1..] == parts[1..];
      if |parts| >= 3 { assert less[2..] == parts[2..]; }
      assert Count(t, needle) == Count(t[1..], needle);
      assert PieceCount(less, raw) == PieceCount(parts, raw);
    } else if |parts| == 1 {
    } else {
      QuotedAtFront(parts, raw, d);
      if |parts| >= 3 && parts[1] == raw {
        CountIsPieceCount(parts[2..], raw, d);
      } else {
        CountIsPieceCount(parts[1..], raw, d);
      }
    }
  }

  /** Rewriting the first quoted citation in the text rewrites the first such piece. */
  lemma {:induction false} ReplaceIsPieceReplace<T>(parts: seq<seq<T>>, raw: seq<T>, new': seq<T>, d: T)
    requires |parts| >= 1 && Free(parts, d) && d !in raw
    ensures ReplaceFirst(Join(parts, d), Quoted(raw, d), Quoted(new', d))
            == Join(PieceReplace(parts, raw, new'), d)
    decreases |parts|, |parts[0]|
  {
    var t, needle := Join(parts, d), Quoted(raw, d);
    if parts[0] != [] {
      var less := [parts[0][1..]] + parts[1..];
      DropFromFirstPiece(parts, d);
      assert t[0] != d && t[1..] == Join(less, d);
      ReplaceIsPieceReplace(less, raw, new', d);
      PieceReplaceSkipsFront(parts, less, raw, new', d);
    } else if |parts| == 1 {
    } else {
      QuotedAtFront(parts, raw, d);
      if |parts| >= 3 && parts[1] == raw {
        PieceReplacedAtFront(parts, new', d);
        assert t == needle + Join(parts[2..], d);
      } else {
        ReplaceIsPieceReplace(parts[1..], raw, new', d);
        PieceReplacedLater(parts, raw, new', d);
        assert ReplaceFirst(t, needle, Quoted(new', d)) == [d] + ReplaceFirst(t[1..], needle, Quoted(new', d));
      }
    }
  }

  lemma PieceReplacedLater<T>(parts: seq<seq<T>>, raw: seq<T>, new': seq<T>, d: T)
    requires |parts| >= 2 && parts[0] == [] && (|parts| >= 3 ==> parts[1] != raw)
    ensures Join(PieceReplace(parts, raw, new'), d) == [d] + Join(PieceReplace(parts[1..], raw, new'), d)
  {
    if |parts| >= 3 {
      var out := PieceReplace(parts[1..], raw, new');
      assert ([parts[0]] + out)[1..] == out && |out| >= 1;
    }
  }

  lemma PieceReplacedAtFront<T>(parts: seq<seq<T>>, new': seq<T>, d: T)
    requires |parts| >= 3 && parts[0] == []
    ensures Join([parts[0], new'] + parts[2..], d) == Quoted(new', d) + Join(parts[2..], d)
  {
    var out := [parts[0], new'] + parts[2..];
    assert out[1..] == [new'] + parts[2..] && out[1..][1..] == parts[2..];
  }

  lemma PieceReplaceSkipsFront<T>(parts: seq<seq<T>>, less: seq<seq<T>>, raw: seq<T>, new': seq<T>, d: T)
    requires |parts| >= 1 && parts[0] != [] && less == [parts[0][1..]] + parts[1..]
    ensures Join(PieceReplace(parts, raw, new'), d)
            == [parts[0][0]] + Join(PieceReplace(less, raw, new'), d)
  {
    var rest := PieceReplaceKeepsFront(parts, raw, new');
    var rest' := PieceReplaceKeepsFront(less, raw, new');
    assert less[1..] == parts[1..];
    JoinSkipsFront([parts[0]] + rest, [less[0]] + rest', d);
  }

  /** What becomes of the pieces after the first does not depend on the first. */
  function RestReplaced<T(==)>(rest: seq<seq<T>>, raw: seq<T>, new': seq<T>): seq<seq<T>> {
    if |rest| < 2 then rest else if rest[0] == raw then [new'] + rest[1..] else PieceReplace(rest, raw, new')
  }

  lemma PieceReplaceKeepsFront<T>(parts: seq<seq<T>>, raw: seq<T>, new': seq<T>) returns (rest: seq<seq<T>>)
    requires |parts| >= 1
    ensures rest == RestReplaced(parts[1..], raw, new') && PieceReplace(parts, raw, new') == [parts[0]] + rest
  {
    rest := RestReplaced(parts[1..], raw, new');
    if |parts| >= 3 { assert parts[1..][0] == parts[1] && parts[1..][1..] == parts[2..]; }
  }

  lemma JoinSkipsFront<T>(out: seq<seq<T>>, less: seq<seq<T>>, d: T)
    requires |out| >= 1 && out[0] != [] && less == [out[0][1..]] + out[1..]
    ensures Join(out, d) == [out[0][0]] + Join(less, d)
  {
    assert less[1..] == out[1..];
    assert out[0] == [out[0][0]] + out[0][1..];
  }

  /** A count of one pins the occurrence: there is a first one, it is what gets
      rewritten, and any other can only be its immediate neighbour. */
  lemma {:induction false} OnePiece<T>(parts: seq<seq<T>>, raw: seq<T>, new': seq<T>) returns (a: nat)
    requires PieceCount(parts, raw) == 1
    ensures Inner(parts, a) && parts[a] == raw
    ensures PieceReplace(parts, raw, new') == parts[a := new']
    ensures forall j :: Inner(parts, j) && parts[j] == raw ==> j == a || j == a + 1
  {
    if parts[1] == raw {
      a := 1;
      assert PieceReplace(parts, raw, new') == parts[1 := new'];
      NoPiece(parts[2..], raw);
      forall j | 2 < j < |parts| - 1 ensures parts[j] != raw {
        assert Inner(parts[2..], j - 2);
      }
    } else {
      var rest := parts[1..];
      var b := OnePiece(rest, raw, new');
      a := b + 1;
      PieceFurtherOn(parts, raw, new', b);
    }
  }

  lemma PieceFurtherOn<T>(parts: seq<seq<T>>, raw: seq<T>, new': seq<T>, b: nat)
    requires |parts| >= 3 && parts[1] != raw && Inner(parts[1..], b)
    requires PieceReplace(parts[1..], raw, new') == parts[1..][b := new']
    requires forall j :: Inner(parts[1..], j) && parts[1..][j] == raw ==> j == b || j == b + 1
    ensures PieceReplace(parts, raw, new') == parts[b + 1 := new']
    ensures forall j :: Inner(parts, j) && parts[j] == raw ==> j == b + 1 || j == b + 2
  {
    var rest := parts[1..];
    assert [parts[0]] + rest[b := new'] == parts[b + 1 := new'];
    forall j | Inner(parts, j) && parts[j] == raw ensures j == b + 1 || j == b + 2 {
      assert Inner(rest, j - 1) && rest[j - 1] == raw;
    }
  }

  lemma {:induction false} NoPiece<T>(parts: seq<seq<T>>, raw: seq<T>)
    requires PieceCount(parts, raw) == 0
    ensures forall j :: Inner(parts, j) ==> parts[j] != raw
  {
    if |parts| >= 3 {
      NoPiece(parts[1..], raw);
      forall j | Inner(parts, j) ensures parts[j] != raw {
        if j > 1 { assert Inner(parts[1..], j - 1); }
      }
    }
  }

  // ----- text mode -----

  /** Text as text mode reads it, from a file or a pipe: every line ending is `\n`. */
  function Universal(text: string): string {
    if text == "" then ""
    else if text[0] != '\r' then [text[0]] + Universal(text[1..])
    else "\n" + Universal(if |text| > 1 && text[1] == '\n' then text[2..] else text[1..])
  }

  lemma EndingsRead()
    ensures Universal("\r\n") == Universal("\r") == Universal("\n") == "\n"
  {
    assert "\r\n"[2..] == "" && "\r"[1..] == "" && "\n"[1..] == "";
  }

  /** Text is read piece by piece wherever it is not cut inside a `\r\n`. */
  lemma {:induction false} UniversalReads(a: string, b: string)
    ensures a == "" || b == "" || a[|a| - 1] != '\r' || b[0] != '\n' ==>
      Universal(a + b) == Universal(a) + Universal(b)
    decreases |a|
  {
    if a == "" {
      assert a + b == b;
    } else if a[0] == '\r' && |a| > 1 && a[1] == '\n' {
      UniversalReads(a[2..], b);
      assert (a + b)[2..] == a[2..] + b;
    } else {
      UniversalReads(a[1..], b);
      assert (a + b)[1..] == a[1..] + b;
    }
  }

  lemma {:induction false} UniversalHasNoCR(text: string)
    ensures '\r' !in Universal(text)
    ensures '\r' !in text ==> Universal(text) == text
    ensures '\r' in text ==> '\n' in Universal(text)
    ensures '\n' in text ==> '\n' in Universal(text)
    decreases |text|
  {
    if text != "" {
      if text[0] != '\r' {
        UniversalHasNoCR(text[1..]);
        assert text == [text[0]] + text[1..];
      } else {
        UniversalHasNoCR(if |text| > 1 && text[1] == '\n' then text[2..] else text[1..]);
      }
    }
  }
}
