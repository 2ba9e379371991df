/** The two texts a citation stands in, as scripts/reanchor_citations.py rewrites them: a
    doc, where it stands between backticks, and the CITATION_TABLE literal, where it stands
    between double quotes inside a slice that every rewrite has to find again. */
module Surfaces {
  import opened PyText
  import opened Citations

  type Path = string

  const TABLE_START := "CITATION_TABLE = (\n"
  const TABLE_END := "\n)\n\nassert len(CITATION_TABLE) >= 20,"

  // ----- the files of a run -----

  /** Where each doc lives, where the table lives, what a file reads when a run starts, and
      the two surfaces a citation stands in. */
  datatype Files<S> = Files(docPath: string -> Path, tablePath: Path, disk: Path -> string, doc: S, table: S)

  /** What a doc reads in the middle of a run that has rewritten some. */
  function DocText<S>(env: Files<S>, docs: map<Path, string>, p: Path): string {
    if p in docs then docs[p] else env.disk(p)
  }

  /** The texts a finished run hands back. */
  function FinalTexts<S>(env: Files<S>, docs: map<Path, string>, table: string, changed: set<Path>): map<Path, string> {
    map p | p in changed :: if p == env.tablePath then table else DocText(env, docs, p)
  }

  lemma TextsAreFinal<S>(env: Files<S>, docs: map<Path, string>, table: string, changed: set<Path>,
                           texts: map<Path, string>)
    requires changed <= docs.Keys + {env.tablePath}
    requires texts == map p | p in changed :: if p == env.tablePath then table else docs[p]
    ensures texts == FinalTexts(env, docs, table, changed)
  {
  }

  // ----- one rewrite -----

  function Rewrite(text: string, raw: string, newRaw: string): Option<string> {
    if Count(text, Quoted(raw, '`')) != 1 then None
    else Some(ReplaceFirst(text, Quoted(raw, '`'), Quoted(newRaw, '`')))
  }

  /** `_table_slice`: where the body of the CITATION_TABLE literal starts and ends. */
  function TableSlice(text: string): (r: Option<(nat, nat)>)
    ensures r.Some? ==> r.value.0 <= r.value.1 <= |text|
  { Between(text, TABLE_START, TABLE_END) }

  function Between(text: string, open: string, close: string): (r: Option<(nat, nat)>)
    ensures r.Some? ==> r.value.0 <= r.value.1 <= |text|
  {
    match IndexOf(text, open, 0)
    case None => None
    case Some(i) =>
      match IndexOf(text, close, i + |open|)
      case None => None
      case Some(e) => Some((i + |open|, e))
  }

  function RewriteTableRow(text: string, raw: string, newRaw: string): Option<string> {
    match TableSlice(text)
    case None => None
    case Some((start, end)) =>
      var body := text[start..end];
      if Count(body, Quoted(raw, '"')) != 1 then None
      else Some(text[..start] + ReplaceFirst(body, Quoted(raw, '"'), Quoted(newRaw, '"')) + text[end..])
  }

  // ----- the two surfaces as pieces -----

  function DocPieces(text: string): seq<string> { Split(text, '`') }

  function TablePieces(text: string): seq<string> {
    match TableSlice(text)
    case None => []
    case Some((start, end)) => Split(text[start..end], '"')
  }

  function TableOutside(text: string): (string, string) {
    match TableSlice(text)
    case None => (text, "")
    case Some((start, end)) => (text[..start], text[end..])
  }

  lemma {:induction false} PieceReplaceFree(parts: seq<string>, raw: string, new': string, d: char)
    requires |parts| >= 1 && Free(parts, d) && d !in new'
    ensures Free(PieceReplace(parts, raw, new'), d) && |PieceReplace(parts, raw, new')| == |parts|
  {
    if |parts| >= 3 && parts[1] != raw { PieceReplaceFree(parts[1..], raw, new', d); }
  }

  /** A rewrite of a quoted citation, seen from the pieces. */
  lemma QuotedRewrite(text: string, raw: string, new': string, d: char)
    requires d !in raw && d !in new'
    ensures Count(text, Quoted(raw, d)) == PieceCount(Split(text, d), raw)
    ensures Split(ReplaceFirst(text, Quoted(raw, d), Quoted(new', d)), d) == PieceReplace(Split(text, d), raw, new')
  {
    var parts := Split(text, d);
    CountIsPieceCount(parts, raw, d);
    ReplaceIsPieceReplace(parts, raw, new', d);
    PieceReplaceFree(parts, raw, new', d);
    SplitJoin(PieceReplace(parts, raw, new'), d);
  }

  /** Where `ReplaceFirst` acts. */
  lemma {:induction false} ReplacesAt(s: string, old': string, new': string) returns (p: nat)
    requires old' != [] && Count(s, old') >= 1
    ensures At(s, p, old') && ReplaceFirst(s, old', new') == s[..p] + new' + s[p + |old'|..]
  {
    if old' <= s {
      p := 0;
    } else {
      var q := ReplacesAt(s[1..], old', new');
      p := q + 1;
      assert s[1..][q..q + |old'|] == s[p..p + |old'|];
      assert [s[0]] + s[1..][..q] == s[..p];
      assert s[1..][q + |old'|..] == s[p + |old'|..];
    }
  }

  // ----- the table slice survives a rewrite inside it -----

  lemma WindowShift<T>(s: seq<T>, i: nat, t: seq<T>, j: nat, p: seq<T>)
    requires i + |p| <= |s| && j + |p| <= |t|
    requires forall k :: i <= k < i + |p| ==> s[k] == t[k + (j - i)]
    ensures At(s, i, p) <==> At(t, j, p)
  {
    var a, b := s[i..i + |p|], t[j..j + |p|];
    forall k | 0 <= k < |p| ensures a[k] == b[k] { assert s[i + k] == t[i + k + (j - i)]; }
    assert a == b;
  }

  /** `text` with the quoted `raw` at `p` rewritten. */
  ghost function Edited(text: string, p: nat, raw: string, new': string): string
    requires p + |raw| + 2 <= |text|
  { text[..p] + Quoted(new', '"') + text[p + |raw| + 2..] }

  /** No end marker appears in a rewritten body: the marker holds no quote, so it could
      only sit in text that was there before, or inside a citation, which has no newline. */
  lemma NoEarlierEnd(text: string, mark: string, s0: nat, p: nat, raw: string, new': string, e0: nat, j: nat)
    requires '"' !in mark && mark != "" && mark[0] == '\n' && Clean(new')
    requires s0 <= p && p + |raw| + 2 <= e0 <= |text|
    requires forall k :: s0 <= k < e0 ==> !At(text, k, mark)
    requires s0 <= j < e0 + |new'| - |raw|
    ensures !At(Edited(text, p, raw, new'), j, mark)
  {
    var t := Edited(text, p, raw, new');
    var n, close := |mark|, p + |new'| + 1;
    assert t[p] == '"' && t[close] == '"';
    assert forall k :: p < k < close ==> t[k] == new'[k - p - 1] != '\n';
    if At(t, j, mark) {
      assert forall k :: j <= k < j + n ==> t[k] == mark[k - j];
      assert t[j] == '\n';
      if j + n <= p {
        WindowShift(text, j, t, j, mark);
      } else if j > close {
        WindowShift(text, j + |raw| - |new'|, t, j, mark);
      }
      assert false;
    }
  }

  lemma StartStays(text: string, mark: string, start: nat, p: nat, raw: string, new': string)
    requires |mark| <= start <= p && p + |raw| + 2 <= |text|
    requires IndexOf(text, mark, 0) == Some(start - |mark|)
    ensures IndexOf(Edited(text, p, raw, new'), mark, 0) == Some(start - |mark|)
  {
    var t := Edited(text, p, raw, new');
    IndexOfIsFirst(text, mark, 0);
    forall j | 0 <= j <= start - |mark| ensures At(t, j, mark) <==> At(text, j, mark) {
      WindowShift(text, j, t, j, mark);
    }
    FirstIndex(t, mark, 0, start - |mark|);
  }

  lemma EndMoves(text: string, mark: string, s0: nat, p: nat, raw: string, new': string, e0: nat)
    requires '"' !in mark && mark != "" && mark[0] == '\n' && Clean(new')
    requires s0 <= p && p + |raw| + 2 <= e0
    requires IndexOf(text, mark, s0) == Some(e0)
    ensures IndexOf(Edited(text, p, raw, new'), mark, s0) == Some(e0 + |new'| - |raw|)
  {
    var t, e := Edited(text, p, raw, new'), e0 + |new'| - |raw|;
    IndexOfIsFirst(text, mark, s0);
    WindowShift(text, e0, t, e, mark);
    forall j | s0 <= j < e ensures !At(t, j, mark) {
      NoEarlierEnd(text, mark, s0, p, raw, new', e0, j);
    }
    FirstIndex(t, mark, s0, e);
  }

  ghost predicate SliceIs(text: string, open: string, close: string, start: nat, end: nat) {
    |open| <= start && IndexOf(text, open, 0) == Some(start - |open|) && IndexOf(text, close, start) == Some(end)
  }

  lemma SliceMoves(text: string, open: string, close: string, start: nat, end: nat, p: nat,
                     raw: string, new': string, t: string)
    requires '"' !in close && close != "" && close[0] == '\n' && Clean(new')
    requires SliceIs(text, open, close, start, end) && start <= p && p + |raw| + 2 <= end && end <= |text|
    requires t == Edited(text, p, raw, new')
    ensures SliceIs(t, open, close, start, end + |new'| - |raw|)
  {
    StartStays(text, open, start, p, raw, new');
    EndMoves(text, close, start, p, raw, new', end);
  }

  /** The slice, found again around its new body. */
  ghost predicate SliceHolds(text: string, open: string, close: string, start: nat, end: nat, newBody: string)
    requires start <= end <= |text|
  {
    var t := text[..start] + newBody + text[end..];
    && SliceIs(t, open, close, start, start + |newBody|)
    && t[..start] == text[..start] && t[start..start + |newBody|] == newBody && t[start + |newBody|..] == text[end..]
  }

  lemma EditHolds(text: string, open: string, close: string, start: nat, end: nat, q: nat,
                    raw: string, new': string, newBody: string)
    requires '"' !in close && close != "" && close[0] == '\n' && Clean(new')
    requires start <= end <= |text| && SliceIs(text, open, close, start, end) && q + |raw| + 2 <= end - start
    requires newBody == text[start..end][..q] + Quoted(new', '"') + text[start..end][q + |raw| + 2..]
    ensures SliceHolds(text, open, close, start, end, newBody)
  {
    BodyEdit(text, start, end, q, raw, new', newBody);
    SliceMoves(text, open, close, start, end, start + q, raw, new', text[..start] + newBody + text[end..]);
  }

  lemma BodyRewrite(text: string, open: string, close: string, start: nat, end: nat,
                      raw: string, new': string, newBody: string)
    requires '"' !in close && close != "" && close[0] == '\n' && Clean(new')
    requires start <= end <= |text| && SliceIs(text, open, close, start, end)
    requires Count(text[start..end], Quoted(raw, '"')) >= 1
    requires newBody == ReplaceFirst(text[start..end], Quoted(raw, '"'), Quoted(new', '"'))
    ensures SliceHolds(text, open, close, start, end, newBody)
  {
    var q := ReplacesAt(text[start..end], Quoted(raw, '"'), Quoted(new', '"'));
    EditHolds(text, open, close, start, end, q, raw, new', newBody);
  }

  lemma BetweenIs(text: string, open: string, close: string, start: nat, end: nat)
    ensures Between(text, open, close) == Some((start, end)) <==> SliceIs(text, open, close, start, end)
  {
  }

  lemma HoldsBetween(text: string, open: string, close: string, start: nat, end: nat, newBody: string, t: string)
    requires start <= end <= |text| && SliceHolds(text, open, close, start, end, newBody)
    requires t == text[..start] + newBody + text[end..]
    ensures Between(t, open, close) == Some((start, start + |newBody|)) && start + |newBody| <= |t|
    ensures t[..start] == text[..start] && t[start..start + |newBody|] == newBody
    ensures t[start + |newBody|..] == text[end..]
  {
    BetweenIs(t, open, close, start, start + |newBody|);
  }

  lemma TableReads(t: string, start: nat, end: nat)
    requires start <= end <= |t| && Between(t, TABLE_START, TABLE_END) == Some((start, end))
    ensures TablePieces(t) == Split(t[start..end], '"') && TableOutside(t) == (t[..start], t[end..])
  {
  }

  /** Rewriting inside the literal leaves the literal where it was, around the new body. */
  lemma LiteralKept(text: string, start: nat, end: nat, raw: string, new': string, newBody: string)
    requires Clean(new') && TableSlice(text) == Some((start, end))
    requires Count(text[start..end], Quoted(raw, '"')) >= 1
    requires newBody == ReplaceFirst(text[start..end], Quoted(raw, '"'), Quoted(new', '"'))
    ensures TablePieces(text[..start] + newBody + text[end..]) == Split(newBody, '"')
    ensures TableOutside(text[..start] + newBody + text[end..]) == TableOutside(text)
  {
    EndMarker();
    BetweenIs(text, TABLE_START, TABLE_END, start, end);
    BodyRewrite(text, TABLE_START, TABLE_END, start, end, raw, new', newBody);
    var t := text[..start] + newBody + text[end..];
    HoldsBetween(text, TABLE_START, TABLE_END, start, end, newBody, t);
    TableReads(t, start, start + |newBody|);
  }

  /** A rewritten table row changes one piece of the literal and nothing around it. */
  lemma TableRewrite(text: string, raw: string, new': string, t: string)
    requires Clean(raw) && Clean(new') && RewriteTableRow(text, raw, new') == Some(t)
    ensures PieceCount(TablePieces(text), raw) == 1
    ensures TablePieces(t) == PieceReplace(TablePieces(text), raw, new')
    ensures TableOutside(t) == TableOutside(text)
  {
    var (start, end) := TableSlice(text).value;
    QuotedRewrite(text[start..end], raw, new', '"');
    LiteralKept(text, start, end, raw, new', ReplaceFirst(text[start..end], Quoted(raw, '"'), Quoted(new', '"')));
  }

  lemma EndMarker()
    ensures '"' !in TABLE_END && TABLE_END[0] == '\n'
  {
  }

  lemma BodyEdit(text: string, start: nat, end: nat, q: nat, raw: string, new': string, newBody: string)
    requires start <= end <= |text| && q + |raw| + 2 <= end - start
    requires newBody == text[start..end][..q] + Quoted(new', '"') + text[start..end][q + |raw| + 2..]
    ensures var t := Edited(text, start + q, raw, new');
            && t == text[..start] + newBody + text[end..]
            && |newBody| == end - start + |new'| - |raw| && start + |newBody| <= |t|
            && t[..start] == text[..start]
            && t[start..start + |newBody|] == newBody
            && t[start + |newBody|..] == text[end..]
  {
    var body, t := text[start..end], text[..start] + newBody + text[end..];
    assert text[..start] + body[..q] == text[..start + q];
    assert body[q + |raw| + 2..] + text[end..] == text[start + q + |raw| + 2..];
    assert t == Edited(text, start + q, raw, new');
  }
}
