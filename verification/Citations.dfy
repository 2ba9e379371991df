/** The citation grammar `path:symbol[:line[-line]]` and the planning half of
    scripts/reanchor_citations.py: which rows of CITATION_TABLE have drifted, and what
    the source says they should read. */
module Citations {
  import opened Counting
  import opened Decimal
  import opened PyText

  datatype Row = Row(doc: string, raw: string, resolvePath: string, token: string)

  /** What the checker finds for a path, a symbol and a token. */
  datatype Found = Unresolved(files: nat) | TokenMissing | Line(line: nat)

  /** The checker module, reduced to its source lookup and its `_ABSENT_OK` set. */
  datatype Checker = Checker(locate: (string, string, string) -> Found, absentOk: set<(string, string)>)

  datatype Reason = LineOnly | DocNotOnce | TableNotOnce | NotOneFile | SymbolNotFound

  datatype Unfixable = Unfixable(doc: string, raw: string, reason: Reason)

  datatype Drift = Drift(doc: string, oldRaw: string, newRaw: string, resolvePath: string)

  /** `_LEGACY_LINE_SPEC_RE`: a bare `line` or `line-line`. */
  predicate LegacySpec(tail: string) {
    IsDigits(tail) || ('-' in tail && IsDigits(Before(tail, '-')) && IsDigits(After(tail, '-')))
  }

  function CitedLine(tail: string): Option<nat> {
    if ':' !in tail then None
    else
      var start := Before(RAfter(tail, ':'), '-');
      if IsDigits(start) then Some(ParseNat(start)) else None
  }

  /** A line part whose numbers `int()` can read. */
  predicate LineSpec(spec: string) {
    IsDigits(Before(spec, '-')) && ('-' in spec ==> IsInt(After(spec, '-')))
  }

  function NewSpec(spec: string, found: nat): string
    requires LineSpec(spec)
  {
    if '-' in spec then
      var delta := found - ParseNat(Before(spec, '-'));
      NatStr(found) + "-" + IntStr(ParseInt(After(spec, '-')) + delta)
    else NatStr(found)
  }

  function NewSymbolSpec(tail: string, found: nat): string
    requires LineSpec(RAfter(tail, ':'))
  { RBefore(tail, ':') + ":" + NewSpec(RAfter(tail, ':'), found) }

  /** How many lines past its start a citation reaches; a single line spans none. */
  function Span(spec: string): int
    requires LineSpec(spec)
  { if '-' in spec then ParseInt(After(spec, '-')) - ParseNat(Before(spec, '-')) else 0 }

  /** A row the script can read: a colon, and numbers where it will call `int()`. */
  predicate Readable(row: Row) {
    && ':' in row.raw
    && (CitedLine(After(row.raw, ':')).Some? ==> LineSpec(RAfter(After(row.raw, ':'), ':')))
  }

  /** No delimiter of either surface and no newline occurs in the citation. */
  predicate Clean(raw: string) { '`' !in raw && '"' !in raw && '\n' !in raw }

  // ----- one row -----

  function Symbol(tail: string): string { RBefore(tail, ':') }

  function NewRaw(raw: string, found: nat): string
    requires LineSpec(RAfter(After(raw, ':'), ':'))
  { Before(raw, ':') + ":" + NewSymbolSpec(After(raw, ':'), found) }

  /** `_symbol_drift`: the token's real line, when the row cites another one. */
  function SymbolDrift(c: Checker, row: Row): Option<nat> {
    var tail := After(row.raw, ':');
    var cited := CitedLine(tail);
    if cited.None? then None
    else match c.locate(row.resolvePath, Symbol(tail), row.token)
      case Line(n) => if n == cited.value then None else Some(n)
      case _ => None
  }

  function RowUnfixable(row: Row): seq<Unfixable> {
    if LegacySpec(After(row.raw, ':')) then [Unfixable(row.doc, row.raw, LineOnly)] else []
  }

  function RowDrift(c: Checker, row: Row): seq<Drift>
    requires Readable(row)
  {
    if LegacySpec(After(row.raw, ':')) || SymbolDrift(c, row).None? then []
    else [Drift(row.doc, row.raw, NewRaw(row.raw, SymbolDrift(c, row).value), row.resolvePath)]
  }

  // ----- the table -----

  function Drifts(c: Checker, rows: seq<Row>): seq<Drift>
    requires forall r :: r in rows ==> Readable(r)
  { Gathered(rows, DriftOf(c)) }

  function DriftOf(c: Checker): Row -> seq<Drift> { (row: Row) => if Readable(row) then RowDrift(c, row) else [] }

  function Unfixables(rows: seq<Row>): seq<Unfixable> {
    Gathered(rows, RowUnfixable)
  }

  /** One pass of the planning loop. */
  method PlanRow(c: Checker, row: Row) returns (drift: seq<Drift>, unfixable: seq<Unfixable>)
    requires Readable(row)
    ensures drift == RowDrift(c, row) && unfixable == RowUnfixable(row)
  {
    var tail := After(row.raw, ':');
    if LegacySpec(tail) { return [], [Unfixable(row.doc, row.raw, LineOnly)]; }
    var actual := SymbolDrift(c, row);
    if actual.None? { return [], []; }
    return [Drift(row.doc, row.raw, NewRaw(row.raw, actual.value), row.resolvePath)], [];
  }

  method Plan(c: Checker, rows: seq<Row>) returns (drifts: seq<Drift>, unfixable: seq<Unfixable>)
    requires forall r :: r in rows ==> Readable(r)
    ensures drifts == Drifts(c, rows) && unfixable == Unfixables(rows)
  {
    drifts, unfixable := [], [];
    for i := 0 to |rows|
      invariant drifts == Drifts(c, rows[..i]) && unfixable == Unfixables(rows[..i])
    {
      assert rows[..i + 1][..i] == rows[..i];
      assert rows[i] in rows;
      var drift, refused := PlanRow(c, rows[i]);
      drifts, unfixable := drifts + drift, unfixable + refused;
    }
    assert rows[..|rows|] == rows;
  }

  // ----- what re-anchoring keeps -----

  /** A re-anchored line part starts at the found line, keeps its span, and can be
      re-anchored again. */
  lemma NewSpecMoves(spec: string, found: nat)
    requires LineSpec(spec)
    ensures var s := NewSpec(spec, found);
            LineSpec(s) && ParseNat(Before(s, '-')) == found && Span(s) == Span(spec) && ':' !in s && Clean(s)
            && '\r' !in s
  {
    NatStrParses(found);
    if '-' in spec {
      var end := ParseInt(After(spec, '-')) + found - ParseNat(Before(spec, '-'));
      RangeReads(found, end);
      IntStrParses(end);
      assert NewSpec(spec, found) == NatStr(found) + "-" + IntStr(end);
    } else {
      PlainInt(found);
      NoSplit(NatStr(found), '-');
    }
  }

  lemma RangeReads(start: nat, end: int)
    ensures var s := NatStr(start) + "-" + IntStr(end);
            '-' in s && Before(s, '-') == NatStr(start) && After(s, '-') == IntStr(end) && ':' !in s && Clean(s)
            && '\r' !in s
  {
    var a, b := NatStr(start), IntStr(end);
    assert a + "-" + b == a + ['-'] + b;
    NatStrParses(start);
    FirstSplit(a, '-', b);
    PlainInt(start);
    PlainInt(end);
    PlainRange(a, b);
  }

  lemma PlainRange(a: string, b: string)
    requires forall x :: x in a || x in b ==> x == '-' || IsDigit(x)
    ensures var s := a + ['-'] + b; '-' in s && ':' !in s && Clean(s) && '\r' !in s
  {
    var s := a + ['-'] + b;
    assert s[|a|] == '-';
    forall x | x in s ensures x == '-' || IsDigit(x) {}
  }

  lemma PlainInt(z: int)
    ensures forall i :: 0 <= i < |IntStr(z)| ==> IntStr(z)[i] == '-' || IsDigit(IntStr(z)[i])
  {
    NatStrParses(if z < 0 then -z else z);
  }

  /** What stands on either side of a separator stands in the text. */
  lemma PartsWithin(s: string, c: char)
    ensures forall x :: x in Before(s, c) || x in After(s, c) || x in RBefore(s, c) || x in RAfter(s, c) ==> x in s
  {
    if c in s {
      FirstParts(s, c);
      LastParts(s, c);
    } else {
      NoSeparator(s, c);
    }
  }

  lemma CleanParts(s: string, c: char)
    requires Clean(s)
    ensures Clean(Before(s, c)) && Clean(After(s, c)) && Clean(RBefore(s, c)) && Clean(RAfter(s, c))
  {
    PartsWithin(s, c);
  }

  /** No carriage return comes in with a new line part. */
  lemma NewRawLacksCR(raw: string, found: nat)
    requires LineSpec(RAfter(After(raw, ':'), ':')) && '\r' !in raw
    ensures '\r' !in NewRaw(raw, found)
  {
    PartsWithin(raw, ':');
    PartsWithin(After(raw, ':'), ':');
    NewSpecMoves(RAfter(After(raw, ':'), ':'), found);
  }

  lemma {:induction false} NoSeparator(s: string, c: char)
    requires c !in s
    ensures Before(s, c) == s && After(s, c) == "" && RBefore(s, c) == "" && RAfter(s, c) == s
  {
    if s != "" {
      NoSeparator(s[1..], c);
      NoSeparator(s[..|s| - 1], c);
    }
  }

  lemma NewSymbolSpecReads(tail: string, found: nat)
    requires ':' in tail && LineSpec(RAfter(tail, ':'))
    ensures var new' := NewSymbolSpec(tail, found);
            && ':' in new' && !LegacySpec(new') && Symbol(new') == Symbol(tail)
            && CitedLine(new') == Some(found)
            && LineSpec(RAfter(new', ':'))
            && Span(RAfter(new', ':')) == Span(RAfter(tail, ':'))
            && (Clean(tail) ==> Clean(new'))
  {
    var spec := NewSpec(RAfter(tail, ':'), found);
    NewSpecMoves(RAfter(tail, ':'), found);
    assert NewSymbolSpec(tail, found) == Symbol(tail) + [':'] + spec;
    LastSplit(Symbol(tail), ':', spec);
    ColonNotLegacy(NewSymbolSpec(tail, found));
    if Clean(tail) { CleanParts(tail, ':'); }
  }

  /** The re-anchored citation keeps its path and its symbol, cites the found line, keeps
      its span, and still reads as a symbol citation. */
  lemma NewRawReads(raw: string, found: nat)
    requires ':' in raw && ':' in After(raw, ':') && LineSpec(RAfter(After(raw, ':'), ':'))
    ensures var tail, new' := After(raw, ':'), NewRaw(raw, found);
            && ':' in new' && Before(new', ':') == Before(raw, ':')
            && Symbol(After(new', ':')) == Symbol(tail)
            && CitedLine(After(new', ':')) == Some(found)
            && LineSpec(RAfter(After(new', ':'), ':'))
            && Span(RAfter(After(new', ':'), ':')) == Span(RAfter(tail, ':'))
            && !LegacySpec(After(new', ':'))
    ensures Clean(raw) ==> Clean(NewRaw(raw, found))
  {
    var tail := After(raw, ':');
    NewSymbolSpecReads(tail, found);
    FirstParts(raw, ':');
    assert NewRaw(raw, found) == Before(raw, ':') + [':'] + NewSymbolSpec(tail, found);
    FirstSplit(Before(raw, ':'), ':', NewSymbolSpec(tail, found));
    if Clean(raw) { CleanParts(raw, ':'); }
  }

  lemma ColonNotLegacy(tail: string)
    requires ':' in tail
    ensures !LegacySpec(tail)
  {
    if '-' in tail { FirstParts(tail, '-'); }
  }

  /** The table after every planned drift has been written back. */
  function Reanchored(c: Checker, row: Row): Row
    requires Readable(row)
  { if RowDrift(c, row) == [] then row else row.(raw := RowDrift(c, row)[0].newRaw) }

  function ReanchoredTable(c: Checker, rows: seq<Row>): seq<Row>
    requires forall r :: r in rows ==> Readable(r)
  { seq(|rows|, i requires 0 <= i < |rows| => assert rows[i] in rows; Reanchored(c, rows[i])) }

  /** A second plan over the corrected rows finds no drift and the same unfixable rows. */
  lemma PlanSettles(c: Checker, rows: seq<Row>)
    requires forall r :: r in rows ==> Readable(r)
    ensures var after := ReanchoredTable(c, rows);
            && |after| == |rows|
            && (forall r :: r in after ==> Readable(r))
            && Drifts(c, after) == []
            && Unfixables(after) == Unfixables(rows)
  {
    var after := ReanchoredTable(c, rows);
    forall k | 0 <= k < |rows|
      ensures Readable(after[k]) && DriftOf(c)(after[k]) == [] && RowUnfixable(after[k]) == RowUnfixable(rows[k])
    {
      assert rows[k] in rows;
      RowSettles(c, rows[k]);
    }
    GatheredNone(after, DriftOf(c));
    GatheredSame(after, rows, RowUnfixable);
  }

  lemma RowSettles(c: Checker, row: Row)
    requires Readable(row)
    ensures var after := Reanchored(c, row);
            Readable(after) && RowDrift(c, after) == [] && RowUnfixable(after) == RowUnfixable(row)
  {
    if RowDrift(c, row) != [] {
      NewRawReads(row.raw, SymbolDrift(c, row).value);
    }
  }

  /** Every planned rewrite comes from a row, changes the text, and stays clean. */
  lemma RowDriftSound(c: Checker, row: Row)
    requires Readable(row) && RowDrift(c, row) != []
    ensures var d := RowDrift(c, row)[0];
            d.oldRaw == row.raw && d.doc == row.doc && d.newRaw != d.oldRaw && (Clean(row.raw) ==> Clean(d.newRaw))
  {
    NewRawReads(row.raw, SymbolDrift(c, row).value);
  }
}
