/** The emitted reversal statement as text, and what SQL reads in it. */
module Sql {
  import opened Decimal
  import opened PyText

  /** `_sql_quote`: every quote doubled. */
  function Quote(value: string): string {
    if value == "" then ""
    else (if value[0] == '\'' then "''" else [value[0]]) + Quote(value[1..])
  }

  lemma {:induction false} QuoteReplaces(value: string)
    ensures Quote(value) == ReplaceAll(value, "'", "''")
  {
    if value != "" { QuoteReplaces(value[1..]); }
  }

  function Literal(value: string): string { "'" + Quote(value) + "'" }

  /** A string literal, read from after its opening quote: two quotes are one, one quote ends
      it. The value, and what follows. */
  function ReadBody(s: string): Option<(string, string)> {
    if s == "" then None
    else if s[0] != '\'' then
      match ReadBody(s[1..]) case None => None case Some((v, rest)) => Some(([s[0]] + v, rest))
    else if |s| > 1 && s[1] == '\'' then
      match ReadBody(s[2..]) case None => None case Some((v, rest)) => Some(("'" + v, rest))
    else Some(("", s[1..]))
  }

  function ReadLiteral(s: string): Option<(string, string)> {
    if s == "" || s[0] != '\'' then None else ReadBody(s[1..])
  }

  predicate Closed(rest: string) { rest == "" || rest[0] != '\'' }

  lemma {:induction false} BodyReads(value: string, rest: string)
    requires Closed(rest)
    ensures ReadBody(Quote(value) + "'" + rest) == Some((value, rest))
  {
    var s := Quote(value) + "'" + rest;
    if value == "" {
      assert s == "'" + rest;
    } else {
      var first := if value[0] == '\'' then "''" else [value[0]];
      assert s == first + (Quote(value[1..]) + "'" + rest);
      BodyReads(value[1..], rest);
      assert value == [value[0]] + value[1..];
    }
  }

  /** A quoted value reads back, whatever quotes it holds. */
  lemma LiteralReads(value: string, rest: string)
    requires Closed(rest)
    ensures ReadLiteral(Literal(value) + rest) == Some((value, rest))
  {
    var s := Literal(value) + rest;
    assert s[1..] == Quote(value) + "'" + rest;
    BodyReads(value, rest);
  }

  // ----- the id list -----

  function IdList(ids: seq<string>): string
    requires ids != []
  { if |ids| == 1 then Literal(ids[0]) else Literal(ids[0]) + ", " + IdList(ids[1..]) }

  /** Literals divided by `, `. */
  function ReadIds(s: string): Option<(seq<string>, string)>
    decreases |s|
  {
    match ReadLiteral(s)
    case None => None
    case Some((id, rest)) =>
      if |rest| > 1 && rest[0] == ',' && rest[1] == ' ' && |rest| < |s| then
        match ReadIds(rest[2..]) case None => None case Some((more, end)) => Some(([id] + more, end))
      else Some(([id], rest))
  }

  lemma {:induction false} IdsRead(ids: seq<string>, rest: string)
    requires ids != [] && Closed(rest) && (rest == "" || rest[0] != ',')
    ensures ReadIds(IdList(ids) + rest) == Some((ids, rest))
  {
    var s := IdList(ids) + rest;
    if |ids| == 1 {
      LiteralReads(ids[0], rest);
      assert ids == [ids[0]];
    } else {
      var after := ", " + IdList(ids[1..]) + rest;
      assert s == Literal(ids[0]) + after;
      LiteralReads(ids[0], after);
      assert after[2..] == IdList(ids[1..]) + rest;
      IdsRead(ids[1..], rest);
      assert ids == [ids[0]] + ids[1..];
    }
  }

  // ----- an update statement -----

  /** What a column is set to: a number, nothing, or a column with a text replaced in it. */
  datatype Value = Number(n: nat) | Null | Replace(column: string, old': string, new': string)

  datatype Assignment = Assignment(column: string, value: Value)

  /** `UPDATE table SET ... WHERE key IN (...);` */
  datatype Update = Update(table: string, set': seq<Assignment>, key: string, ids: seq<string>)

  predicate NameChar(c: char) { 'a' <= c <= 'z' || c == '_' }

  predicate IsName(s: string) { s != "" && forall i :: 0 <= i < |s| ==> NameChar(s[i]) }

  function PrintValue(v: Value): string {
    match v
    case Number(n) => NatStr(n)
    case Null => "NULL"
    case Replace(column, old', new') =>
      "replace(" + (column + (", " + (Literal(old') + (", " + (Literal(new') + ")")))))
  }

  function PrintSet(set': seq<Assignment>): string
    requires set' != []
  {
    var first := set'[0].column + (" = " + PrintValue(set'[0].value));
    if |set'| == 1 then first else first + (", " + PrintSet(set'[1..]))
  }

  function Print(u: Update): string
    requires u.set' != [] && u.ids != []
  {
    "UPDATE " + (u.table + (" SET " + (PrintSet(u.set') + (" WHERE " + (u.key + (" IN (" + (IdList(u.ids) + ");")))))))
  }

  predicate WellFormed(u: Update) {
    && u.set' != [] && u.ids != [] && IsName(u.table) && IsName(u.key)
    && forall a :: a in u.set' ==> Named(a)
  }

  // ----- reading it -----

  function Skip(part: string, s: string): Option<string> { if part <= s then Some(s[|part|..]) else None }

  /** The longest run of characters of a kind, and what follows. */
  function Span(s: string, kind: char -> bool): (string, string) {
    if s == "" || !kind(s[0]) then ("", s)
    else
      var (run, rest) := Span(s[1..], kind);
      ([s[0]] + run, rest)
  }

  function ReadName(s: string): Option<(string, string)> {
    var (name, rest) := Span(s, NameChar);
    if name == "" then None else Some((name, rest))
  }

  lemma {:induction false} SpanOnlyKind(s: string, kind: char -> bool)
    ensures var (run, rest) := Span(s, kind); s == run + rest && forall i :: 0 <= i < |run| ==> kind(run[i])
  {
    if s != "" && kind(s[0]) { SpanOnlyKind(s[1..], kind); }
  }

  function ReadNumber(s: string): Option<(nat, string)> {
    var (digits, rest) := Span(s, IsDigit);
    SpanOnlyKind(s, IsDigit);
    if digits == "" then None else Some((ParseNat(digits), rest))
  }

  function ReadReplace(s: string): Option<(Value, string)> {
    match Skip("replace(", s) case None => None case Some(a) =>
      match ReadName(a) case None => None case Some((column, b)) =>
        match Skip(", ", b) case None => None case Some(c) =>
          match ReadLiteral(c) case None => None case Some((old', d)) =>
            match Skip(", ", d) case None => None case Some(e) =>
              match ReadLiteral(e) case None => None case Some((new', f)) =>
                match Skip(")", f) case None => None case Some(rest) => Some((Replace(column, old', new'), rest))
  }

  function ReadValue(s: string): Option<(Value, string)> {
    match ReadNumber(s)
    case Some((n, rest)) => Some((Number(n), rest))
    case None =>
      match Skip("NULL", s) case Some(rest) => Some((Null, rest)) case None => ReadReplace(s)
  }

  function ReadAssignment(s: string): Option<(Assignment, string)> {
    match ReadName(s) case None => None case Some((column, a)) =>
      match Skip(" = ", a) case None => None case Some(b) =>
        match ReadValue(b) case None => None case Some((v, rest)) => Some((Assignment(column, v), rest))
  }

  function ReadSet(s: string): Option<(seq<Assignment>, string)>
    decreases |s|
  {
    match ReadAssignment(s) case None => None case Some((a, rest)) =>
      match Skip(", ", rest)
      case None => Some(([a], rest))
      case Some(next) =>
        if |next| >= |s| then None
        else match ReadSet(next) case None => None case Some((more, end)) => Some(([a] + more, end))
  }

  /** What SQL reads in the statement. */
  function Read(s: string): Option<Update> {
    match Skip("UPDATE ", s) case None => None case Some(a) =>
      match ReadName(a) case None => None case Some((table, b)) =>
        match Skip(" SET ", b) case None => None case Some(c) =>
          match ReadSet(c) case None => None case Some((set', d)) =>
            match ReadWhere(d) case None => None case Some((key, ids)) => Some(Update(table, set', key, ids))
  }

  function ReadWhere(s: string): Option<(string, seq<string>)> {
    match Skip(" WHERE ", s) case None => None case Some(a) =>
      match ReadName(a) case None => None case Some((key, b)) =>
        match Skip(" IN (", b) case None => None case Some(c) =>
          match ReadIds(c) case None => None case Some((ids, end)) => if end == ");" then Some((key, ids)) else None
  }

  // ----- reading undoes printing -----

  lemma Skips(part: string, rest: string)
    ensures Skip(part, part + rest) == Some(rest)
  {
  }

  predicate Ends(rest: string, kind: char -> bool) { rest == "" || !kind(rest[0]) }

  lemma {:induction false} SpanReads(run: string, rest: string, kind: char -> bool)
    requires (forall i :: 0 <= i < |run| ==> kind(run[i])) && Ends(rest, kind)
    ensures Span(run + rest, kind) == (run, rest)
  {
    if run == "" {
      assert run + rest == rest;
    } else {
      assert run + rest == [run[0]] + (run[1..] + rest);
      SpanReads(run[1..], rest, kind);
      assert run == [run[0]] + run[1..];
    }
  }

  lemma NameReads(name: string, rest: string)
    requires IsName(name) && Ends(rest, NameChar)
    ensures ReadName(name + rest) == Some((name, rest))
  {
    SpanReads(name, rest, NameChar);
  }

  lemma NumberReads(n: nat, rest: string)
    requires Ends(rest, IsDigit)
    ensures ReadNumber(NatStr(n) + rest) == Some((n, rest))
  {
    NatStrParses(n);
    SpanReads(NatStr(n), rest, IsDigit);
  }

  lemma NoNumber(s: string)
    requires Ends(s, IsDigit)
    ensures ReadNumber(s) == None
  {
  }

  lemma ReplaceReads(column: string, old': string, new': string, rest: string)
    requires IsName(column)
    ensures ReadReplace(PrintValue(Replace(column, old', new')) + rest) == Some((Replace(column, old', new'), rest))
  {
    var f := ")" + rest;
    var d := ", " + (Literal(new') + f);
    var b := ", " + (Literal(old') + d);
    assert PrintValue(Replace(column, old', new')) + rest == "replace(" + (column + b);
    Skips("replace(", column + b);
    NameReads(column, b);
    Skips(", ", Literal(old') + d);
    LiteralReads(old', d);
    Skips(", ", Literal(new') + f);
    LiteralReads(new', f);
    Skips(")", rest);
  }

  /** A value ends where something that is no digit follows. */
  lemma ValueReads(v: Value, rest: string)
    requires Ends(rest, IsDigit) && (v.Replace? ==> IsName(v.column))
    ensures ReadValue(PrintValue(v) + rest) == Some((v, rest))
  {
    match v
    case Number(n) => NumberReads(n, rest);
    case Null =>
      NoNumber("NULL" + rest);
      Skips("NULL", rest);
    case Replace(column, old', new') =>
      var s := PrintValue(v) + rest;
      assert s[0] == 'r';
      NoNumber(s);
      ReplaceReads(column, old', new', rest);
  }

  lemma AssignmentReads(a: Assignment, rest: string)
    requires IsName(a.column) && Ends(rest, IsDigit) && (a.value.Replace? ==> IsName(a.value.column))
    ensures ReadAssignment(a.column + (" = " + PrintValue(a.value)) + rest) == Some((a, rest))
  {
    var b := PrintValue(a.value) + rest;
    assert a.column + (" = " + PrintValue(a.value)) + rest == a.column + (" = " + b);
    NameReads(a.column, " = " + b);
    Skips(" = ", b);
    ValueReads(a.value, rest);
  }

  /** What follows the assignments neither continues a number nor them. */
  predicate EndsSet(rest: string) { Ends(rest, IsDigit) && !(", " <= rest) }

  predicate Named(a: Assignment) { IsName(a.column) && (a.value.Replace? ==> IsName(a.value.column)) }

  lemma LastSetReads(a: Assignment, rest: string)
    requires Named(a) && EndsSet(rest)
    ensures ReadSet(a.column + (" = " + PrintValue(a.value)) + rest) == Some(([a], rest))
  {
    AssignmentReads(a, rest);
  }

  lemma NextSetReads(a: Assignment, next: string, more: seq<Assignment>, rest: string)
    requires Named(a) && ReadSet(next) == Some((more, rest))
    ensures ReadSet(a.column + (" = " + PrintValue(a.value)) + (", " + next)) == Some(([a] + more, rest))
  {
    AssignmentReads(a, ", " + next);
    Skips(", ", next);
  }

  lemma Regroup(first: string, next: string, rest: string)
    ensures first + (", " + next) + rest == first + (", " + (next + rest))
  {
  }

  lemma {:induction false} SetReads(set': seq<Assignment>, rest: string)
    requires set' != [] && EndsSet(rest) && forall a :: a in set' ==> Named(a)
    ensures ReadSet(PrintSet(set') + rest) == Some((set', rest))
  {
    var a, more := set'[0], set'[1..];
    assert a in set' && set' == [a] + more && forall b :: b in more ==> b in set';
    if more == [] {
      LastSetReads(a, rest);
      assert set' == [a];
    } else {
      SetReads(more, rest);
      NextSetReads(a, PrintSet(more) + rest, more, rest);
      Regroup(a.column + (" = " + PrintValue(a.value)), PrintSet(more), rest);
    }
  }

  lemma WhereReads(key: string, ids: seq<string>)
    requires IsName(key) && ids != []
    ensures ReadWhere(" WHERE " + (key + (" IN (" + (IdList(ids) + ");")))) == Some((key, ids))
  {
    var c := IdList(ids) + ");";
    Skips(" WHERE ", key + (" IN (" + c));
    NameReads(key, " IN (" + c);
    Skips(" IN (", c);
    IdsRead(ids, ");");
  }

  /** A printed update reads back, whatever quotes its texts and ids hold. */
  lemma UpdateReads(u: Update)
    requires WellFormed(u)
    ensures Read(Print(u)) == Some(u)
  {
    var d := " WHERE " + (u.key + (" IN (" + (IdList(u.ids) + ");")));
    var c := PrintSet(u.set') + d;
    assert Print(u) == "UPDATE " + (u.table + (" SET " + c));
    Skips("UPDATE ", u.table + (" SET " + c));
    NameReads(u.table, " SET " + c);
    Skips(" SET ", c);
    SetReads(u.set', d);
    WhereReads(u.key, u.ids);
  }

  // ----- the reversal statement -----

  /** The text the run book emits, word by word. */
  function Statement(suffix: string, ids: seq<string>): string
    requires ids != []
  {
    "UPDATE " + ("memories" + (" SET " + (SetClause(suffix) + (" WHERE " + ("id" + (" IN (" + (IdList(ids) + ");")))))))
  }

  function SetClause(suffix: string): string {
    "archived" + (" = " + "0") + (", " + ("superseded_by" + (" = " + "NULL") + (", " + ContentClause(suffix))))
  }

  function ContentClause(suffix: string): string {
    "content" + (" = " + ("replace(" + ("content" + (", " + (Literal(suffix) + (", " + ("''" + ")")))))))
  }

  /** What it is to say. */
  function Reversal(suffix: string, ids: seq<string>): Update {
    Update("memories",
           [Assignment("archived", Number(0)), Assignment("superseded_by", Null),
            Assignment("content", Replace("content", suffix, ""))],
           "id", ids)
  }

  lemma PrintsTwo(a: Assignment, more: seq<Assignment>)
    requires more != []
    ensures PrintSet([a] + more) == a.column + (" = " + PrintValue(a.value)) + (", " + PrintSet(more))
  {
    assert ([a] + more)[1..] == more;
  }

  lemma ReversalSet(suffix: string)
    ensures PrintSet(Reversal(suffix, []).set') == SetClause(suffix)
  {
    var a, b := Assignment("archived", Number(0)), Assignment("superseded_by", Null);
    var c := Assignment("content", Replace("content", suffix, ""));
    PrintsTwo(b, [c]);
    PrintsTwo(a, [b] + [c]);
    assert Reversal(suffix, []).set' == [a] + ([b] + [c]);
    Nothing();
  }

  lemma Nothing()
    ensures Literal("") == "''" && NatStr(0) == "0"
  {
  }

  lemma ReversalIsPrinted(suffix: string, ids: seq<string>)
    requires ids != []
    ensures Statement(suffix, ids) == Print(Reversal(suffix, ids))
  {
    ReversalSet(suffix);
    assert Reversal(suffix, ids).set' == Reversal(suffix, []).set';
  }

  lemma ReversalIsWellFormed(suffix: string, ids: seq<string>)
    requires ids != []
    ensures WellFormed(Reversal(suffix, ids))
  {
    assert IsName("memories") && IsName("archived") && IsName("superseded_by") && IsName("content") && IsName("id");
  }

  /** The emitted statement sets the three columns, with the suffix and for the ids it was made
      for, whatever quotes they hold; and says nothing else. */
  lemma StatementReads(suffix: string, ids: seq<string>)
    requires ids != []
    ensures Read(Statement(suffix, ids)) == Some(Reversal(suffix, ids))
  {
    ReversalIsPrinted(suffix, ids);
    ReversalIsWellFormed(suffix, ids);
    UpdateReads(Reversal(suffix, ids));
  }
}
