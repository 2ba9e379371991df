/** The archive run of scripts/memory_triage_runbook.py and its reversal: when replaying the
    emitted statement gives back every row. */
module Archive {
  import opened PyText
  import opened Order
  import Sql

  /** A row of the memories table. `proposed` says that its source is the proposed one,
      `hidden` that it is quarantined or paused; `rest` is every other column. A row from
      before the column has no `archived`. */
  datatype Row = Row(
    content: string, archived: Option<int>, superseded: Option<string>, created: Option<string>,
    confirmed: bool, proposed: bool, hidden: bool, rest: string)

  type Table = map<string, Row>

  // ----- archiving one row -----

  const OPENING := "\n\n[archived: "

  function SuffixOf(reason: string): string { OPENING + reason + "]" }

  /** What `archive_memory` appends. */
  function Appended(reason: string): string { if reason == "" then "" else SuffixOf(reason) }

  function Archived(r: Row, suffix: string): Row { r.(archived := Some(1), content := r.content + suffix) }

  predicate Archivable(rows: Table, id: string) { id in rows && rows[id].archived == Some(0) }

  /** The table after archiving those of the ids that can be. */
  function AfterRun(rows: Table, ids: seq<string>, suffix: string): Table {
    map id | id in rows :: if id in ids && Archivable(rows, id) then Archived(rows[id], suffix) else rows[id]
  }

  // ----- what SQL does with an update -----

  /** One assignment on one row; `None` for what the table cannot take. */
  function SetColumn(r: Row, a: Sql.Assignment): Option<Row> {
    if a.column == "archived" && a.value.Number? then Some(r.(archived := Some(a.value.n)))
    else if a.column == "superseded_by" && a.value.Null? then Some(r.(superseded := None))
    else if a.column == "content" && a.value.Replace? && a.value.column == "content" && a.value.old' != "" then
      Some(r.(content := ReplaceAll(r.content, a.value.old', a.value.new')))
    else None
  }

  function SetColumns(r: Row, set': seq<Sql.Assignment>): Option<Row>
    decreases |set'|
  {
    if set' == [] then Some(r)
    else match SetColumn(r, set'[0]) case None => None case Some(next) => SetColumns(next, set'[1..])
  }

  /** The rows whose id is named get the assignments, the others stay. */
  function RunUpdate(rows: Table, u: Sql.Update): Option<Table> {
    if u.table != "memories" || u.key != "id" then None
    else if forall id :: id in rows && id in u.ids ==> SetColumns(rows[id], u.set').Some? then
      Some(map id | id in rows :: if id in u.ids then SetColumns(rows[id], u.set').value else rows[id])
    else None
  }

  // ----- choosing the targets -----

  /** The sort key: the creation time's text, empty without one, then the id. */
  datatype Key = Key(created: string, id: string)

  predicate KeyLe(a: Key, b: Key) {
    if a.created == b.created then TextLe(a.id, b.id) else TextLe(a.created, b.created)
  }

  lemma KeyOrder()
    ensures TotalOrder(KeyLe)
  {
    TextOrder();
    forall x: Key, y: Key, z: Key | KeyLe(x, y) && KeyLe(y, z) ensures KeyLe(x, z) {}
  }

  /** Unconfirmed, not archived, and of the templated class. */
  predicate Target(rows: Table, templated: Row -> bool, id: string) {
    id in rows && !rows[id].confirmed && !rows[id].hidden && rows[id].archived in {None, Some(0)} && templated(rows[id])
  }

  function Targets(rows: Table, templated: Row -> bool): set<string> {
    set id | id in rows && Target(rows, templated, id)
  }

  function KeyOf(rows: Table, id: string): Key
    requires id in rows
  { Key(if rows[id].created.Some? then rows[id].created.value else "", id) }

  /** The targets' keys, in the order the rows are listed. */
  function Matched(rows: Table, templated: Row -> bool, listed: seq<string>): seq<Key>
    requires forall id :: id in listed ==> id in rows
  {
    if listed == [] then []
    else
      var id := listed[|listed| - 1];
      Matched(rows, templated, listed[..|listed| - 1])
      + if Target(rows, templated, id) then [KeyOf(rows, id)] else []
  }

  /** `s[:limit]`, a negative limit counting from the end. */
  function Take<T>(s: seq<T>, limit: int): seq<T> {
    var n := if limit < 0 then |s| + limit else limit;
    if n < 0 then [] else if n < |s| then s[..n] else s
  }

  function Ids(keys: seq<Key>): seq<string> {
    seq(|keys|, i requires 0 <= i < |keys| => keys[i].id)
  }

  /** Each row of the table, once. */
  ghost predicate ListsRows(rows: Table, listed: seq<string>) {
    Distinct(listed) && forall id :: id in listed <==> id in rows
  }

  lemma {:induction false} MatchedKeys(rows: Table, templated: Row -> bool, listed: seq<string>)
    requires Distinct(listed) && forall id :: id in listed ==> id in rows
    ensures var keys := Matched(rows, templated, listed);
      && Distinct(keys)
      && forall k :: k in keys <==> k.id in listed && Target(rows, templated, k.id) && k == KeyOf(rows, k.id)
  {
    if listed != [] {
      var before, id := listed[..|listed| - 1], listed[|listed| - 1];
      assert listed == before + [id] && id in listed && id !in before;
      assert forall x :: x in before ==> x in listed;
      MatchedKeys(rows, templated, before);
    }
  }

  /** Which rows a run archives, and in which order, does not depend on the order the store
      lists them in. */
  lemma TargetsReproducible(rows: Table, templated: Row -> bool, a: seq<string>, b: seq<string>, limit: int)
    requires ListsRows(rows, a) && ListsRows(rows, b)
    ensures Take(Sort(Matched(rows, templated, a), KeyLe), limit)
            == Take(Sort(Matched(rows, templated, b), KeyLe), limit)
  {
    MatchedKeys(rows, templated, a);
    MatchedKeys(rows, templated, b);
    SameElements(Matched(rows, templated, a), Matched(rows, templated, b));
    KeyOrder();
    SortIsCanonical(Matched(rows, templated, a), Matched(rows, templated, b), KeyLe);
  }

  // ----- the store -----

  class Store {
    var rows: Table

    constructor (rows: Table)
      ensures this.rows == rows
    { this.rows := rows; }

    method ArchiveMemory(id: string, reason: string) returns (ok: bool)
      modifies this
      ensures ok == Archivable(old(rows), id)
      ensures rows == if ok then old(rows)[id := Archived(old(rows)[id], Appended(reason))] else old(rows)
    {
      var suffix := Appended(reason);
      ok := id in rows && rows[id].archived == Some(0);
      if ok { rows := rows[id := Archived(rows[id], suffix)]; }
    }

    method TemplatedTargets(templated: Row -> bool, listed: seq<string>, limit: int) returns (ids: seq<string>)
      requires ListsRows(rows, listed)
      ensures ids == Ids(Take(Sort(Matched(rows, templated, listed), KeyLe), limit))
      ensures Distinct(ids) && forall id :: id in ids ==> id in Targets(rows, templated)
    {
      var keys: seq<Key> := [];
      for i := 0 to |listed|
        invariant keys == Matched(rows, templated, listed[..i])
      {
        assert listed[..i + 1][..i] == listed[..i];
        if Target(rows, templated, listed[i]) { keys := keys + [KeyOf(rows, listed[i])]; }
      }
      assert listed[..|listed|] == listed;
      ids := Ids(Take(Sort(keys, KeyLe), limit));
      TargetIds(rows, templated, listed, limit);
    }

    /** Archives the targets one by one; the ones the store refuses are listed apart. */
    method ExecuteTemplated(templated: Row -> bool, listed: seq<string>, limit: int, reason: string)
      returns (archived: seq<string>, refused: seq<string>, code: nat)
      requires ListsRows(rows, listed)
      modifies this
      ensures var ids := Ids(Take(Sort(Matched(old(rows), templated, listed), KeyLe), limit));
        && rows == AfterRun(old(rows), ids, Appended(reason))
        && (forall id :: id in archived <==> id in ids && Archivable(old(rows), id))
        && (forall id :: id in refused <==> id in ids && !Archivable(old(rows), id))
      ensures Distinct(archived) && Distinct(refused)
      ensures forall id :: id in archived + refused ==> id in Targets(old(rows), templated)
      ensures code == if refused == [] then 0 else 1
    {
      var ids := TemplatedTargets(templated, listed, limit);
      archived, refused := ArchiveEach(ids, reason);
      code := if refused == [] then 0 else 1;
    }

    method ArchiveEach(ids: seq<string>, reason: string) returns (archived: seq<string>, refused: seq<string>)
      requires Distinct(ids)
      modifies this
      ensures rows == AfterRun(old(rows), ids, Appended(reason))
      ensures forall id :: id in archived <==> id in ids && Archivable(old(rows), id)
      ensures forall id :: id in refused <==> id in ids && !Archivable(old(rows), id)
      ensures Distinct(archived) && Distinct(refused)
    {
      archived, refused := [], [];
      assert rows == AfterRun(old(rows), ids[..0], Appended(reason));
      for i := 0 to |ids|
        invariant rows == AfterRun(old(rows), ids[..i], Appended(reason))
        invariant forall id :: id in archived <==> id in ids[..i] && Archivable(old(rows), id)
        invariant forall id :: id in refused <==> id in ids[..i] && !Archivable(old(rows), id)
        invariant Distinct(archived) && Distinct(refused)
      {
        var id := ids[i];
        OneMoreArchived(old(rows), ids, i, Appended(reason));
        assert ids[..i + 1] == ids[..i] + [id];
        var ok := ArchiveMemory(id, reason);
        if ok { archived := archived + [id]; } else { refused := refused + [id]; }
      }
      assert ids[..|ids|] == ids;
    }

    /** Running the reversal statement; without ids it is a comment. */
    method RunReversal(ids: seq<string>, reason: string)
      modifies this
      ensures rows == Reversed(old(rows), ids, SuffixOf(reason))
    {
      if ids == [] {
        assert rows == Reversed(rows, ids, SuffixOf(reason));
        return;
      }
      Sql.StatementReads(SuffixOf(reason), ids);
      ReversalRestores(rows, ids, SuffixOf(reason));
      var update := Sql.Read(Sql.Statement(SuffixOf(reason), ids)).value;
      rows := RunUpdate(rows, update).value;
    }
  }

  lemma OneMoreArchived(rows: Table, ids: seq<string>, i: nat, suffix: string)
    requires Distinct(ids) && i < |ids|
    ensures var before := AfterRun(rows, ids[..i], suffix);
      && (Archivable(before, ids[i]) <==> Archivable(rows, ids[i])) && ids[i] !in ids[..i]
      && AfterRun(rows, ids[..i + 1], suffix)
         == if Archivable(rows, ids[i]) then before[ids[i] := Archived(before[ids[i]], suffix)] else before
  {
    assert ids[..i + 1] == ids[..i] + [ids[i]] && ids[i] !in ids[..i];
  }

  lemma TargetIds(rows: Table, templated: Row -> bool, listed: seq<string>, limit: int)
    requires ListsRows(rows, listed)
    ensures var ids := Ids(Take(Sort(Matched(rows, templated, listed), KeyLe), limit));
      Distinct(ids) && forall id :: id in ids ==> id in Targets(rows, templated)
  {
    var matched := Matched(rows, templated, listed);
    var sorted := Sort(matched, KeyLe);
    MatchedKeys(rows, templated, listed);
    SortKeeps(matched, KeyLe);
    SameCounts(matched, sorted);
    SameMembers(sorted, matched);
    var keys := Take(sorted, limit);
    TakeKeeps(sorted, limit);
    KeysById(rows, keys);
    forall id | id in Ids(keys) ensures id in Targets(rows, templated) {
      var i :| 0 <= i < |keys| && Ids(keys)[i] == id;
      assert keys[i] in matched;
    }
  }

  lemma TakeKeeps<T(!new)>(s: seq<T>, limit: int)
    requires Distinct(s)
    ensures Distinct(Take(s, limit)) && forall x :: x in Take(s, limit) ==> x in s
  {
    var t := Take(s, limit);
    assert forall i :: 0 <= i < |t| ==> t[i] == s[i];
  }

  lemma SameMembers<T(!new)>(a: seq<T>, b: seq<T>)
    requires multiset(a) == multiset(b)
    ensures forall x :: x in a <==> x in b
  {
    forall x ensures x in a <==> x in b {
      assert x in a <==> x in multiset(a);
      assert x in b <==> x in multiset(b);
    }
  }

  /** A key is its row's, so different keys have different ids. */
  lemma KeysById(rows: Table, keys: seq<Key>)
    requires Distinct(keys) && forall k :: k in keys ==> k.id in rows && k == KeyOf(rows, k.id)
    ensures Distinct(Ids(keys))
  {
    forall i, j | 0 <= i < j < |keys| ensures Ids(keys)[i] != Ids(keys)[j] {
      assert keys[i] in keys && keys[j] in keys;
    }
  }

  // ----- the reversal -----

  /** `archived = 0, superseded_by = NULL, content = replace(content, suffix, '')`. */
  function Restored(r: Row, suffix: string): Row
    requires suffix != ""
  { r.(archived := Some(0), superseded := None, content := ReplaceAll(r.content, suffix, "")) }

  function Reversed(rows: Table, ids: seq<string>, suffix: string): Table
    requires suffix != ""
  { map id | id in rows :: if id in ids then Restored(rows[id], suffix) else rows[id] }

  lemma SetsOneMore(r: Row, a: Sql.Assignment, more: seq<Sql.Assignment>)
    requires SetColumn(r, a).Some?
    ensures SetColumns(r, [a] + more) == SetColumns(SetColumn(r, a).value, more)
  {
    assert ([a] + more)[1..] == more;
  }

  lemma RowRestores(r: Row, suffix: string)
    requires suffix != ""
    ensures SetColumns(r, Sql.Reversal(suffix, []).set') == Some(Restored(r, suffix))
  {
    var a, b := Sql.Assignment("archived", Sql.Number(0)), Sql.Assignment("superseded_by", Sql.Null);
    var c := Sql.Assignment("content", Sql.Replace("content", suffix, ""));
    var one := r.(archived := Some(0));
    var two := one.(superseded := None);
    assert SetColumn(r, a) == Some(one) && SetColumn(one, b) == Some(two);
    assert SetColumn(two, c) == Some(Restored(r, suffix));
    assert Sql.Reversal(suffix, []).set' == [a] + ([b] + ([c] + []));
    SetsOneMore(r, a, [b] + ([c] + []));
    SetsOneMore(one, b, [c] + []);
    SetsOneMore(two, c, []);
  }

  /** What the emitted statement says is the restoration of the rows it names. */
  lemma ReversalRestores(rows: Table, ids: seq<string>, suffix: string)
    requires suffix != ""
    ensures RunUpdate(rows, Sql.Reversal(suffix, ids)) == Some(Reversed(rows, ids, suffix))
  {
    var u := Sql.Reversal(suffix, ids);
    assert u.set' == Sql.Reversal(suffix, []).set';
    forall id | id in rows ensures SetColumns(rows[id], u.set') == Some(Restored(rows[id], suffix)) {
      RowRestores(rows[id], suffix);
    }
    assert RunUpdate(rows, u).Some?;
    assert RunUpdate(rows, u).value == Reversed(rows, ids, suffix);
  }

  /** No end of the text is also its start: it cannot overlap itself. */
  ghost predicate Borderless(s: string) {
    forall k :: 0 < k < |s| ==> s[k..] != s[..|s| - k]
  }

  /** A reason on one line makes such a suffix. */
  lemma SuffixIsBorderless(reason: string)
    requires '\n' !in reason
    ensures Borderless(SuffixOf(reason))
  {
    var s := SuffixOf(reason);
    assert s[0] == '\n' && s[1] == '\n' && s[2] == '[';
    forall k | 0 < k < |s| ensures s[k..] != s[..|s| - k] {
      assert k == 1 || s[k] != '\n';
      if k == 1 {
        assert s[1..][1] == '[' && s[..|s| - 1][1] == '\n';
      } else {
        assert s[k..][0] == s[k] && s[..|s| - k][0] == '\n';
      }
    }
  }

  /** An occurrence that reaches into the copy at the end overlaps it. */
  lemma Overlap(content: string, s: string, i: nat)
    requires i < |content|
    ensures At(content + s, i, s) && |content| < i + |s|
            ==> 0 < |content| - i < |s| && s[|content| - i..] == s[..|s| - (|content| - i)]
  {
    var x, k := content + s, |content| - i;
    if At(x, i, s) && k < |s| {
      assert x[i..i + |s|] == s && x[|content|..] == s;
      assert s[k..] == x[i..i + |s|][k..] == x[|content|..i + |s|] == x[|content|..][..|s| - k];
    }
  }

  /** So before the copy, what occurs in the whole occurs in the text itself. */
  lemma Elsewhere(content: string, s: string, i: nat)
    requires Borderless(s) && i < |content|
    ensures At(content + s, i, s) ==> At(content, i, s)
  {
    Overlap(content, s, i);
    if i + |s| <= |content| { assert content[i..i + |s|] == (content + s)[i..i + |s|]; }
  }

  ghost predicate FirstAt(x: string, s: string, n: nat) { At(x, n, s) && forall j :: 0 <= j < n ==> !At(x, j, s) }

  /** Removal works from the first occurrence on. */
  lemma {:induction false} RemoveFrom(x: string, s: string, n: nat, tail: string)
    requires s != "" && FirstAt(x, s, n) && tail == x[n + |s|..]
    ensures ReplaceAll(x, s, "") == x[..n] + ReplaceAll(tail, s, "")
  {
    if n == 0 {
      StartsThere(x, s);
      assert x[..0] == "";
    } else {
      OccursLater(x, s, n);
      Reassemble(x, n, |s|, ReplaceAll(tail, s, ""));
      RemoveFrom(x[1..], s, n - 1, tail);
    }
  }

  lemma StartsThere(x: string, s: string)
    requires s != "" && At(x, 0, s)
    ensures |s| <= |x| && ReplaceAll(x, s, "") == ReplaceAll(x[|s|..], s, "")
  {
    assert x[0..|s|] == x[..|s|];
  }

  lemma Reassemble(x: string, n: nat, m: nat, rest: string)
    requires 0 < n && n + m <= |x|
    ensures [x[0]] + (x[1..][..n - 1] + rest) == x[..n] + rest
    ensures x[1..][n - 1 + m..] == x[n + m..]
  {
    assert x[..n] == [x[0]] + x[1..][..n - 1];
  }

  lemma OccursLater(x: string, s: string, n: nat)
    requires s != "" && n > 0 && FirstAt(x, s, n)
    ensures FirstAt(x[1..], s, n - 1) && |s| < |x|
    ensures ReplaceAll(x, s, "") == [x[0]] + ReplaceAll(x[1..], s, "")
  {
    var y := x[1..];
    assert !At(x, 0, s) && x[0..|s|] == x[..|s|];
    assert y[n - 1..n - 1 + |s|] == x[n..n + |s|];
    forall j | 0 <= j < n - 1 ensures !At(y, j, s) {
      assert !At(x, j + 1, s);
      if j <= |y| - |s| { assert y[j..j + |s|] == x[j + 1..j + 1 + |s|]; }
    }
  }

  lemma {:induction false} RemovingShrinks(x: string, s: string)
    requires s != ""
    ensures |ReplaceAll(x, s, "")| <= |x|
    decreases |x|
  {
    if |x| >= |s| { if s <= x { RemovingShrinks(x[|s|..], s); } else { RemovingShrinks(x[1..], s); } }
  }

  /** Removal undoes appending exactly when the text did not hold the suffix already. */
  lemma RemovalUndoesAppend(content: string, s: string)
    requires s != "" && Borderless(s)
    ensures ReplaceAll(content + s, s, "") == content <==> IndexOf(content, s, 0).None?
  {
    var x := content + s;
    IndexOfIsFirst(content, s, 0);
    assert x[|content|..|content| + |s|] == s;
    if IndexOf(content, s, 0).None? {
      forall j | 0 <= j < |content| ensures !At(x, j, s) {
        Elsewhere(content, s, j);
      }
      assert x[|content| + |s|..] == "";
      RemoveFrom(x, s, |content|, "");
    } else {
      RemovesTwo(content, s, IndexOf(content, s, 0).value);
    }
  }

  /** Where the text holds the suffix already, that copy goes as well. */
  lemma RemovesTwo(content: string, s: string, n: nat)
    requires s != "" && Borderless(s) && At(content, n, s) && forall j :: 0 <= j < n ==> !At(content, j, s)
    ensures |ReplaceAll(content + s, s, "")| < |content|
  {
    var x, after := content + s, content[n + |s|..];
    forall j | 0 <= j < n ensures !At(x, j, s) { Elsewhere(content, s, j); }
    assert x[n..n + |s|] == content[n..n + |s|];
    assert x[n + |s|..] == after + s;
    RemoveFrom(x, s, n, after + s);
    RemovesOneMore(after, s);
  }

  lemma {:induction false} RemovesOneMore(content: string, s: string)
    requires s != ""
    ensures |ReplaceAll(content + s, s, "")| <= |content|
    decreases |content|
  {
    var x := content + s;
    assert content == "" ==> x == s;
    if s <= x {
      RemovingShrinks(x[|s|..], s);
    } else {
      assert x[1..] == content[1..] + s;
      RemovesOneMore(content[1..], s);
    }
  }

  /** A row the reversal gives back as it was. */
  predicate Reversible(r: Row, suffix: string) {
    r.superseded.None? && IndexOf(r.content, suffix, 0).None?
  }

  lemma RowRestoredIff(r: Row, suffix: string)
    requires suffix != "" && Borderless(suffix) && r.archived == Some(0)
    ensures Restored(Archived(r, suffix), suffix) == r <==> Reversible(r, suffix)
  {
    RemovalUndoesAppend(r.content, suffix);
  }

  /** The reversal of a run is exact, for the whole table, if and only if no archived row was
      superseded and none held the suffix before. Rows the run did not archive keep every
      column either way. */
  lemma ReversalRestoresIff(rows: Table, ids: seq<string>, archived: seq<string>, reason: string)
    requires reason != "" && '\n' !in reason
    requires forall id :: id in archived <==> id in ids && Archivable(rows, id)
    ensures var suffix := SuffixOf(reason);
      var reversed := Reversed(AfterRun(rows, ids, Appended(reason)), archived, suffix);
      && (reversed == rows <==> forall id :: id in archived && id in rows ==> Reversible(rows[id], suffix))
      && reversed.Keys == rows.Keys && forall id :: id in rows && id !in archived ==> reversed[id] == rows[id]
  {
    var suffix := SuffixOf(reason);
    SuffixIsBorderless(reason);
    var run := AfterRun(rows, ids, suffix);
    var reversed := Reversed(run, archived, suffix);
    forall id | id in archived ensures id in rows && reversed[id] == rows[id] <==> Reversible(rows[id], suffix) {
      RowRestoredIff(rows[id], suffix);
    }
    assert reversed.Keys == rows.Keys;
    if forall id :: id in archived && id in rows ==> Reversible(rows[id], suffix) {
      forall id | id in rows ensures reversed[id] == rows[id] {}
      assert reversed == rows;
    }
  }

  /** Restoring a row in the product keeps the suffix as an audit trail; archiving it again
      and replaying the reversal then loses that trail. */
  lemma TrailLost(r: Row, reason: string)
    requires r.archived == Some(0) && reason != "" && '\n' !in reason
    ensures var suffix := SuffixOf(reason);
      var back := Archived(r, suffix).(archived := Some(0), superseded := None);
      Restored(Archived(back, suffix), suffix) != back
  {
    var suffix := SuffixOf(reason);
    var back := Archived(r, suffix).(archived := Some(0), superseded := None);
    SuffixIsBorderless(reason);
    RowRestoredIff(back, suffix);
    IndexOfIsFirst(back.content, suffix, 0);
    assert back.content[|r.content|..|r.content| + |suffix|] == suffix;
    assert At(back.content, |r.content|, suffix);
  }

  // ----- the counts -----

  predicate Live(r: Row) { r.archived in {None, Some(0)} }

  /** How many rows are in each of the seven classes; `old` says that a row was created
      before the sweep's window. */
  datatype Counts = Counts(
    total: nat, confirmedActive: nat, pending: nat, stale: nat, templated: nat, archived: nat, superseded: nat)

  function Where(rows: Table, p: Row -> bool): set<string> { set id | id in rows && p(rows[id]) }

  function ConfirmedActive(): Row -> bool { (r: Row) => r.confirmed && Live(r) }

  function Pending(): Row -> bool { (r: Row) => !r.confirmed && r.proposed && Live(r) }

  function StalePending(old': Row -> bool): Row -> bool { (r: Row) => Pending()(r) && old'(r) }

  function IsArchived(): Row -> bool { (r: Row) => r.archived == Some(1) }

  function Superseded(): Row -> bool { (r: Row) => r.superseded.Some? }

  function ClassCounts(rows: Table, templated: Row -> bool, old': Row -> bool): Counts {
    Counts(|rows|, |Where(rows, ConfirmedActive())|, |Where(rows, Pending())|, |Where(rows, StalePending(old'))|,
           |Targets(rows, templated)|, |Where(rows, IsArchived())|, |Where(rows, Superseded())|)
  }

  /** The class of a count before and after a run: the same, less the archived rows in it, or
      the archived rows more. */
  lemma SameClass(rows: Table, after: Table, gone: set<string>, p: Row -> bool)
    requires after.Keys == rows.Keys && forall id :: id in rows && id !in gone ==> after[id] == rows[id]
    requires forall id :: id in gone && id in rows ==> p(after[id]) == p(rows[id])
    ensures Where(after, p) == Where(rows, p)
  {
  }

  lemma ClassFalls(rows: Table, after: Table, gone: set<string>, p: Row -> bool)
    requires after.Keys == rows.Keys && forall id :: id in rows && id !in gone ==> after[id] == rows[id]
    requires gone <= rows.Keys && forall id :: id in gone ==> !p(after[id])
    ensures |Where(rows, p)| == |Where(after, p)| + |set id | id in gone && p(rows[id])|
  {
    var left := set id | id in gone && p(rows[id]);
    assert Where(rows, p) == Where(after, p) + left;
  }

  lemma ClassGrows(rows: Table, after: Table, gone: set<string>, p: Row -> bool)
    requires after.Keys == rows.Keys && forall id :: id in rows && id !in gone ==> after[id] == rows[id]
    requires gone <= rows.Keys && forall id :: id in gone ==> !p(rows[id]) && p(after[id])
    ensures |Where(after, p)| == |Where(rows, p)| + |gone|
  {
    assert Where(after, p) == Where(rows, p) + gone;
  }

  /** A run deletes nothing and moves exactly the rows it archived: out of the templated and
      the pending class (out of the stale ones as far as they were in it), into the archived
      one. The confirmed and the superseded classes keep their counts. */
  lemma CountsAgree(rows: Table, templated: Row -> bool, old': Row -> bool,
                    ids: seq<string>, archived: seq<string>, suffix: string)
    requires forall r :: templated(r) ==> r.proposed
    requires forall id :: id in ids ==> id in Targets(rows, templated)
    requires Distinct(archived) && forall id :: id in archived <==> id in ids && Archivable(rows, id)
    ensures var after := AfterRun(rows, ids, suffix);
      var was, now := ClassCounts(rows, templated, old'), ClassCounts(after, templated, old');
      && after.Keys == rows.Keys && now.total == was.total
      && now.confirmedActive == was.confirmedActive && now.superseded == was.superseded
      && now.pending + |archived| == was.pending && now.templated + |archived| == was.templated
      && now.stale + |Among(rows, archived, old')| == was.stale
      && now.archived == was.archived + |archived|
  {
    var after := AfterRun(rows, ids, suffix);
    var gone := set id | id in archived;
    SetSize(archived);
    assert after.Keys == rows.Keys;
    forall id | id in gone
      ensures id in rows && rows[id].archived == Some(0) && after[id] == Archived(rows[id], suffix)
      ensures id in Targets(rows, templated)
    {
    }
    CountsMove(rows, after, gone, suffix, templated, old');
    assert (set id | id in gone && old'(rows[id])) == Among(rows, archived, old');
  }

  /** The rows of a list that satisfy a test. */
  function Among(rows: Table, ids: seq<string>, p: Row -> bool): set<string> {
    set id | id in ids && id in rows && p(rows[id])
  }

  lemma CountsMove(rows: Table, after: Table, gone: set<string>, suffix: string,
                   templated: Row -> bool, old': Row -> bool)
    requires after.Keys == rows.Keys && forall id :: id in rows && id !in gone ==> after[id] == rows[id]
    requires gone <= Targets(rows, templated) && forall r :: templated(r) ==> r.proposed
    requires forall id :: id in gone ==> rows[id].archived == Some(0) && after[id] == Archived(rows[id], suffix)
    ensures var was, now := ClassCounts(rows, templated, old'), ClassCounts(after, templated, old');
      && now.total == was.total
      && now.confirmedActive == was.confirmedActive && now.superseded == was.superseded
      && now.pending + |gone| == was.pending && now.templated + |gone| == was.templated
      && now.stale + |set id | id in gone && old'(rows[id])| == was.stale
      && now.archived == was.archived + |gone|
  {
    assert |after| == |after.Keys| && |rows| == |rows.Keys|;
    SameClass(rows, after, gone, ConfirmedActive());
    SameClass(rows, after, gone, Superseded());
    ClassGrows(rows, after, gone, IsArchived());
    PendingFalls(rows, after, gone, old');
    TemplatedFall(rows, after, gone, templated);
  }

  lemma PendingFalls(rows: Table, after: Table, gone: set<string>, old': Row -> bool)
    requires after.Keys == rows.Keys && forall id :: id in rows && id !in gone ==> after[id] == rows[id]
    requires gone <= rows.Keys && forall id :: id in gone ==> Pending()(rows[id]) && after[id].archived == Some(1)
    ensures |Where(rows, Pending())| == |Where(after, Pending())| + |gone|
    ensures |Where(rows, StalePending(old'))|
            == |Where(after, StalePending(old'))| + |set id | id in gone && old'(rows[id])|
  {
    ClassFalls(rows, after, gone, Pending());
    assert (set id | id in gone && Pending()(rows[id])) == gone;
    ClassFalls(rows, after, gone, StalePending(old'));
    assert (set id | id in gone && StalePending(old')(rows[id])) == set id | id in gone && old'(rows[id]);
  }

  lemma TemplatedFall(rows: Table, after: Table, gone: set<string>, templated: Row -> bool)
    requires after.Keys == rows.Keys && forall id :: id in rows && id !in gone ==> after[id] == rows[id]
    requires gone <= Targets(rows, templated) && forall id :: id in gone ==> after[id].archived == Some(1)
    ensures |Targets(rows, templated)| == |Targets(after, templated)| + |gone|
  {
    assert Targets(rows, templated) == Targets(after, templated) + gone;
  }

  lemma {:induction false} SetSize(s: seq<string>)
    requires Distinct(s)
    ensures |set x | x in s| == |s|
  {
    if s != [] {
      var rest := s[..|s| - 1];
      assert s == rest + [s[|s| - 1]];
      SetSize(rest);
      assert s[|s| - 1] !in rest;
      assert (set x | x in s) == (set x | x in rest) + {s[|s| - 1]};
    }
  }
}
