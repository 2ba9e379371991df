/** Which rows an archive run takes: the oldest, and as many as the limit allows. */
module ArchiveLaws {
  import opened Archive
  import opened Order
  import opened PyText

  // ----- text order -----

  /** The first text is the start of the second, or smaller where they first differ. */
  ghost predicate TextBefore(a: string, b: string) { a < b || exists k: nat :: DiffersAt(a, b, k) && a[k] < b[k] }

  lemma TextOrderIs(a: string, b: string)
    ensures TextLe(a, b) <==> a == b || TextBefore(a, b)
  {
    SeqOrderIs(a, b, CharRank);
    assert SeqBefore(a, b, CharRank) <==> TextBefore(a, b);
  }

  // ----- the archived rows -----

  /** What a run writes: of the rows it is given, those whose flag is 0 are flagged 1 and get
      the reason, if there is one, at the end of their content; nothing else changes. */
  lemma RowsAfter(rows: Table, ids: seq<string>, reason: string, id: string)
    requires id in rows
    ensures var after := AfterRun(rows, ids, Appended(reason));
      && after.Keys == rows.Keys
      && (!(id in ids && rows[id].archived == Some(0)) ==> after[id] == rows[id])
      && (id in ids && rows[id].archived == Some(0) ==>
            after[id] == rows[id].(archived := Some(1), content := after[id].content)
            && after[id].content
               == rows[id].content + if reason == "" then "" else "\n\n[archived: " + reason + "]")
  {
    var after := AfterRun(rows, ids, Appended(reason));
    assert after.Keys == rows.Keys;
    assert rows[id].content + "" == rows[id].content;
  }

  // ----- the targets -----

  /** The row's creation time as text, empty without one. */
  function CreatedText(rows: Table, id: string): string
    requires id in rows
  { match rows[id].created case None => "" case Some(text) => text }

  /** Older by creation time, and by id where they are the same. */
  ghost predicate Older(rows: Table, a: string, b: string) {
    && a in rows && b in rows
    && (TextBefore(CreatedText(rows, a), CreatedText(rows, b))
        || (CreatedText(rows, a) == CreatedText(rows, b) && TextBefore(a, b)))
  }

  lemma KeysAreOlder(rows: Table, a: string, b: string)
    requires a in rows && b in rows && a != b
    ensures KeyLe(KeyOf(rows, a), KeyOf(rows, b)) <==> Older(rows, a, b)
  {
    TextOrderIs(CreatedText(rows, a), CreatedText(rows, b));
    TextOrderIs(a, b);
    forall k: nat | DiffersAt(a, a, k) ensures !(a[k] < a[k]) {}
    var c := CreatedText(rows, a);
    forall k: nat | DiffersAt(c, c, k) ensures !(c[k] < c[k]) {}
  }

  function Taken(rows: Table, templated: Row -> bool, listed: seq<string>, limit: int): seq<string>
    requires forall id :: id in listed ==> id in rows
  { Ids(Take(Sort(Matched(rows, templated, listed), KeyLe), limit)) }

  /** A row that may be archived: not confirmed, neither quarantined nor paused, not archived
      yet, and of the templated class. */
  predicate MayGo(rows: Table, templated: Row -> bool, id: string) {
    && id in rows && templated(rows[id]) && !rows[id].confirmed && !rows[id].hidden
    && (rows[id].archived == None || rows[id].archived == Some(0))
  }

  /** How many a limit lets through, a negative one counting from the end. */
  function Allowed(limit: int, n: nat): nat {
    if limit >= n then n else if limit >= 0 then limit else if n + limit > 0 then n + limit else 0
  }

  lemma SortedKeys(rows: Table, templated: Row -> bool, listed: seq<string>)
    requires ListsRows(rows, listed)
    ensures var keys := Sort(Matched(rows, templated, listed), KeyLe);
      && SortedBy(keys, KeyLe) && Distinct(keys) && Distinct(Ids(keys))
      && (forall k :: k in keys ==> MayGo(rows, templated, k.id) && k == KeyOf(rows, k.id))
      && (forall id :: MayGo(rows, templated, id) ==> KeyOf(rows, id) in keys)
  {
    var matched := Matched(rows, templated, listed);
    MatchedKeys(rows, templated, listed);
    KeyOrder();
    SortSorts(matched, KeyLe);
    SortKeeps(matched, KeyLe);
    SameCounts(matched, Sort(matched, KeyLe));
    SameMembers(Sort(matched, KeyLe), matched);
    KeysById(rows, Sort(matched, KeyLe));
    forall id | MayGo(rows, templated, id) ensures KeyOf(rows, id) in matched {
      assert KeyOf(rows, id).id == id && id in listed && Target(rows, templated, id);
    }
  }

  lemma TakenKeys(rows: Table, templated: Row -> bool, listed: seq<string>, limit: int, k: nat)
    requires ListsRows(rows, listed)
    ensures var keys := Sort(Matched(rows, templated, listed), KeyLe);
      var ids := Taken(rows, templated, listed, limit);
      && |ids| == Allowed(limit, |keys|) && forall i :: 0 <= i < |ids| ==> ids[i] == keys[i].id
  {
  }

  /** A run takes rows that may go, each once and oldest first; every row that may go and is
      not taken is younger than every one that is; and as many are taken as the limit lets
      through. */
  lemma OldestTaken(rows: Table, templated: Row -> bool, listed: seq<string>, limit: int)
    requires ListsRows(rows, listed)
    ensures var ids := Taken(rows, templated, listed, limit);
      && Distinct(ids) && (forall id :: id in ids ==> MayGo(rows, templated, id))
      && (forall i, j :: 0 <= i < j < |ids| ==> Older(rows, ids[i], ids[j]))
      && (forall id, left :: id in ids && MayGo(rows, templated, left) && left !in ids ==> Older(rows, id, left))
  {
    var keys, ids := Sort(Matched(rows, templated, listed), KeyLe), Taken(rows, templated, listed, limit);
    SortedKeys(rows, templated, listed);
    TakenKeys(rows, templated, listed, limit, 0);
    forall i, j | 0 <= i < j < |keys| ensures keys[i].id != keys[j].id && Older(rows, keys[i].id, keys[j].id) {
      assert keys[i] in keys && keys[j] in keys && Ids(keys)[i] != Ids(keys)[j] && KeyLe(keys[i], keys[j]);
      KeysAreOlder(rows, keys[i].id, keys[j].id);
    }
    forall i | 0 <= i < |ids| ensures MayGo(rows, templated, ids[i]) { assert keys[i] in keys; }
    forall id, left | id in ids && MayGo(rows, templated, left) && left !in ids ensures Older(rows, id, left) {
      var i :| 0 <= i < |ids| && ids[i] == id;
      var j :| 0 <= j < |keys| && keys[j] == KeyOf(rows, left);
      assert j >= |ids|;
    }
  }

  /** How many are taken. */
  lemma HowManyTaken(rows: Table, templated: Row -> bool, listed: seq<string>, limit: int)
    requires ListsRows(rows, listed)
    ensures |Taken(rows, templated, listed, limit)|
            == Allowed(limit, |set id | id in rows && MayGo(rows, templated, id)|)
  {
    var keys := Sort(Matched(rows, templated, listed), KeyLe);
    SortedKeys(rows, templated, listed);
    TakenKeys(rows, templated, listed, limit, 0);
    SetSize(Ids(keys));
    forall id ensures id in Ids(keys) <==> MayGo(rows, templated, id) {
      if id in Ids(keys) {
        var i :| 0 <= i < |keys| && Ids(keys)[i] == id;
        assert keys[i] in keys;
      }
      if MayGo(rows, templated, id) {
        var j :| 0 <= j < |keys| && keys[j] == KeyOf(rows, id);
        assert Ids(keys)[j] == id;
      }
    }
    assert (set x | x in Ids(keys)) == set id | id in rows && MayGo(rows, templated, id);
  }
}
