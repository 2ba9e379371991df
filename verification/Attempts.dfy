/** Which attempt each recorded usage row belongs to, as scripts/measure_cache_burn.py works
    it out from the `attempt_start` events. */
module Attempts {
  import opened PyText

  /** An `attempt_start` row; `number` is `None` where its text names no attempt. */
  datatype Start = Start(owner: string, ts: int, number: Option<int>)

  datatype Boundary = Boundary(ts: int, number: int)

  datatype Usage = Usage(owner: string, ts: int, cacheCreation: int)

  type Key = (string, int)

  /** One owner's boundaries, in the order the rows arrive. */
  function BoundariesOf(starts: seq<Start>, owner: string): seq<Boundary> {
    if starts == [] then []
    else
      var s := starts[|starts| - 1];
      BoundariesOf(starts[..|starts| - 1], owner)
      + (if s.owner == owner && s.number.Some? then [Boundary(s.ts, s.number.value)] else [])
  }

  ghost predicate Ordered(bounds: seq<Boundary>) {
    forall i, j :: 0 <= i < j < |bounds| ==> bounds[i].ts <= bounds[j].ts
  }

  /** The boundary a row at `ts` falls under: the last one not after it. */
  ghost predicate FallsUnder(bounds: seq<Boundary>, ts: int, i: int) {
    0 <= i < |bounds| && bounds[i].ts <= ts && forall j :: i < j < |bounds| ==> bounds[j].ts > ts
  }

  /** The boundary walk finds that boundary, and finds none only for a row before them all. */
  method AttemptAt(bounds: seq<Boundary>, ts: int) returns (number: Option<int>)
    requires Ordered(bounds)
    ensures Numbers(bounds, ts, number)
  {
    number := None;
    var k := 0;
    while k < |bounds|
      invariant 0 <= k <= |bounds|
      invariant forall j :: 0 <= j < k ==> bounds[j].ts <= ts
      invariant number == if k == 0 then None else Some(bounds[k - 1].number)
    {
      if ts >= bounds[k].ts {
        number := Some(bounds[k].number);
      } else {
        break;
      }
      k := k + 1;
    }
    if k > 0 { assert FallsUnder(bounds, ts, k - 1); }
  }

  ghost predicate Belongs(starts: seq<Start>, u: Usage, key: Key) {
    u.owner == key.0 && exists i :: NumberedUnder(BoundariesOf(starts, u.owner), u.ts, i, key.1)
  }

  ghost predicate NumberedUnder(bounds: seq<Boundary>, ts: int, i: int, number: int) {
    FallsUnder(bounds, ts, i) && bounds[i].number == number
  }

  /** The growth figures of the rows that belong to a key, in order. */
  ghost function GrowthOf(starts: seq<Start>, usage: seq<Usage>, key: Key): seq<int> {
    if usage == [] then []
    else
      var u := usage[|usage| - 1];
      GrowthOf(starts, usage[..|usage| - 1], key) + (if Belongs(starts, u, key) then [u.cacheCreation] else [])
  }

  /** A row belongs to at most one attempt, and to none exactly when it comes before every
      boundary of its owner. */
  lemma BelongsOnce(starts: seq<Start>, u: Usage)
    requires Ordered(BoundariesOf(starts, u.owner))
    ensures forall k1, k2 :: Belongs(starts, u, k1) && Belongs(starts, u, k2) ==> k1 == k2
    ensures (exists k :: Belongs(starts, u, k)) <==> exists b :: b in BoundariesOf(starts, u.owner) && b.ts <= u.ts
  {
    var bounds := BoundariesOf(starts, u.owner);
    UnderOnce(bounds, u.ts);
    if b :| b in bounds && b.ts <= u.ts {
      var i := LastUnder(bounds, u.ts, |bounds|);
      assert NumberedUnder(bounds, u.ts, i, bounds[i].number);
      assert Belongs(starts, u, (u.owner, bounds[i].number));
    }
    forall k | Belongs(starts, u, k) ensures exists b :: b in bounds && b.ts <= u.ts {
      var i :| NumberedUnder(bounds, u.ts, i, k.1);
      assert bounds[i] in bounds;
    }
  }

  lemma UnderOnce(bounds: seq<Boundary>, ts: int)
    ensures forall i, j :: FallsUnder(bounds, ts, i) && FallsUnder(bounds, ts, j) ==> i == j
  {
  }

  lemma {:induction false} LastUnder(bounds: seq<Boundary>, ts: int, n: nat) returns (i: nat)
    requires n <= |bounds| && (exists b :: b in bounds[..n] && b.ts <= ts)
    requires forall j :: n <= j < |bounds| ==> bounds[j].ts > ts
    ensures FallsUnder(bounds, ts, i)
  {
    if bounds[n - 1].ts <= ts {
      i := n - 1;
    } else {
      i := LastUnder(bounds, ts, n - 1);
    }
  }

  /** `table` lists, under each owner, the boundaries of that owner. */
  ghost predicate Tabled(table: map<string, seq<Boundary>>, starts: seq<Start>) {
    forall owner :: (if owner in table then table[owner] else []) == BoundariesOf(starts, owner)
  }

  function Noted(table: map<string, seq<Boundary>>, s: Start): map<string, seq<Boundary>> {
    if s.number.None? then table
    else table[s.owner := (if s.owner in table then table[s.owner] else []) + [Boundary(s.ts, s.number.value)]]
  }

  lemma NoteStep(table: map<string, seq<Boundary>>, starts: seq<Start>, s: Start)
    requires Tabled(table, starts)
    ensures Tabled(Noted(table, s), starts + [s])
  {
    assert (starts + [s])[..|starts|] == starts;
  }

  method BoundaryTable(starts: seq<Start>) returns (table: map<string, seq<Boundary>>)
    ensures Tabled(table, starts)
  {
    table := map[];
    for i := 0 to |starts|
      invariant Tabled(table, starts[..i])
    {
      assert starts[..i + 1] == starts[..i] + [starts[i]];
      NoteStep(table, starts[..i], starts[i]);
      var s := starts[i];
      if s.number.Some? {
        var bounds := if s.owner in table then table[s.owner] else [];
        table := table[s.owner := bounds + [Boundary(s.ts, s.number.value)]];
      }
    }
    assert starts[..|starts|] == starts;
  }

  ghost predicate Numbers(bounds: seq<Boundary>, ts: int, number: Option<int>) {
    && (number.Some? <==> exists i :: FallsUnder(bounds, ts, i))
    && (forall i :: FallsUnder(bounds, ts, i) ==> number == Some(bounds[i].number))
  }

  lemma BelongsAt(starts: seq<Start>, u: Usage, number: Option<int>, key: Key)
    requires Numbers(BoundariesOf(starts, u.owner), u.ts, number)
    ensures Belongs(starts, u, key) <==> number.Some? && key == (u.owner, number.value)
  {
    if number.Some? {
      var i :| FallsUnder(BoundariesOf(starts, u.owner), u.ts, i);
      assert NumberedUnder(BoundariesOf(starts, u.owner), u.ts, i, number.value);
    }
  }

  /** `out` lists, under each attempt, the rows that belong to it, and lists no other. */
  ghost predicate Grouped(out: map<Key, seq<int>>, starts: seq<Start>, usage: seq<Usage>) {
    forall key :: (if key in out then out[key] else []) == GrowthOf(starts, usage, key)
      && (key in out ==> out[key] != [])
  }

  function Filed(out: map<Key, seq<int>>, u: Usage, number: Option<int>): map<Key, seq<int>> {
    if number.None? then out
    else
      var key := (u.owner, number.value);
      out[key := (if key in out then out[key] else []) + [u.cacheCreation]]
  }

  lemma GroupStep(out: map<Key, seq<int>>, starts: seq<Start>, usage: seq<Usage>, u: Usage, number: Option<int>)
    requires Grouped(out, starts, usage) && Numbers(BoundariesOf(starts, u.owner), u.ts, number)
    ensures Grouped(Filed(out, u, number), starts, usage + [u])
  {
    assert (usage + [u])[..|usage|] == usage;
    forall key ensures Belongs(starts, u, key) <==> number.Some? && key == (u.owner, number.value) {
      BelongsAt(starts, u, number, key);
    }
  }

  /** Every attributable row lands under its own attempt, in order, and nowhere else. */
  method UsageByAttempt(starts: seq<Start>, usage: seq<Usage>) returns (out: map<Key, seq<int>>)
    requires forall owner :: Ordered(BoundariesOf(starts, owner))
    ensures Grouped(out, starts, usage)
  {
    var table := BoundaryTable(starts);
    out := map[];
    for i := 0 to |usage|
      invariant Grouped(out, starts, usage[..i])
    {
      assert usage[..i + 1] == usage[..i] + [usage[i]];
      var u := usage[i];
      var number := AttemptAt(if u.owner in table then table[u.owner] else [], u.ts);
      GroupStep(out, starts, usage[..i], u, number);
      if number.None? { continue; }
      var key := (u.owner, number.value);
      out := out[key := (if key in out then out[key] else []) + [u.cacheCreation]];
    }
    assert usage[..|usage|] == usage;
  }

  // ----- what a row belongs to -----

  /** The start at `i` names an attempt of the owner, and no later one of that owner is early
      enough for the time. */
  ghost predicate Opens(starts: seq<Start>, owner: string, ts: int, i: nat) {
    && i < |starts| && starts[i].owner == owner && starts[i].number.Some? && starts[i].ts <= ts
    && forall j :: i < j < |starts| && starts[j].owner == owner && starts[j].number.Some? ==> starts[j].ts > ts
  }

  /** It opens that attempt. */
  ghost predicate OpensAs(starts: seq<Start>, owner: string, ts: int, i: nat, number: int) {
    Opens(starts, owner, ts, i) && starts[i].number == Some(number)
  }

  ghost predicate Opened(starts: seq<Start>, owner: string, ts: int, number: int) {
    exists i :: OpensAs(starts, owner, ts, i, number)
  }

  ghost predicate Under(bounds: seq<Boundary>, ts: int, number: int) {
    exists i :: NumberedUnder(bounds, ts, i, number)
  }

  lemma {:induction false} UnderIff(starts: seq<Start>, owner: string, ts: int, number: int)
    ensures Under(BoundariesOf(starts, owner), ts, number) <==> Opened(starts, owner, ts, number)
  {
    if starts == [] {
      assert BoundariesOf(starts, owner) == [];
    } else {
      var n := |starts| - 1;
      UnderIff(starts[..n], owner, ts, number);
      UnderStep(BoundariesOf(starts[..n], owner), BoundariesOf(starts, owner), starts[n], owner, ts, number);
      OpensStep(starts, owner, ts, number);
    }
  }

  /** The start counts for the owner. */
  predicate Names(s: Start, owner: string) { s.owner == owner && s.number.Some? }

  lemma LaterBoundary(front: seq<Boundary>, b: Boundary, ts: int, i: int)
    requires b.ts > ts
    ensures FallsUnder(front + [b], ts, i) <==> FallsUnder(front, ts, i)
  {
    var bounds := front + [b];
    assert bounds[|front|] == b && forall j :: 0 <= j < |front| ==> bounds[j] == front[j];
  }

  lemma UnderStep(front: seq<Boundary>, bounds: seq<Boundary>, s: Start, owner: string, ts: int, number: int)
    requires bounds == front + if Names(s, owner) then [Boundary(s.ts, s.number.value)] else []
    ensures Under(bounds, ts, number)
            <==> if Names(s, owner) && s.ts <= ts then s.number == Some(number) else Under(front, ts, number)
  {
    if Names(s, owner) {
      if s.ts <= ts {
        assert bounds[|front|] == Boundary(s.ts, s.number.value) && FallsUnder(bounds, ts, |front|);
        UnderOnce(bounds, ts);
        assert s.number == Some(number) ==> NumberedUnder(bounds, ts, |front|, number);
      } else {
        forall i ensures NumberedUnder(bounds, ts, i, number) <==> NumberedUnder(front, ts, i, number) {
          LaterBoundary(front, Boundary(s.ts, s.number.value), ts, i);
        }
      }
    } else {
      assert bounds == front;
    }
  }

  lemma OpensStep(starts: seq<Start>, owner: string, ts: int, number: int)
    requires starts != []
    ensures var n := |starts| - 1;
            Opened(starts, owner, ts, number)
            <==> if Names(starts[n], owner) && starts[n].ts <= ts then starts[n].number == Some(number)
                 else Opened(starts[..n], owner, ts, number)
  {
    var n := |starts| - 1;
    if Names(starts[n], owner) && starts[n].ts <= ts {
      assert Opens(starts, owner, ts, n);
      assert starts[n].number == Some(number) ==> OpensAs(starts, owner, ts, n, number);
    } else {
      forall i: nat ensures OpensAs(starts, owner, ts, i, number) <==> OpensAs(starts[..n], owner, ts, i, number) {}
    }
  }

  /** A usage row counts for the attempt that the last of its owner's numbered starts not after
      it opens, with its own figure and after the rows before it. */
  lemma FiledUnder(starts: seq<Start>, usage: seq<Usage>, u: Usage, key: Key)
    ensures GrowthOf(starts, usage + [u], key)
            == GrowthOf(starts, usage, key)
               + if u.owner == key.0 && Opened(starts, u.owner, u.ts, key.1) then [u.cacheCreation] else []
  {
    assert (usage + [u])[..|usage|] == usage;
    UnderIff(starts, u.owner, u.ts, key.1);
    assert Belongs(starts, u, key) <==> u.owner == key.0 && Under(BoundariesOf(starts, u.owner), u.ts, key.1);
  }
}
