/** What the event reader of scripts/navigation_value.py makes of single events: which ones cut
    a window, which add a call to it, which leave it alone, and what the sizes are. */
module WindowLaws {
  import opened PyText
  import opened Corpora
  import opened Windows

  // ----- events -----

  /** An attempt starts, or the context is compacted; whoever reports it. */
  predicate Cuts(e: Event) { e.Event? && e.kind in {"attempt_start", "compaction"} }

  /** The coder uses a tool. */
  predicate Calling(e: Event) { e.Event? && e.kind == "tool_use" && e.source == "agent" && e.tool.Some? }

  /** The coder's own calls, in order. */
  function CallsMade(rows: seq<Row>, owner: string): Window {
    if rows == [] then []
    else
      var row := rows[|rows| - 1];
      CallsMade(rows[..|rows| - 1], owner) + if row.owner == owner && Calling(row.event) then [row.event.call] else []
  }

  lemma {:induction false} ProjectionAppend(a: seq<Row>, b: seq<Row>, owner: string)
    ensures Projection(a + b, owner) == Projection(a, owner) + Projection(b, owner)
  {
    if b == [] {
      assert a + b == a;
    } else {
      var front, row := b[..|b| - 1], b[|b| - 1];
      assert b == front + [row];
      ProjectionAppend(a, front, owner);
      OneMoreAfter(a, front, row, owner);
      OneMoreRow(front, row, owner);
    }
  }

  lemma {:induction false} JoinAppend(a: seq<seq<Mark>>, b: seq<seq<Mark>>, d: Mark)
    requires |a| >= 1 && |b| >= 1
    ensures Join(a + b, d) == Join(a, d) + [d] + Join(b, d)
  {
    if |a| == 1 {
      assert (a + b)[1..] == b;
    } else {
      assert (a + b)[1..] == a[1..] + b;
      JoinAppend(a[1..], b, d);
    }
  }

  lemma SplitAcross(a: seq<Mark>, b: seq<Mark>)
    ensures Split(a + [Cut] + b, Cut) == Split(a, Cut) + Split(b, Cut)
  {
    JoinAppend(Split(a, Cut), Split(b, Cut), Cut);
    SplitJoin(Split(a, Cut) + Split(b, Cut), Cut);
  }

  lemma {:induction false} NonEmptyAppend(a: seq<seq<Mark>>, b: seq<seq<Mark>>)
    ensures NonEmpty(a + b) == NonEmpty(a) + NonEmpty(b)
  {
    if b == [] {
      assert a + b == a;
    } else {
      assert (a + b)[..|a + b| - 1] == a + b[..|b| - 1];
      NonEmptyAppend(a, b[..|b| - 1]);
    }
  }

  // ----- what each kind of event does -----

  /** An attempt start or a compaction divides its owner's windows: what came before and what
      comes after are cut up apart. */
  lemma CutDivides(a: seq<Row>, x: Row, b: seq<Row>, owner: string)
    requires x.owner == owner && Cuts(x.event)
    ensures WindowsOf(a + [x] + b, owner) == WindowsOf(a, owner) + WindowsOf(b, owner)
  {
    ProjectionAppend(a + [x], b, owner);
    OneMoreRow(a, x, owner);
    var pa, pb := Projection(a, owner), Projection(b, owner);
    SplitAcross(pa, pb);
    NonEmptyAppend(Split(pa, Cut), Split(pb, Cut));
  }

  /** Any event that neither cuts nor is a call of the owner's leaves its windows as they were. */
  lemma OthersIgnored(a: seq<Row>, x: Row, b: seq<Row>, owner: string)
    requires x.owner != owner || !(Cuts(x.event) || Calling(x.event))
    ensures WindowsOf(a + [x] + b, owner) == WindowsOf(a + b, owner)
  {
    ProjectionAppend(a + [x], b, owner);
    ProjectionAppend(a, b, owner);
    OneMoreRow(a, x, owner);
    assert Projection(a, owner) + [] == Projection(a, owner);
  }

  lemma {:induction false} NoMarkCuts(rows: seq<Row>, owner: string)
    requires forall r :: r in rows && r.owner == owner ==> !Cuts(r.event)
    ensures Cut !in Projection(rows, owner) && Calls(Projection(rows, owner)) == CallsMade(rows, owner)
  {
    if rows != [] {
      var front, row := rows[..|rows| - 1], rows[|rows| - 1];
      assert row in rows && forall r :: r in front ==> r in rows;
      NoMarkCuts(front, owner);
      if row.owner == owner && MarksOf(row.event) != [] {
        CallsOfOneMore(Projection(front, owner), row.event.call);
      } else {
        assert Projection(front, owner) + [] == Projection(front, owner);
      }
    }
  }

  /** Between two cuts there is one window: every call the coder made, in order, and none if
      it made none. */
  lemma UncutIsOneWindow(rows: seq<Row>, owner: string)
    requires forall r :: r in rows && r.owner == owner ==> !Cuts(r.event)
    ensures WindowsOf(rows, owner) == if CallsMade(rows, owner) == [] then [] else [CallsMade(rows, owner)]
  {
    var ms := Projection(rows, owner);
    NoMarkCuts(rows, owner);
    SplitOfPrefixed(ms, [], Cut);
    assert ms + [] == ms && Split(ms, Cut) == [ms];
    assert NonEmpty([ms][..0]) == [];
  }

  /** Compaction between two reads of one session keeps them in different windows. */
  lemma CompactionParts(owner: string, first: Event, second: Event, compaction: Event)
    requires Calling(first) && Calling(second) && Cuts(compaction)
    ensures WindowsOf([Row(owner, first), Row(owner, compaction), Row(owner, second)], owner)
            == [[first.call], [second.call]]
  {
    var a, x, b := Row(owner, first), Row(owner, compaction), Row(owner, second);
    assert [a, x, b] == [a] + [x] + [b];
    CutDivides([a], x, [b], owner);
    OneCall(a);
    OneCall(b);
  }

  lemma OneCall(row: Row)
    requires Calling(row.event)
    ensures WindowsOf([row], row.owner) == [[row.event.call]]
  {
    var rows := [row];
    assert rows[..0] == [] && rows[0] == row && |"tool_use"| == 8;
    assert !Cuts(row.event);
    var calls := CallsMade(rows, row.owner);
    assert calls == CallsMade(rows[..0], row.owner) + [row.event.call];
    assert calls == [row.event.call];
    UncutIsOneWindow(rows, row.owner);
    assert WindowsOf(rows, row.owner) == [calls];
  }

  // ----- sizes -----

  /** A result of the coder's with a use id and a size. */
  predicate Result(e: Event, id: string) {
    e.Event? && e.kind == "tool_result" && e.source == "agent" && e.useId == Some(id) && e.chars.Some?
  }

  ghost predicate LastResult(rows: seq<Row>, id: string, i: nat) {
    && i < |rows| && Result(rows[i].event, id)
    && forall j :: i < j < |rows| ==> !Result(rows[j].event, id)
  }

  /** The size kept for a use id is that of the last result reported for it, with the mark
      whether a subagent got it; and none is kept without one. */
  lemma {:induction false} SizesAreLast(rows: seq<Row>, id: string)
    ensures id in Sizes(rows) <==> exists i: nat :: LastResult(rows, id, i)
    ensures forall i: nat :: LastResult(rows, id, i) ==>
              id in Sizes(rows) && Sizes(rows)[id] == Size(rows[i].event.chars.value, rows[i].event.subagent)
  {
    if rows != [] {
      var n := |rows| - 1;
      SizesAreLast(rows[..n], id);
      if Result(rows[n].event, id) {
        assert LastResult(rows, id, n);
      } else {
        forall i: nat ensures LastResult(rows, id, i) <==> LastResult(rows[..n], id, i) {}
      }
    }
  }

  /** The malformed events are counted, each once. */
  lemma {:induction false} MalformedAreCounted(rows: seq<Row>)
    ensures MalformedCount(rows) == |set i | 0 <= i < |rows| && rows[i].event.Malformed?|
  {
    if rows != [] {
      var n := |rows| - 1;
      var before := set i | 0 <= i < n && rows[..n][i].event.Malformed?;
      var all := set i | 0 <= i < |rows| && rows[i].event.Malformed?;
      MalformedAreCounted(rows[..n]);
      assert all == if rows[n].event.Malformed? then before + {n} else before;
    }
  }
}
