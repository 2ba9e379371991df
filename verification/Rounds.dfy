/** The attribution of demotions to review rounds in scripts/review_round_value.py. */
module Rounds {
  import opened PyText
  import opened Order
  import opened Counting

  datatype Kind = Review | Demotion

  /** A task's event: its time, and which of the two kinds it is. */
  datatype Row = Row(ts: int, kind: Kind)

  /** `sorted()` on the pairs: by time, then by the kind's name, and `review` is a prefix of
      `review_citation_demoted`. */
  predicate RowLe(a: Row, b: Row) {
    a.ts < b.ts || (a.ts == b.ts && (a.kind == Review || b.kind == Demotion))
  }

  lemma RowOrder()
    ensures TotalOrder(RowLe)
  {
  }

  function IsReview(): Row -> bool { (r: Row) => r.kind == Review }

  function IsDemotion(): Row -> bool { (r: Row) => r.kind == Demotion }

  function ReviewBy(ts: int): Row -> bool { (r: Row) => r.kind == Review && r.ts <= ts }

  /** The round a demotion falls in: one more than the reviews no later than it. */
  function RoundOf(rows: seq<Row>, d: Row): nat { 1 + CountOf(rows, ReviewBy(d.ts)) }

  function InRound(rows: seq<Row>, r: int): Row -> bool {
    (d: Row) => d.kind == Demotion && RoundOf(rows, d) == r
  }

  /** The demotions of a round. */
  function Demoted(rows: seq<Row>, r: int): nat { CountOf(rows, InRound(rows, r)) }

  function Get(out: map<int, nat>, r: int): nat { if r in out then out[r] else 0 }

  // ----- the scan -----

  /** In the sorted order, the reviews no later than a demotion are those before it. */
  lemma ReviewsBefore(s: seq<Row>, i: nat)
    requires SortedBy(s, RowLe) && i < |s| && s[i].kind == Demotion
    ensures RoundOf(s, s[i]) == 1 + CountOf(s[..i], IsReview())
  {
    forall k | 0 <= k < i ensures s[k].ts <= s[i].ts { assert RowLe(s[k], s[i]); }
    ReviewsSplit(s, i, s[i].ts);
    forall k | i <= k < |s| ensures !(s[k].kind == Review && s[k].ts <= s[i].ts) { assert k > i ==> RowLe(s[i], s[k]); }
    NoReviews(s[i..], s[i].ts);
  }

  lemma ReviewsSplit(s: seq<Row>, i: nat, t: int)
    requires i <= |s| && forall k :: 0 <= k < i ==> s[k].ts <= t
    ensures CountOf(s, ReviewBy(t)) == CountOf(s[..i], IsReview()) + CountOf(s[i..], ReviewBy(t))
  {
    assert s == s[..i] + s[i..];
    CountAppend(s[..i], s[i..], ReviewBy(t));
    CountSame(s[..i], IsReview(), ReviewBy(t));
  }

  lemma NoReviews(s: seq<Row>, t: int)
    requires forall k :: 0 <= k < |s| ==> !(s[k].kind == Review && s[k].ts <= t)
    ensures CountOf(s, ReviewBy(t)) == 0
  {
    CountNone(s, ReviewBy(t));
  }

  lemma OneReview(s: seq<Row>, j: nat, t: int)
    requires j < |s| && s[j].kind == Review && s[j].ts <= t
    ensures CountOf(s, ReviewBy(t)) > 0
  {
    assert s == s[..j] + [s[j]] + s[j + 1..];
    CountAppend(s[..j] + [s[j]], s[j + 1..], ReviewBy(t));
    CountAppend(s[..j], [s[j]], ReviewBy(t));
  }

  /** The scan after `i` rows: the rounds it has closed are in `out`, the demotions since the
      last review wait for the next one. */
  ghost predicate Held(s: seq<Row>, i: nat, out: map<int, nat>, round: nat, pending: nat)
    requires i <= |s|
  {
    && round == 1 + CountOf(s[..i], IsReview())
    && (forall r :: r in out ==> r < round)
    && forall r :: Get(out, r) + (if r == round then pending else 0) == CountOf(s[..i], InRound(s, r))
  }

  /** A demotion waits. */
  lemma DemotionHeld(s: seq<Row>, i: nat, out: map<int, nat>, round: nat, pending: nat)
    requires SortedBy(s, RowLe) && i < |s| && s[i].kind == Demotion && Held(s, i, out, round, pending)
    ensures Held(s, i + 1, out, round, pending + 1)
  {
    assert s[..i + 1] == s[..i] + [s[i]];
    ReviewsBefore(s, i);
    CountSnoc(s[..i], s[i], IsReview());
    forall r
      ensures CountOf(s[..i + 1], InRound(s, r)) == CountOf(s[..i], InRound(s, r)) + if r == round then 1 else 0 {
      CountSnoc(s[..i], s[i], InRound(s, r));
    }
  }

  /** A review closes its round. */
  lemma ReviewHeld(s: seq<Row>, i: nat, out: map<int, nat>, round: nat, pending: nat)
    requires i < |s| && s[i].kind == Review && Held(s, i, out, round, pending)
    ensures Held(s, i + 1, if pending != 0 then out[round := pending] else out, round + 1, 0)
  {
    assert s[..i + 1] == s[..i] + [s[i]];
    CountSnoc(s[..i], s[i], IsReview());
    forall r ensures CountOf(s[..i + 1], InRound(s, r)) == CountOf(s[..i], InRound(s, r)) {
      CountSnoc(s[..i], s[i], InRound(s, r));
    }
  }

  /** The scan over the sorted rows. */
  method Scan(s: seq<Row>) returns (out: map<int, nat>)
    requires SortedBy(s, RowLe)
    ensures forall r :: Get(out, r) == Demoted(s, r)
  {
    out := map[];
    var round: nat, pending: nat := 1, 0;
    for i := 0 to |s|
      invariant Held(s, i, out, round, pending)
    {
      if s[i].kind == Demotion {
        DemotionHeld(s, i, out, round, pending);
        pending := pending + 1;
      } else {
        ReviewHeld(s, i, out, round, pending);
        if pending != 0 {
          out := out[round := Get(out, round) + pending];
          pending := 0;
        }
        round := round + 1;
      }
    }
    assert s[..|s|] == s;
    if pending != 0 { out := out[round := Get(out, round) + pending]; }
  }

  method DemotionsOf(rows: seq<Row>) returns (out: map<int, nat>)
    ensures forall r :: Get(out, r) == Demoted(rows, r)
  {
    RowOrder();
    SortSorts(rows, RowLe);
    SortKeeps(rows, RowLe);
    out := Scan(Sort(rows, RowLe));
    forall r ensures Get(out, r) == Demoted(rows, r) { DemotedPermuted(rows, Sort(rows, RowLe), r); }
  }

  /** What a round holds does not depend on the order the rows come in. */
  lemma DemotedPermuted(a: seq<Row>, b: seq<Row>, r: int)
    requires multiset(a) == multiset(b)
    ensures Demoted(a, r) == Demoted(b, r)
  {
    forall d ensures RoundOf(a, d) == RoundOf(b, d) { CountPermuted(a, b, ReviewBy(d.ts)); }
    CountSame(a, InRound(a, r), InRound(b, r));
    CountPermuted(a, b, InRound(b, r));
  }

  // ----- every task -----

  /** An event of some task; one of another kind, or that does not parse, has none. */
  datatype TaskEvent = TaskEvent(task: string, ts: int, kind: Option<Kind>)

  /** A task's reviews and demotions. */
  function RowsOf(events: seq<TaskEvent>, task: string): seq<Row> {
    if events == [] then []
    else
      var e := events[|events| - 1];
      RowsOf(events[..|events| - 1], task)
      + if e.task == task && e.kind.Some? then [Row(e.ts, e.kind.value)] else []
  }

  function GetFor(out: map<(string, int), nat>, task: string, r: int): nat {
    if (task, r) in out then out[(task, r)] else 0
  }

  method GroupByTask(events: seq<TaskEvent>) returns (perTask: map<string, seq<Row>>)
    ensures forall task :: RowsOf(events, task) == if task in perTask then perTask[task] else []
  {
    perTask := map[];
    for i := 0 to |events|
      invariant forall task :: RowsOf(events[..i], task) == if task in perTask then perTask[task] else []
    {
      assert events[..i + 1][..i] == events[..i];
      var e := events[i];
      if e.kind.Some? {
        perTask := perTask[e.task := (if e.task in perTask then perTask[e.task] else []) + [Row(e.ts, e.kind.value)]];
      }
    }
    assert events[..|events|] == events;
  }

  /** The counts of one more task, beside those of the others. */
  method AddTask(before: map<(string, int), nat>, task: string, rows: seq<Row>) returns (out: map<(string, int), nat>)
    requires forall r: int :: (task, r) !in before
    ensures forall r :: GetFor(out, task, r) == Demoted(rows, r)
    ensures forall other: string, r: int :: other != task ==>
      ((other, r) in out <==> (other, r) in before) && GetFor(out, other, r) == GetFor(before, other, r)
  {
    var counts := DemotionsOf(rows);
    var more := map r | r in counts :: (task, r) := counts[r];
    out := before + more;
    forall r ensures GetFor(out, task, r) == Demoted(rows, r) {
      assert GetFor(out, task, r) == Get(counts, r);
    }
  }

  method DemotionsByRound(events: seq<TaskEvent>) returns (out: map<(string, int), nat>)
    ensures forall task, r :: GetFor(out, task, r) == Demoted(RowsOf(events, task), r)
  {
    var perTask := GroupByTask(events);
    out := map[];
    var todo := perTask.Keys;
    while todo != {}
      invariant todo <= perTask.Keys
      invariant forall task: string, r: int :: (task, r) in out ==> task in perTask && task !in todo
      invariant forall task, r :: task in perTask && task !in todo ==> GetFor(out, task, r) == Demoted(perTask[task], r)
    {
      var task :| task in todo;
      todo := todo - {task};
      out := AddTask(out, task, perTask[task]);
    }
    forall task, r | task !in perTask ensures Demoted(RowsOf(events, task), r) == 0 {}
  }

  /** What a task's rows are: its own reviews and demotions, whatever else is recorded. */
  lemma {:induction false} OwnRows(a: seq<TaskEvent>, e: TaskEvent, b: seq<TaskEvent>, task: string)
    ensures e.task != task || e.kind.None? ==> RowsOf(a + [e] + b, task) == RowsOf(a + b, task)
    ensures e.task == task && e.kind.Some? ==>
      RowsOf(a + [e] + b, task) == RowsOf(a, task) + [Row(e.ts, e.kind.value)] + RowsOf(b, task)
  {
    if b == [] {
      assert a + [e] + b == a + [e] && a + b == a && (a + [e])[..|a|] == a;
    } else {
      var front, last := b[..|b| - 1], b[|b| - 1];
      OwnRows(a, e, front, task);
      assert (a + [e] + b)[..|a + [e] + b| - 1] == a + [e] + front && (a + b)[..|a + b| - 1] == a + front;
    }
  }

  // ----- the order of emission -----

  /** A demotion's two rounds: as the scan has it, and as the events were emitted. */
  datatype Attribution = Attribution(scanned: nat, emitted: nat)

  /** The attributions of the demotions among the first `n` events. */
  ghost function Attributions(events: seq<Row>, n: nat): seq<Attribution>
    requires n <= |events|
  {
    if n == 0 then []
    else
      Attributions(events, n - 1)
      + if events[n - 1].kind == Demotion
        then [Attribution(RoundOf(events, events[n - 1]), 1 + CountOf(events[..n - 1], IsReview()))] else []
  }

  function Scanned(): Attribution -> int { (a: Attribution) => a.scanned }

  function Emitted(): Attribution -> int { (a: Attribution) => a.emitted }

  /** The demotions emitted after exactly `r - 1` reviews. */
  ghost function EmittedIn(events: seq<Row>, r: int): nat {
    CountOf(Attributions(events, |events|), Is(Emitted(), r))
  }

  lemma {:induction false} ScannedIs(events: seq<Row>, n: nat, r: int)
    requires n <= |events|
    ensures CountOf(Attributions(events, n), Is(Scanned(), r)) == CountOf(events[..n], InRound(events, r))
    ensures |Attributions(events, n)| == CountOf(events[..n], IsDemotion())
  {
    if n > 0 {
      ScannedIs(events, n - 1, r);
      var before, e := Attributions(events, n - 1), events[n - 1];
      assert events[..n] == events[..n - 1] + [e];
      CountSnoc(events[..n - 1], e, InRound(events, r));
      CountSnoc(events[..n - 1], e, IsDemotion());
      if e.kind == Demotion {
        var a := Attribution(RoundOf(events, e), 1 + CountOf(events[..n - 1], IsReview()));
        CountSnoc(before, a, Is(Scanned(), r));
        assert Scanned()(a) == RoundOf(events, e);
      } else {
        assert Attributions(events, n) == before;
      }
    }
  }

  /** Each attribution is of one demotion. */
  lemma {:induction false} AttributionOf(events: seq<Row>, n: nat, a: Attribution) returns (i: nat)
    requires n <= |events| && a in Attributions(events, n)
    ensures i < n && events[i].kind == Demotion
    ensures a == Attribution(RoundOf(events, events[i]), 1 + CountOf(events[..i], IsReview()))
  {
    if a in Attributions(events, n - 1) { i := AttributionOf(events, n - 1, a); } else { i := n - 1; }
  }

  lemma {:induction false} AttributionAt(events: seq<Row>, n: nat, i: nat)
    requires i < n <= |events| && events[i].kind == Demotion
    ensures Attribution(RoundOf(events, events[i]), 1 + CountOf(events[..i], IsReview())) in Attributions(events, n)
  {
    if i < n - 1 { AttributionAt(events, n - 1, i); }
  }

  ghost predicate InTime(events: seq<Row>) {
    forall i, j :: 0 <= i < j < |events| ==> events[i].ts <= events[j].ts
  }

  /** A review emitted after a demotion and stamped with the same time. */
  ghost predicate TiedReview(events: seq<Row>, i: nat) {
    i < |events| && exists j :: i < j < |events| && events[j].kind == Review && events[j].ts == events[i].ts
  }

  /** The scan never puts a demotion in too early a round, and puts it in too late a one
      exactly when a review is tied with it. */
  lemma TieMovesOn(events: seq<Row>, i: nat)
    requires InTime(events) && i < |events| && events[i].kind == Demotion
    ensures RoundOf(events, events[i]) >= 1 + CountOf(events[..i], IsReview())
    ensures RoundOf(events, events[i]) == 1 + CountOf(events[..i], IsReview()) <==> !TiedReview(events, i)
  {
    var t := events[i].ts;
    ReviewsSplit(events, i, t);
    if TiedReview(events, i) {
      var j :| i < j < |events| && events[j].kind == Review && events[j].ts == t;
      OneReview(events[i..], j - i, t);
    } else {
      forall k | i <= k < |events| ensures !(events[k].kind == Review && events[k].ts <= t) {}
      NoReviews(events[i..], t);
    }
  }

  lemma RoundsAreFew(s: seq<Row>, d: Row)
    ensures RoundOf(s, d) <= 1 + CountOf(s, IsReview())
  {
    CountAtMost(s, ReviewBy(d.ts), IsReview());
  }

  /** Every demotion is counted once: the rounds' counts add up to all of them. */
  lemma DemotionsConserved(events: seq<Row>)
    ensures Spread(Attributions(events, |events|), Scanned(), 1 + CountOf(events, IsReview()))
            == CountOf(events, IsDemotion())
    ensures forall r :: CountOf(Attributions(events, |events|), Is(Scanned(), r)) == Demoted(events, r)
  {
    var all := Attributions(events, |events|);
    assert events[..|events|] == events;
    forall r ensures CountOf(all, Is(Scanned(), r)) == Demoted(events, r) { ScannedIs(events, |events|, r); }
    ScannedIs(events, |events|, 0);
    forall a | a in all ensures 1 <= Scanned()(a) <= 1 + CountOf(events, IsReview()) {
      var i := AttributionOf(events, |events|, a);
      RoundsAreFew(events, events[i]);
    }
    SpreadIsAll(all, Scanned(), 1 + CountOf(events, IsReview()));
  }

  /** The documentation puts a demotion in the round of the review emitted after it. For
      events emitted in time order the counts say that exactly when no review is stamped with
      the very time of a demotion emitted before it: the sort puts that review first. */
  lemma TieRule(events: seq<Row>)
    requires InTime(events)
    ensures (forall r :: Demoted(events, r) == EmittedIn(events, r))
            <==> forall i :: 0 <= i < |events| && events[i].kind == Demotion ==> !TiedReview(events, i)
  {
    var all := Attributions(events, |events|);
    var hi := 1 + CountOf(events, IsReview());
    DemotionsConserved(events);
    forall a | a in all ensures 1 <= Emitted()(a) <= Scanned()(a) <= hi {
      var i := AttributionOf(events, |events|, a);
      TieMovesOn(events, i);
      RoundsAreFew(events, events[i]);
    }
    SameSpreadIff(all, Scanned(), Emitted(), hi);
    SameRoundsIff(events);
  }

  lemma UntiedStays(events: seq<Row>, a: Attribution)
    requires InTime(events) && a in Attributions(events, |events|)
    requires forall i :: 0 <= i < |events| && events[i].kind == Demotion ==> !TiedReview(events, i)
    ensures Scanned()(a) == Emitted()(a)
  {
    var i := AttributionOf(events, |events|, a);
    TieMovesOn(events, i);
  }

  lemma TiedMoves(events: seq<Row>, i: nat) returns (a: Attribution)
    requires InTime(events) && i < |events| && events[i].kind == Demotion && TiedReview(events, i)
    ensures a in Attributions(events, |events|) && Scanned()(a) != Emitted()(a)
  {
    a := Attribution(RoundOf(events, events[i]), 1 + CountOf(events[..i], IsReview()));
    AttributionAt(events, |events|, i);
    TieMovesOn(events, i);
  }

  /** The two rounds of every demotion are the same exactly when no review is tied with one. */
  lemma SameRoundsIff(events: seq<Row>)
    requires InTime(events)
    ensures (forall a :: a in Attributions(events, |events|) ==> Scanned()(a) == Emitted()(a))
            <==> forall i :: 0 <= i < |events| && events[i].kind == Demotion ==> !TiedReview(events, i)
  {
    if forall i :: 0 <= i < |events| && events[i].kind == Demotion ==> !TiedReview(events, i) {
      forall a | a in Attributions(events, |events|) ensures Scanned()(a) == Emitted()(a) { UntiedStays(events, a); }
    } else {
      var i :| 0 <= i < |events| && events[i].kind == Demotion && TiedReview(events, i);
      var a := TiedMoves(events, i);
    }
  }

  /** A demotion and, in the same instant, the review it belongs to: emitted in round 1, and
      counted in round 2. */
  lemma TiedDemotionMoves(ts: int)
    ensures var events := [Row(ts, Demotion), Row(ts, Review)];
      && InTime(events)
      && EmittedIn(events, 1) == 1 && Demoted(events, 1) == 0
      && EmittedIn(events, 2) == 0 && Demoted(events, 2) == 1
  {
    var d, v := Row(ts, Demotion), Row(ts, Review);
    var events := [d, v];
    CountOfTwo(d, v, ReviewBy(ts));
    assert RoundOf(events, d) == 2;
    CountOfTwo(d, v, InRound(events, 1));
    CountOfTwo(d, v, InRound(events, 2));
    assert events[..0] == [] && events[..1] == [d];
    var a := Attribution(2, 1);
    assert Attributions(events, 1) == [] + [a] && Attributions(events, 2) == [a] + [];
    assert Attributions(events, 2) == [] + [a];
    CountSnoc([], a, Is(Emitted(), 1));
    CountSnoc([], a, Is(Emitted(), 2));
  }

  lemma CountOfTwo(x: Row, y: Row, p: Row -> bool)
    ensures CountOf([x, y], p) == (if p(x) then 1 else 0) + if p(y) then 1 else 0
  {
    assert [x, y] == [x] + [y] && [x] == [] + [x];
    CountSnoc([], x, p);
    CountSnoc([x], y, p);
  }
}
