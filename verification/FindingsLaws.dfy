/** The columns of the review report of scripts/review_round_value.py, each as a sum over the
    records of its round. */
module FindingsLaws {
  import opened Counting
  import opened Findings
  import opened PyText

  // ----- the records -----

  /** A record of a task's history, and where it stands. */
  datatype Entry = Entry(task: Task, k: nat, record: Record)

  function HistoryOf(): Task -> seq<Entry> {
    (t: Task) => seq(|t.history|, k requires 0 <= k < |t.history| => Entry(t, k, t.history[k]))
  }

  /** All records, task after task. */
  function Records(tasks: seq<Task>): seq<Entry> { Gathered(tasks, HistoryOf()) }

  /** The number it carries; its position, from 1, where it carries none or 0. */
  function RoundNumber(x: Entry): int {
    match x.record.round case Some(n) => (if n == 0 then x.k + 1 else n) case None => x.k + 1
  }

  /** A figure of the records of one round. */
  function InRound(n: int, f: Entry -> int): Entry -> int { (x: Entry) => if RoundNumber(x) == n then f(x) else 0 }

  // ----- the columns -----

  function One(): Entry -> int { (x: Entry) => 1 }

  function PassedOne(): Entry -> int { (x: Entry) => if x.record.passed then 1 else 0 }

  function FailedOne(): Entry -> int { (x: Entry) => if x.record.passed then 0 else 1 }

  function Blocking(): Entry -> int { (x: Entry) => |x.record.blocking| }

  function Advisory(): Entry -> int { (x: Entry) => x.record.advisory }

  function DemotedBy(d: Demotions): Entry -> int {
    (x: Entry) => if (x.task.id, RoundNumber(x)) in d then d[(x.task.id, RoundNumber(x))] else 0
  }

  /** An earlier record of the task raised the same label. */
  predicate SameLabelBefore(rd: Reader, x: Entry, e: string) {
    exists j :: 0 <= j < x.k && j < |x.task.history|
                && exists b :: b in x.task.history[j].blocking && rd.tag(b) == rd.tag(e)
  }

  /** An earlier record of the task raised a label with nearly the same words. */
  predicate NearLabelBefore(rd: Reader, x: Entry, e: string) {
    exists j :: 0 <= j < x.k && j < |x.task.history|
                && exists b :: b in x.task.history[j].blocking && NearlySame(rd.words(rd.tag(e)), rd.words(rd.tag(b)))
  }

  /** At least 0.6 of all their words are in both. */
  predicate NearlySame(a: set<string>, b: set<string>) {
    a != {} && b != {} && |a + b| > 0 && |a * b| as real / |a + b| as real >= 0.6
  }

  function Repeat(rd: Reader, x: Entry): string -> bool { (e: string) => SameLabelBefore(rd, x, e) }

  function New(rd: Reader, x: Entry): string -> bool { (e: string) => !SameLabelBefore(rd, x, e) }

  function Near(rd: Reader, x: Entry): string -> bool { (e: string) => NearLabelBefore(rd, x, e) }

  function NewIn(rd: Reader): Entry -> int { (x: Entry) => CountOf(x.record.blocking, New(rd, x)) }

  function RepeatsIn(rd: Reader): Entry -> int { (x: Entry) => CountOf(x.record.blocking, Repeat(rd, x)) }

  function NearIn(rd: Reader): Entry -> int { (x: Entry) => CountOf(x.record.blocking, Near(rd, x)) }

  lemma AlikeIs(a: set<string>, b: set<string>)
    ensures Alike(a, b) <==> NearlySame(a, b)
  {
    if a != {} && b != {} {
      var x :| x in a;
      assert x in a + b && |a + b| > 0;
      var m, n := |a * b|, |a + b|;
      assert m as real / n as real >= 0.6 <==> m as real >= 0.6 * n as real;
    }
  }

  // ----- shares and records -----

  /** What a record's share contributes to a column. */
  function Column(n: int, col: Tally -> int): Share -> int { (s: Share) => if s.round == n then col(s.tally) else 0 }

  ghost predicate Additive(col: Tally -> int) {
    col(ZERO) == 0 && forall a, b :: col(Findings.Plus(a, b)) == col(a) + col(b)
  }

  lemma {:induction false} RoundIsSum(shares: seq<Share>, n: int, col: Tally -> int)
    requires Additive(col)
    ensures col(RoundTally(shares, n)) == Sum(shares, Column(n, col))
  {
    if shares != [] { RoundIsSum(shares[..|shares| - 1], n, col); }
  }

  function ShareOf(rd: Reader, d: Demotions): Entry -> Share {
    (x: Entry) => if x.k < |x.task.history| then ShareAt(rd, x.task, d, x.k) else NOTHING
  }

  function Through(f: Share -> int, g: Entry -> Share): Entry -> int { (x: Entry) => f(g(x)) }

  lemma OneMoreShare(before: seq<Share>, share: nat -> Share, k: nat, f: Share -> int)
    requires k > 0
    ensures Sum(WithShares(before, share, k), f) == Sum(WithShares(before, share, k - 1), f) + f(share(k - 1))
  {
    var shares := WithShares(before, share, k - 1);
    assert (shares + [share(k - 1)])[..|shares|] == shares;
  }

  lemma OneMoreEntry(t: Task, k: nat, f: Entry -> int)
    requires 0 < k <= |t.history|
    ensures Sum(HistoryOf()(t)[..k], f) == Sum(HistoryOf()(t)[..k - 1], f) + f(Entry(t, k - 1, t.history[k - 1]))
  {
    var entries := HistoryOf()(t);
    assert entries[..k][..k - 1] == entries[..k - 1] && entries[..k][k - 1] == Entry(t, k - 1, t.history[k - 1]);
  }

  ghost predicate SameFigure(t: Task, share: nat -> Share, k: nat, f: Share -> int, g: Entry -> int) {
    k < |t.history| ==> f(share(k)) == g(Entry(t, k, t.history[k]))
  }

  lemma {:induction false} TaskSums(
    t: Task, share: nat -> Share, before: seq<Share>, k: nat, f: Share -> int, g: Entry -> int)
    requires k <= |t.history| && forall i :: 0 <= i < k ==> SameFigure(t, share, i, f, g)
    ensures Sum(WithShares(before, share, k), f) == Sum(before, f) + Sum(HistoryOf()(t)[..k], g)
  {
    if k > 0 {
      TaskSums(t, share, before, k - 1, f, g);
      OneMoreShare(before, share, k, f);
      OneMoreEntry(t, k, g);
      assert SameFigure(t, share, k - 1, f, g);
    }
  }

  lemma {:induction false} SumAppend<T>(a: seq<T>, b: seq<T>, f: T -> int)
    ensures Sum(a + b, f) == Sum(a, f) + Sum(b, f)
  {
    if b == [] {
      assert a + b == a;
    } else {
      assert (a + b)[..|a + b| - 1] == a + b[..|b| - 1];
      SumAppend(a, b[..|b| - 1], f);
    }
  }

  /** The shares of all records add up record by record. */
  lemma {:induction false} AllSums(rd: Reader, tasks: seq<Task>, d: Demotions, f: Share -> int)
    ensures Sum(AllShares(rd, tasks, d), f) == Sum(Records(tasks), Through(f, ShareOf(rd, d)))
  {
    if tasks != [] {
      var front, t := tasks[..|tasks| - 1], tasks[|tasks| - 1];
      AllSums(rd, front, d, f);
      forall k | 0 <= k < |t.history| ensures SameFigure(t, Shares(rd, t, d), k, f, Through(f, ShareOf(rd, d))) {}
      TaskSums(t, Shares(rd, t, d), AllShares(rd, front, d), |t.history|, f, Through(f, ShareOf(rd, d)));
      assert HistoryOf()(t)[..|t.history|] == HistoryOf()(t);
      SumAppend(Records(front), HistoryOf()(t), Through(f, ShareOf(rd, d)));
    }
  }

  lemma RecordsAre(tasks: seq<Task>, x: Entry)
    requires x in Records(tasks)
    ensures x.k < |x.task.history| && x.record == x.task.history[x.k]
  {
    var i := GatheredFrom(tasks, HistoryOf(), x);
  }

  lemma ShareRound(rd: Reader, d: Demotions, x: Entry)
    requires x.k < |x.task.history| && x.record == x.task.history[x.k]
    ensures ShareOf(rd, d)(x).round == RoundNumber(x)
  {
  }

  /** One column: what a record's tally holds in it is what the record contributes. */
  lemma ColumnIs(rd: Reader, tasks: seq<Task>, d: Demotions, n: int, col: Tally -> int, f: Entry -> int)
    requires Additive(col)
    requires forall x :: x in Records(tasks) ==> col(ShareOf(rd, d)(x).tally) == f(x)
    ensures col(RoundTally(AllShares(rd, tasks, d), n)) == Sum(Records(tasks), InRound(n, f))
  {
    RoundIsSum(AllShares(rd, tasks, d), n, col);
    AllSums(rd, tasks, d, Column(n, col));
    SameColumn(rd, tasks, d, n, col, f);
  }

  lemma SameColumn(rd: Reader, tasks: seq<Task>, d: Demotions, n: int, col: Tally -> int, f: Entry -> int)
    requires forall x :: x in Records(tasks) ==> col(ShareOf(rd, d)(x).tally) == f(x)
    ensures Sum(Records(tasks), Through(Column(n, col), ShareOf(rd, d))) == Sum(Records(tasks), InRound(n, f))
  {
    var g := Through(Column(n, col), ShareOf(rd, d));
    forall x | x in Records(tasks) ensures g(x) == InRound(n, f)(x) {
      RecordsAre(tasks, x);
      ShareRound(rd, d, x);
    }
    SumSame(Records(tasks), g, InRound(n, f));
  }

  /** A record's own columns. */
  ghost predicate Columns(rd: Reader, d: Demotions, x: Entry, y: Tally) {
    && y.records == One()(x) && y.passed == PassedOne()(x) && y.failed == FailedOne()(x) && y.raised == Blocking()(x)
    && y.advisory == Advisory()(x) && y.demoted == DemotedBy(d)(x)
    && y.novel == NewIn(rd)(x) && y.repeated == RepeatsIn(rd)(x) && y.similar == NearIn(rd)(x)
  }

  lemma RecordColumns(rd: Reader, tasks: seq<Task>, d: Demotions, x: Entry)
    requires x in Records(tasks)
    ensures Columns(rd, d, x, ShareOf(rd, d)(x).tally)
  {
    RecordsAre(tasks, x);
    ShareRound(rd, d, x);
    LabelColumns(rd, x);
  }

  lemma LabelColumns(rd: Reader, x: Entry)
    requires x.k < |x.task.history| && x.record == x.task.history[x.k]
    ensures CountOf(x.record.blocking, Novel(rd, x.task.history, x.k)) == NewIn(rd)(x)
    ensures CountOf(x.record.blocking, Repeats(rd, x.task.history, x.k)) == RepeatsIn(rd)(x)
    ensures CountOf(x.record.blocking, Similar(rd, x.task.history, x.k)) == NearIn(rd)(x)
  {
    var h := x.task.history;
    forall e ensures Repeats(rd, h, x.k)(e) == Repeat(rd, x)(e) && Novel(rd, h, x.k)(e) == New(rd, x)(e) {
      SameIsRaised(rd, x, e);
    }
    forall e ensures Similar(rd, h, x.k)(e) == Near(rd, x)(e) { NearIsAlike(rd, x, e); }
    CountSame(x.record.blocking, Novel(rd, h, x.k), New(rd, x));
    CountSame(x.record.blocking, Repeats(rd, h, x.k), Repeat(rd, x));
    CountSame(x.record.blocking, Similar(rd, h, x.k), Near(rd, x));
  }

  lemma SameIsRaised(rd: Reader, x: Entry, e: string)
    requires x.k <= |x.task.history|
    ensures SameLabelBefore(rd, x, e) <==> RaisedBefore(rd, x.task.history, x.k, LabelOf(rd, e))
  {
  }

  lemma NearIsAlike(rd: Reader, x: Entry, e: string)
    requires x.k <= |x.task.history|
    ensures NearLabelBefore(rd, x, e) <==> AlikeBefore(rd, x.task.history, x.k, LabelOf(rd, e))
  {
    var h, w := x.task.history, rd.words(rd.tag(e));
    forall b: string ensures Alike(w, rd.words(rd.tag(b))) <==> NearlySame(w, rd.words(rd.tag(b))) {
      AlikeIs(w, rd.words(rd.tag(b)));
    }
  }

  /** Every column of a round is the sum of its records' figures: how many there are, how many
      passed and failed, what they raised, how much of it was new, repeated or nearly so, what
      they advised, and what was demoted in the round. */
  lemma ColumnsAre(rd: Reader, tasks: seq<Task>, d: Demotions, n: int)
    ensures var y, all := RoundTally(AllShares(rd, tasks, d), n), Records(tasks);
      && y.records == Sum(all, InRound(n, One()))
      && y.passed == Sum(all, InRound(n, PassedOne())) && y.failed == Sum(all, InRound(n, FailedOne()))
      && y.raised == Sum(all, InRound(n, Blocking())) && y.advisory == Sum(all, InRound(n, Advisory()))
      && y.demoted == Sum(all, InRound(n, DemotedBy(d)))
    ensures var y, all := RoundTally(AllShares(rd, tasks, d), n), Records(tasks);
      && y.novel == Sum(all, InRound(n, NewIn(rd))) && y.repeated == Sum(all, InRound(n, RepeatsIn(rd)))
      && y.similar == Sum(all, InRound(n, NearIn(rd)))
  {
    forall x | x in Records(tasks) ensures Columns(rd, d, x, ShareOf(rd, d)(x).tally) {
      RecordColumns(rd, tasks, d, x);
    }
    ColumnIs(rd, tasks, d, n, (y: Tally) => y.records, One());
    ColumnIs(rd, tasks, d, n, (y: Tally) => y.passed, PassedOne());
    ColumnIs(rd, tasks, d, n, (y: Tally) => y.failed, FailedOne());
    ColumnIs(rd, tasks, d, n, (y: Tally) => y.raised, Blocking());
    ColumnIs(rd, tasks, d, n, (y: Tally) => y.advisory, Advisory());
    ColumnIs(rd, tasks, d, n, (y: Tally) => y.demoted, DemotedBy(d));
    ColumnIs(rd, tasks, d, n, (y: Tally) => y.novel, NewIn(rd));
    ColumnIs(rd, tasks, d, n, (y: Tally) => y.repeated, RepeatsIn(rd));
    ColumnIs(rd, tasks, d, n, (y: Tally) => y.similar, NearIn(rd));
  }

  // ----- the demoted column of one task -----

  lemma {:induction false} DemotedOften(t: Task, d: Demotions, n: int, k: nat)
    requires k <= |t.history|
    ensures Sum(HistoryOf()(t)[..k], InRound(n, DemotedBy(d))) == DemotedIn(d, t.id, n) * Times(t, k, n)
  {
    if k > 0 {
      DemotedOften(t, d, n, k - 1);
      OneMoreEntry(t, k, InRound(n, DemotedBy(d)));
      if Number(t.history, k - 1) == n { OnceMore(DemotedIn(d, t.id, n), Times(t, k - 1, n)); }
    }
  }

  /** A column of the report, added up over rounds 1 to `hi`. */
  function UpTo(column: int -> nat, hi: nat): nat {
    if hi == 0 then 0 else UpTo(column, hi - 1) + column(hi)
  }

  function DemotedColumn(rd: Reader, t: Task, d: Demotions): int -> nat {
    (n: int) => RoundTally(AllShares(rd, [t], d), n).demoted
  }

  /** What the report of a task alone shows as demoted in rounds 1 to `hi`. */
  function Reported(rd: Reader, t: Task, d: Demotions, hi: nat): nat { UpTo(DemotedColumn(rd, t, d), hi) }

  lemma {:induction false} UpToIsWeighed(column: int -> nat, t: Task, d: Demotions, hi: nat)
    requires forall n :: column(n) == DemotedIn(d, t.id, n) * Times(t, |t.history|, n)
    ensures UpTo(column, hi) == Weighed(t, d, |t.history|, hi)
  {
    if hi > 0 { UpToIsWeighed(column, t, d, hi - 1); }
  }

  lemma ReportedInRound(rd: Reader, t: Task, d: Demotions, n: int)
    ensures RoundTally(AllShares(rd, [t], d), n).demoted == DemotedIn(d, t.id, n) * Times(t, |t.history|, n)
  {
    ColumnsAre(rd, [t], d, n);
    GatheredOne(t, HistoryOf());
    DemotedOften(t, d, n, |t.history|);
    assert HistoryOf()(t)[..|t.history|] == HistoryOf()(t);
  }

  /** The reported column against what was attributed: short by the rounds no record carries,
      over by the rounds several carry. */
  lemma ReportAccounts(rd: Reader, t: Task, d: Demotions, hi: nat)
    requires forall n :: DemotedIn(d, t.id, n) > 0 ==> 1 <= n <= hi
    ensures Reported(rd, t, d, hi) + Lost(t, d, hi) == Attributed(t, d, hi) + Doubled(t, d, hi)
    ensures Reported(rd, t, d, hi) == Shown(t, d, |t.history|)
  {
    forall n ensures DemotedColumn(rd, t, d)(n) == DemotedIn(d, t.id, n) * Times(t, |t.history|, n) {
      ReportedInRound(rd, t, d, n);
    }
    UpToIsWeighed(DemotedColumn(rd, t, d), t, d, hi);
    ColumnAccounts(t, d, hi);
    ShownIsWeighed(t, d, |t.history|, hi);
  }

  // ----- the counters -----

  /** Two records of the task blocked. */
  ghost predicate BlockedTwice(t: Task) {
    exists i, j :: 0 <= i < j < |t.history| && t.history[i].blocking != [] && t.history[j].blocking != []
  }

  lemma {:induction false} BlocksCounted(h: History)
    ensures CountOf(h, Blocks()) == 0 <==> forall i :: 0 <= i < |h| ==> h[i].blocking == []
    ensures CountOf(h, Blocks()) > 1
            <==> exists i, j :: 0 <= i < j < |h| && h[i].blocking != [] && h[j].blocking != []
  {
    if h != [] {
      var n := |h| - 1;
      BlocksCounted(h[..n]);
      if h[n].blocking != [] && CountOf(h[..n], Blocks()) > 0 {
        var i :| 0 <= i < n && h[..n][i].blocking != [];
        assert h[i].blocking != [] && i < n;
      }
      if i, j :| 0 <= i < j < |h[..n]| && h[..n][i].blocking != [] && h[..n][j].blocking != [] {
        assert h[i].blocking != [] && h[j].blocking != [];
      }
    }
  }

  /** What the counters count: tasks with a record, with at least the twelve the product keeps,
      with blocking findings in two records. */
  lemma CountersAre(t: Task)
    ensures HasHistory()(t) <==> |t.history| > 0
    ensures AtCap()(t) <==> |t.history| >= 12
    ensures BlocksTwice()(t) <==> BlockedTwice(t)
  {
    BlocksCounted(t.history);
  }
}
