/** Fetch failures and incidents, scripts/measure_release_downloads.py: the greedy count of
    incidents is the number of connected components of "at most an hour apart". */
module Incidents {
  import opened PyText
  import opened Order

  /** Times are in microseconds. */
  const WINDOW: int := 3600 * 1000000

  /** A fetch failure as the clustering sees it: where, and when. */
  datatype Failure = Failure(branch: string, at: int)

  // ----- the graph -----

  predicate Near(a: Failure, b: Failure, window: int) {
    a.branch == b.branch && -window <= a.at - b.at <= window
  }

  ghost predicate Path(failures: set<Failure>, p: seq<Failure>, window: int) {
    && p != [] && (forall i :: 0 <= i < |p| ==> p[i] in failures)
    && forall i :: 0 <= i < |p| - 1 ==> Near(p[i], p[i + 1], window)
  }

  ghost predicate Joins(failures: set<Failure>, p: seq<Failure>, a: Failure, b: Failure, window: int) {
    Path(failures, p, window) && p[0] == a && p[|p| - 1] == b
  }

  ghost predicate Connected(failures: set<Failure>, a: Failure, b: Failure, window: int) {
    exists p :: Joins(failures, p, a, b, window)
  }

  /** Everything connected to a failure. */
  ghost function Component(failures: set<Failure>, a: Failure, window: int): set<Failure> {
    set b | b in failures && Connected(failures, a, b, window)
  }

  /** The incidents: the connected components. */
  ghost function Components(failures: set<Failure>, window: int): set<set<Failure>> {
    set a | a in failures :: Component(failures, a, window)
  }

  lemma ConnectedToSelf(failures: set<Failure>, a: Failure, window: nat)
    requires a in failures
    ensures Connected(failures, a, a, window)
  {
    assert Joins(failures, [a], a, a, window);
  }

  lemma ConnectedBack(failures: set<Failure>, a: Failure, b: Failure, window: int)
    requires Connected(failures, a, b, window)
    ensures Connected(failures, b, a, window)
  {
    var p :| Joins(failures, p, a, b, window);
    var r := seq(|p|, i requires 0 <= i < |p| => p[|p| - 1 - i]);
    forall i | 0 <= i < |r| - 1 ensures Near(r[i], r[i + 1], window) {
      assert Near(p[|p| - 2 - i], p[|p| - 2 - i + 1], window);
    }
    assert Joins(failures, r, b, a, window);
  }

  lemma ConnectedThrough(failures: set<Failure>, a: Failure, b: Failure, c: Failure, window: int)
    requires Connected(failures, a, b, window) && Connected(failures, b, c, window)
    ensures Connected(failures, a, c, window)
  {
    var p :| Joins(failures, p, a, b, window);
    var q :| Joins(failures, q, b, c, window);
    assert Joins(failures, p + q[1..], a, c, window);
  }

  // ----- leaders -----

  /** A failure with no other on its branch in the window before it. */
  ghost predicate Leads(failures: set<Failure>, a: Failure, window: int) {
    a in failures && forall b :: b in failures && b.branch == a.branch ==> !(a.at - window <= b.at < a.at)
  }

  ghost function Leaders(failures: set<Failure>, window: int): set<Failure> {
    set a | a in failures && Leads(failures, a, window)
  }

  ghost function Earlier(failures: set<Failure>, a: Failure): set<Failure> {
    set b | b in failures && b.branch == a.branch && b.at < a.at
  }

  /** Walking back in time ends at a leader. */
  lemma {:induction false} LeaderOf(failures: set<Failure>, a: Failure, window: nat) returns (l: Failure)
    requires a in failures
    ensures Leads(failures, l, window) && Connected(failures, l, a, window)
    decreases Earlier(failures, a)
  {
    if Leads(failures, a, window) {
      ConnectedToSelf(failures, a, window);
      return a;
    }
    var b :| b in failures && b.branch == a.branch && a.at - window <= b.at < a.at;
    assert b in Earlier(failures, a) && b !in Earlier(failures, b);
    l := LeaderOf(failures, b, window);
    assert Joins(failures, [b, a], b, a, window);
    ConnectedThrough(failures, l, b, a, window);
  }

  /** No path leaves a leader for the past. */
  lemma {:induction false} NothingBeforeLeader(failures: set<Failure>, l: Failure, p: seq<Failure>, i: nat, window: nat)
    requires Leads(failures, l, window) && Path(failures, p, window) && p[0] == l && i < |p|
    ensures p[i].branch == l.branch && l.at <= p[i].at
  {
    if i > 0 {
      NothingBeforeLeader(failures, l, p, i - 1, window);
      assert Near(p[i - 1], p[i - 1 + 1], window);
    }
  }

  lemma ConnectedLeaders(failures: set<Failure>, l: Failure, k: Failure, window: nat)
    requires Leads(failures, l, window) && Leads(failures, k, window) && Connected(failures, l, k, window)
    ensures l == k
  {
    var p :| Joins(failures, p, l, k, window);
    NothingBeforeLeader(failures, l, p, |p| - 1, window);
    ConnectedBack(failures, l, k, window);
    var q :| Joins(failures, q, k, l, window);
    NothingBeforeLeader(failures, k, q, |q| - 1, window);
  }

  lemma SameComponent(failures: set<Failure>, a: Failure, b: Failure, window: nat)
    requires a in failures && b in failures
    ensures Component(failures, a, window) == Component(failures, b, window) <==> Connected(failures, a, b, window)
  {
    ConnectedToSelf(failures, b, window);
    if Connected(failures, a, b, window) {
      ConnectedBack(failures, a, b, window);
      forall c | c in failures
        ensures Connected(failures, a, c, window) <==> Connected(failures, b, c, window)
      {
        if Connected(failures, a, c, window) { ConnectedThrough(failures, b, a, c, window); }
        if Connected(failures, b, c, window) { ConnectedThrough(failures, a, b, c, window); }
      }
    } else {
      assert b in Component(failures, b, window) && b !in Component(failures, a, window);
    }
  }

  /** One leader to a component. */
  lemma LeadersAreComponents(failures: set<Failure>, window: nat)
    ensures |Leaders(failures, window)| == |Components(failures, window)|
  {
    var f := (a: Failure) => Component(failures, a, window);
    var leaders := Leaders(failures, window);
    forall a, b | a in leaders && b in leaders && f(a) == f(b) ensures a == b {
      SameComponent(failures, a, b, window);
      ConnectedLeaders(failures, a, b, window);
    }
    ImageSize(leaders, f);
    forall c | c in Components(failures, window) ensures c in Image(leaders, f) {
      var a :| a in failures && Component(failures, a, window) == c;
      var l := LeaderOf(failures, a, window);
      SameComponent(failures, l, a, window);
      assert l in leaders && f(l) == c;
    }
    assert Components(failures, window) == Image(leaders, f);
  }

  ghost function Image<A(!new), B>(s: set<A>, f: A -> B): set<B> { set x | x in s :: f(x) }

  lemma {:induction false} ImageSize<A(!new), B>(s: set<A>, f: A -> B)
    requires forall x, y :: x in s && y in s && f(x) == f(y) ==> x == y
    ensures |Image(s, f)| == |s|
  {
    if s != {} {
      var x :| x in s;
      ImageSize(s - {x}, f);
      assert Image(s, f) == Image(s - {x}, f) + {f(x)};
    }
  }

  // ----- the greedy count -----

  function FailuresOf(events: seq<Failure>): set<Failure> { set e | e in events }

  function TimesOf(times: seq<int>): set<int> { set t | t in times }

  /** The leaders among times on one branch. */
  ghost function LeadTimes(times: set<int>, window: int): set<int> {
    set t | t in times && LeadsAmong(times, t, window)
  }

  ghost predicate LeadsAmong(times: set<int>, t: int, window: int) {
    forall u :: u in times ==> !(t - window <= u < t)
  }

  predicate IntLe(a: int, b: int) { a <= b }

  lemma IntOrder()
    ensures TotalOrder(IntLe)
  {
  }

  /** Counts the times that come more than a window after the one before them. */
  method CountGaps(times: seq<int>, window: nat) returns (n: nat)
    requires SortedBy(times, IntLe)
    ensures n == |LeadTimes(TimesOf(times), window)|
  {
    n := 0;
    var last: Option<int> := None;
    for i := 0 to |times|
      invariant last == if i == 0 then None else Some(times[i - 1])
      invariant n == |LeadTimes(TimesOf(times[..i]), window)|
    {
      var t := times[i];
      NextTime(times, i, window);
      if last.None? || t - last.value > window { n := n + 1; }
      last := Some(t);
    }
    assert times[..|times|] == times;
  }

  /** A later time leads exactly when it starts a gap, and leaves the other leaders alone. */
  lemma NextTime(times: seq<int>, i: nat, window: nat)
    requires SortedBy(times, IntLe) && i < |times|
    ensures |LeadTimes(TimesOf(times[..i + 1]), window)|
            == |LeadTimes(TimesOf(times[..i]), window)|
               + if i == 0 || times[i] - times[i - 1] > window then 1 else 0
  {
    var t := times[i];
    var before, after := TimesOf(times[..i]), TimesOf(times[..i + 1]);
    assert times[..i + 1] == times[..i] + [t];
    assert after == before + {t};
    forall u | u in before ensures u <= t && i > 0 && u <= times[i - 1] {
      var k :| 0 <= k < i && times[k] == u;
      assert IntLe(times[k], times[i]) && (k < i - 1 ==> IntLe(times[k], times[i - 1]));
    }
    if i > 0 { assert times[..i][i - 1] == times[i - 1] && IntLe(times[i - 1], times[i]); }
    LaterTime(before, t, if i == 0 then None else Some(times[i - 1]), window);
  }

  lemma LaterTime(before: set<int>, t: int, last: Option<int>, window: nat)
    requires last.None? ==> before == {}
    requires last.Some? ==> last.value in before && last.value <= t && forall u :: u in before ==> u <= last.value
    ensures |LeadTimes(before + {t}, window)|
            == |LeadTimes(before, window)| + if last.None? || t - last.value > window then 1 else 0
  {
    var old', new' := LeadTimes(before, window), LeadTimes(before + {t}, window);
    forall u | u in before && u < t ensures u in old' <==> u in new' {
      assert LeadsAmong(before, u, window) <==> LeadsAmong(before + {t}, u, window);
    }
    if last.None? || t - last.value > window {
      assert LeadsAmong(before + {t}, t, window) && t !in before;
      assert new' == old' + {t};
    } else {
      assert t in before ==> t == last.value && before + {t} == before;
      assert new' == old';
    }
  }

  /** Groups by branch, sorts each branch's times, counts the gaps. */
  method CountIncidents(events: seq<Failure>) returns (incidents: nat)
    ensures incidents == |Components(FailuresOf(events), WINDOW)|
    ensures incidents <= |events|
  {
    var byBranch := ByBranch(events);
    ghost var failures := FailuresOf(events);
    incidents := 0;
    var todo := byBranch.Keys;
    while todo != {}
      invariant todo <= byBranch.Keys
      invariant incidents == |LeadersOn(failures, byBranch.Keys - todo, WINDOW)|
    {
      var branch :| branch in todo;
      var gaps := BranchGaps(byBranch[branch], WINDOW);
      OneMoreBranch(failures, byBranch.Keys - todo, branch, TimesOf(byBranch[branch]), WINDOW);
      assert byBranch.Keys - (todo - {branch}) == byBranch.Keys - todo + {branch};
      incidents := incidents + gaps;
      todo := todo - {branch};
    }
    assert byBranch.Keys - todo == byBranch.Keys;
    assert LeadersOn(failures, byBranch.Keys, WINDOW) == Leaders(failures, WINDOW);
    LeadersAreComponents(failures, WINDOW);
    FailuresAtMost(events);
    SubsetSize(Leaders(failures, WINDOW), failures);
  }

  method BranchGaps(unsorted: seq<int>, window: nat) returns (gaps: nat)
    ensures gaps == |LeadTimes(TimesOf(unsorted), window)|
  {
    var times := Sort(unsorted, IntLe);
    IntOrder();
    SortSorts(unsorted, IntLe);
    SortKeeps(unsorted, IntLe);
    gaps := CountGaps(times, window);
    assert forall t :: t in times <==> t in multiset(times);
    assert forall t :: t in unsorted <==> t in multiset(unsorted);
    assert TimesOf(times) == TimesOf(unsorted);
  }

  method ByBranch(events: seq<Failure>) returns (byBranch: map<string, seq<int>>)
    ensures forall b, t :: (b in byBranch && t in byBranch[b]) <==> Failure(b, t) in events
    ensures forall e :: e in events ==> e.branch in byBranch
  {
    byBranch := map[];
    for i := 0 to |events|
      invariant forall b, t :: (b in byBranch && t in byBranch[b]) <==> Failure(b, t) in events[..i]
      invariant forall e :: e in events[..i] ==> e.branch in byBranch
    {
      var e := events[i];
      assert events[..i + 1] == events[..i] + [e];
      var times := if e.branch in byBranch then byBranch[e.branch] else [];
      byBranch := byBranch[e.branch := times + [e.at]];
    }
    assert events[..|events|] == events;
  }

  ghost function LeadersOn(failures: set<Failure>, branches: set<string>, window: int): set<Failure> {
    set a | a in failures && a.branch in branches && Leads(failures, a, window)
  }

  lemma OneMoreBranch(failures: set<Failure>, done: set<string>, branch: string, times: set<int>, window: nat)
    requires branch !in done && forall t :: t in times <==> Failure(branch, t) in failures
    ensures |LeadersOn(failures, done + {branch}, window)|
            == |LeadersOn(failures, done, window)| + |LeadTimes(times, window)|
  {
    var f := (t: int) => Failure(branch, t);
    var here := Image(LeadTimes(times, window), f);
    ImageSize(LeadTimes(times, window), f);
    forall a ensures a in here <==> a in failures && a.branch == branch && Leads(failures, a, window) {
      BranchLeader(failures, branch, times, a.at, window);
      if a.branch == branch { assert a == f(a.at); }
    }
    assert LeadersOn(failures, done + {branch}, window) == LeadersOn(failures, done, window) + here;
  }

  lemma BranchLeader(failures: set<Failure>, branch: string, times: set<int>, t: int, window: nat)
    requires forall t :: t in times <==> Failure(branch, t) in failures
    ensures t in LeadTimes(times, window)
            <==> Failure(branch, t) in failures && Leads(failures, Failure(branch, t), window)
  {
    if t in times {
      if Leads(failures, Failure(branch, t), window) {
        forall u | u in times ensures !(t - window <= u < t) { assert Failure(branch, u) in failures; }
        assert LeadsAmong(times, t, window);
      }
      if LeadsAmong(times, t, window) {
        forall b | b in failures && b.branch == branch ensures !(t - window <= b.at < t) {
          assert b == Failure(branch, b.at) && b.at in times;
        }
      }
    }
  }

  lemma {:induction false} FailuresAtMost(events: seq<Failure>)
    ensures |FailuresOf(events)| <= |events|
  {
    if events != [] {
      FailuresAtMost(events[1..]);
      assert FailuresOf(events) == FailuresOf(events[1..]) + {events[0]};
    }
  }

  lemma {:induction false} SubsetSize<A>(a: set<A>, b: set<A>)
    requires a <= b
    ensures |a| <= |b|
  {
    if a != {} {
      var x :| x in a;
      SubsetSize(a - {x}, b - {x});
    }
  }

  // ----- the measurement -----

  datatype Conclusion = Failed | TimedOut | Cancelled | ActionRequired | StartupFailure | Skipped | Otherwise

  /** A step of a job: its name, whether that is one of the packaging steps' names, its conclusion. */
  datatype Step = Step(name: string, packaging: bool, conclusion: Conclusion)

  /** What fetching a job's log gives. */
  datatype Log = Log(status: Option<int>, text: Option<string>)

  datatype Job = Job(id: Option<int>, steps: seq<Step>, log: Log)

  datatype RunRecord = RunRecord(id: int, branch: string, at: int, jobs: seq<Job>)

  datatype Category = FetchFailure | OtherFailure | Unclassifiable

  datatype Event = Event(run: int, branch: string, at: int, job: Option<int>, step: string, category: Category)

  /** The two text patterns: a progress line near the end, a fetch-failure signature. */
  datatype Patterns = Patterns(progress: string -> bool, signature: string -> bool)

  predicate FailedStep(s: Step) {
    s.packaging && s.conclusion in {Failed, TimedOut, Cancelled, ActionRequired, StartupFailure}
  }

  function Categorize(log: Log, conclusion: Conclusion, pats: Patterns): Category {
    if (log.status.Some? && log.status.value in {403, 404, 410, 429}) || log.text.None? then Unclassifiable
    else if conclusion == Cancelled then if pats.progress(log.text.value) then FetchFailure else OtherFailure
    else if pats.signature(log.text.value) then FetchFailure else OtherFailure
  }

  /** A named packaging step ran. */
  predicate IsReleaseRun(jobs: seq<Job>) {
    exists j :: j in jobs && exists s :: s in j.steps && s.packaging && s.conclusion != Skipped
  }

  predicate HasFailedStep(jobs: seq<Job>) {
    exists j :: j in jobs && exists s :: s in j.steps && FailedStep(s)
  }

  datatype Failing = Failing(job: Job, step: Step)

  function FailedSteps(steps: seq<Step>): seq<Step> {
    if steps == [] then []
    else FailedSteps(steps[..|steps| - 1])
         + if FailedStep(steps[|steps| - 1]) then [steps[|steps| - 1]] else []
  }

  function StepsOf(job: Job, steps: seq<Step>): seq<Failing> {
    seq(|steps|, i requires 0 <= i < |steps| => Failing(job, steps[i]))
  }

  /** Every failed packaging step of a run's jobs, in order. */
  function FailingOf(jobs: seq<Job>): seq<Failing> {
    if jobs == [] then []
    else FailingOf(jobs[..|jobs| - 1]) + StepsOf(jobs[|jobs| - 1], FailedSteps(jobs[|jobs| - 1].steps))
  }

  function EventOf(run: RunRecord, f: Failing, pats: Patterns): Event {
    Event(run.id, run.branch, run.at, f.job.id, f.step.name,
          Categorize(if f.job.id.Some? then f.job.log else Log(None, None), f.step.conclusion, pats))
  }

  function EventsOfRun(run: RunRecord, failing: seq<Failing>, pats: Patterns): seq<Event> {
    seq(|failing|, i requires 0 <= i < |failing| => EventOf(run, failing[i], pats))
  }

  /** An event for every failed packaging step of every run, release run or not. */
  function AllEvents(runs: seq<RunRecord>, pats: Patterns): seq<Event> {
    if runs == [] then []
    else
      var run := runs[|runs| - 1];
      AllEvents(runs[..|runs| - 1], pats) + EventsOfRun(run, FailingOf(run.jobs), pats)
  }

  function OfCategory(events: seq<Event>, c: Category): seq<Event> {
    if events == [] then []
    else OfCategory(events[..|events| - 1], c)
         + if events[|events| - 1].category == c then [events[|events| - 1]] else []
  }

  function Located(events: seq<Event>): seq<Failure> {
    seq(|events|, i requires 0 <= i < |events| => Failure(events[i].branch, events[i].at))
  }

  datatype Measurement = Measurement(
    events: seq<Event>, fetchFailures: nat, incidents: nat, other: nat, unclassifiable: nat,
    releaseRuns: nat, examined: nat, window: Option<(int, int)>)

  /** The earliest and the latest run, release run or not; none without runs. */
  ghost predicate Spans(window: Option<(int, int)>, runs: seq<RunRecord>) {
    match window
    case None => runs == []
    case Some((start, end)) =>
      && (exists r :: r in runs && r.at == start) && (exists r :: r in runs && r.at == end)
      && forall r :: r in runs ==> start <= r.at <= end
  }

  method MeasuredWindow(runs: seq<RunRecord>) returns (window: Option<(int, int)>)
    ensures Spans(window, runs)
  {
    window := None;
    for i := 0 to |runs|
      invariant Spans(window, runs[..i])
    {
      var r := runs[i];
      assert runs[..i + 1] == runs[..i] + [r] && r in runs[..i + 1];
      assert forall x :: x in runs[..i] ==> x in runs[..i + 1];
      match window
      case None => window := Some((r.at, r.at));
      case Some((start, end)) =>
        window := Some((if r.at < start then r.at else start, if r.at > end then r.at else end));
    }
    assert runs[..|runs|] == runs;
  }

  lemma {:induction false} NothingFailed(steps: seq<Step>)
    ensures FailedSteps(steps) != [] <==> exists s :: s in steps && FailedStep(s)
  {
    if steps != [] {
      NothingFailed(steps[..|steps| - 1]);
      assert steps == steps[..|steps| - 1] + [steps[|steps| - 1]];
    }
  }

  /** The release-run guard before the failing steps are read drops none of them. */
  lemma {:induction false} FailingRunsAreReleaseRuns(jobs: seq<Job>)
    ensures FailingOf(jobs) != [] <==> HasFailedStep(jobs)
    ensures HasFailedStep(jobs) ==> IsReleaseRun(jobs)
  {
    if jobs != [] {
      var job := jobs[|jobs| - 1];
      FailingRunsAreReleaseRuns(jobs[..|jobs| - 1]);
      NothingFailed(job.steps);
      assert jobs == jobs[..|jobs| - 1] + [job];
    }
  }

  /** The three categories partition the events. */
  lemma {:induction false} CategoriesPartition(events: seq<Event>)
    ensures |OfCategory(events, FetchFailure)| + |OfCategory(events, OtherFailure)|
            + |OfCategory(events, Unclassifiable)| == |events|
  {
    if events != [] { CategoriesPartition(events[..|events| - 1]); }
  }

  method ReleaseFailureSteps(jobs: seq<Job>) returns (out: seq<Failing>)
    ensures out == FailingOf(jobs)
  {
    out := [];
    for i := 0 to |jobs|
      invariant out == FailingOf(jobs[..i])
    {
      var job := jobs[i];
      var start := out;
      assert jobs[..i + 1][..i] == jobs[..i];
      for k := 0 to |job.steps|
        invariant out == start + StepsOf(job, FailedSteps(job.steps[..k]))
      {
        assert job.steps[..k + 1][..k] == job.steps[..k];
        if FailedStep(job.steps[k]) { out := out + [Failing(job, job.steps[k])]; }
      }
      assert job.steps[..|job.steps|] == job.steps;
    }
    assert jobs[..|jobs|] == jobs;
  }

  function ReleaseRuns(runs: seq<RunRecord>): nat {
    if runs == [] then 0
    else ReleaseRuns(runs[..|runs| - 1]) + if IsReleaseRun(runs[|runs| - 1].jobs) then 1 else 0
  }

  method RunEvents(run: RunRecord, pats: Patterns) returns (events: seq<Event>)
    ensures events == EventsOfRun(run, FailingOf(run.jobs), pats)
  {
    var failing := ReleaseFailureSteps(run.jobs);
    events := [];
    for k := 0 to |failing|
      invariant events == EventsOfRun(run, failing[..k], pats)
    {
      events := events + [EventOf(run, failing[k], pats)];
    }
    assert failing[..|failing|] == failing;
  }

  /** Counts one event per failed packaging step, each in one of three categories, and the
      incidents among the fetch failures. */
  method MeasureFetchFailures(runs: seq<RunRecord>, pats: Patterns) returns (m: Measurement)
    ensures m.events == AllEvents(runs, pats)
    ensures m.fetchFailures == |OfCategory(m.events, FetchFailure)|
    ensures m.other == |OfCategory(m.events, OtherFailure)|
    ensures m.unclassifiable == |OfCategory(m.events, Unclassifiable)|
    ensures m.fetchFailures + m.other + m.unclassifiable == |m.events|
    ensures m.incidents == |Components(FailuresOf(Located(OfCategory(m.events, FetchFailure))), WINDOW)|
    ensures m.incidents <= m.fetchFailures
    ensures m.releaseRuns == ReleaseRuns(runs) && m.examined == |runs| && Spans(m.window, runs)
  {
    var events: seq<Event> := [];
    var releaseRuns := 0;
    for i := 0 to |runs|
      invariant events == AllEvents(runs[..i], pats)
      invariant releaseRuns == ReleaseRuns(runs[..i])
    {
      var run := runs[i];
      assert runs[..i + 1][..i] == runs[..i];
      FailingRunsAreReleaseRuns(run.jobs);
      if !IsReleaseRun(run.jobs) { continue; }
      releaseRuns := releaseRuns + 1;
      var more := RunEvents(run, pats);
      events := events + more;
    }
    assert runs[..|runs|] == runs;
    var fetch := OfCategory(events, FetchFailure);
    CategoriesPartition(events);
    var incidents := CountIncidents(Located(fetch));
    var window := MeasuredWindow(runs);
    m := Measurement(events, |fetch|, incidents, |OfCategory(events, OtherFailure)|,
                     |OfCategory(events, Unclassifiable)|, releaseRuns, |runs|, window);
  }
}
