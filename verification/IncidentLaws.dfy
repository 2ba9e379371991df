/** What the download measurement makes of its logs and patterns: which steps become events,
    in which category, and how the counts answer to the patterns. */
module IncidentLaws {
  import opened Counting
  import opened Incidents
  import opened PyText

  // ----- the steps -----

  /** A step of a job of a run. */
  datatype Place = Place(run: RunRecord, job: Job, step: Step)

  function StepPlaces(run: RunRecord, job: Job, steps: seq<Step>): seq<Place> {
    seq(|steps|, i requires 0 <= i < |steps| => Place(run, job, steps[i]))
  }

  function JobPlaces(run: RunRecord): Job -> seq<Place> { (job: Job) => StepPlaces(run, job, job.steps) }

  function RunPlaces(): RunRecord -> seq<Place> { (run: RunRecord) => Gathered(run.jobs, JobPlaces(run)) }

  /** Every step of every job of every run, in order. */
  function Places(runs: seq<RunRecord>): seq<Place> { Gathered(runs, RunPlaces()) }

  /** A packaging step that ran and neither succeeded nor was left out. */
  predicate WentWrong(s: Step) { s.packaging && s.conclusion != Skipped && s.conclusion != Otherwise }

  /** No text of the log can be had. */
  predicate Unreadable(job: Job) {
    || job.id.None? || job.log.text.None?
    || (job.log.status.Some? && job.log.status.value in {403, 404, 410, 429})
  }

  /** The pattern that decides the step finds something in the log. */
  predicate Found(x: Place, pats: Patterns)
    requires !Unreadable(x.job)
  {
    (x.step.conclusion == Cancelled && pats.progress(x.job.log.text.value))
    || (x.step.conclusion != Cancelled && pats.signature(x.job.log.text.value))
  }

  predicate FetchFailed(x: Place, pats: Patterns) { !Unreadable(x.job) && Found(x, pats) }

  /** The event is the place's, and its category the one the log calls for. */
  predicate Reports(e: Event, x: Place, pats: Patterns) {
    && e.run == x.run.id && e.branch == x.run.branch && e.at == x.run.at && e.job == x.job.id && e.step == x.step.name
    && (e.category == Unclassifiable <==> Unreadable(x.job))
    && (e.category == FetchFailure <==> FetchFailed(x, pats))
  }

  function PlaceEvent(x: Place, pats: Patterns): Event { EventOf(x.run, Failing(x.job, x.step), pats) }

  lemma PlaceReports(x: Place, pats: Patterns)
    ensures Reports(PlaceEvent(x, pats), x, pats)
  {
  }

  /** The places that become events, and their events. */
  function Wrong(): Place -> seq<Place> { (x: Place) => if WentWrong(x.step) then [x] else [] }

  function WrongPlaces(runs: seq<RunRecord>): seq<Place> { Gathered(Places(runs), Wrong()) }

  function EventsAt(places: seq<Place>, pats: Patterns): seq<Event> {
    seq(|places|, i requires 0 <= i < |places| => PlaceEvent(places[i], pats))
  }

  lemma EventsAppend(a: seq<Place>, b: seq<Place>, pats: Patterns)
    ensures EventsAt(a + b, pats) == EventsAt(a, pats) + EventsAt(b, pats)
  {
  }

  lemma RunEventsAppend(run: RunRecord, a: seq<Failing>, b: seq<Failing>, pats: Patterns)
    ensures EventsOfRun(run, a + b, pats) == EventsOfRun(run, a, pats) + EventsOfRun(run, b, pats)
  {
  }

  lemma {:induction false} StepsGo(run: RunRecord, job: Job, steps: seq<Step>, pats: Patterns)
    ensures EventsOfRun(run, StepsOf(job, FailedSteps(steps)), pats)
            == EventsAt(Gathered(StepPlaces(run, job, steps), Wrong()), pats)
  {
    if steps != [] {
      var front, s := steps[..|steps| - 1], steps[|steps| - 1];
      var x := Place(run, job, s);
      StepsGo(run, job, front, pats);
      assert StepPlaces(run, job, steps)[..|steps| - 1] == StepPlaces(run, job, front);
      EventsAppend(Gathered(StepPlaces(run, job, front), Wrong()), Wrong()(x), pats);
      if FailedStep(s) {
        assert StepsOf(job, FailedSteps(front) + [s]) == StepsOf(job, FailedSteps(front)) + [Failing(job, s)];
        RunEventsAppend(run, StepsOf(job, FailedSteps(front)), [Failing(job, s)], pats);
      }
    }
  }

  lemma {:induction false} JobsGo(run: RunRecord, jobs: seq<Job>, pats: Patterns)
    ensures EventsOfRun(run, FailingOf(jobs), pats)
            == EventsAt(Gathered(Gathered(jobs, JobPlaces(run)), Wrong()), pats)
  {
    if jobs != [] {
      var front, job := jobs[..|jobs| - 1], jobs[|jobs| - 1];
      JobsGo(run, front, pats);
      StepsGo(run, job, job.steps, pats);
      RunEventsAppend(run, FailingOf(front), StepsOf(job, FailedSteps(job.steps)), pats);
      var before, here := Gathered(front, JobPlaces(run)), StepPlaces(run, job, job.steps);
      GatheredAppend(before, here, Wrong());
      EventsAppend(Gathered(before, Wrong()), Gathered(here, Wrong()), pats);
    }
  }

  /** The events are those of the packaging steps that went wrong, run after run and job after
      job, one each. */
  lemma {:induction false} EventsAreWrongSteps(runs: seq<RunRecord>, pats: Patterns)
    ensures AllEvents(runs, pats) == EventsAt(WrongPlaces(runs), pats)
  {
    if runs != [] {
      var run := runs[|runs| - 1];
      EventsAreWrongSteps(runs[..|runs| - 1], pats);
      JobsGo(run, run.jobs, pats);
      var before, here := Places(runs[..|runs| - 1]), RunPlaces()(run);
      GatheredAppend(before, here, Wrong());
      EventsAppend(Gathered(before, Wrong()), Gathered(here, Wrong()), pats);
    }
  }

  lemma WrongPlacesAre(runs: seq<RunRecord>, x: Place)
    ensures x in WrongPlaces(runs) <==> x in Places(runs) && WentWrong(x.step)
  {
    if x in WrongPlaces(runs) {
      var k := GatheredFrom(Places(runs), Wrong(), x);
    } else if x in Places(runs) && WentWrong(x.step) {
      var k :| 0 <= k < |Places(runs)| && Places(runs)[k] == x;
      GatheredHas(Places(runs), Wrong(), k, x);
    }
  }

  /** So there are as many events as such steps, and each reports its own. */
  lemma EventsReport(runs: seq<RunRecord>, pats: Patterns)
    ensures |AllEvents(runs, pats)| == |WrongPlaces(runs)|
    ensures forall i :: 0 <= i < |WrongPlaces(runs)| ==> Reports(AllEvents(runs, pats)[i], WrongPlaces(runs)[i], pats)
    ensures forall x :: x in WrongPlaces(runs) <==> x in Places(runs) && WentWrong(x.step)
  {
    var places := WrongPlaces(runs);
    EventsAreWrongSteps(runs, pats);
    forall i | 0 <= i < |places| ensures Reports(EventsAt(places, pats)[i], places[i], pats) {
      PlaceReports(places[i], pats);
    }
    forall x ensures x in places <==> x in Places(runs) && WentWrong(x.step) { WrongPlacesAre(runs, x); }
  }

  // ----- the counts -----

  function IsFetch(pats: Patterns): Place -> bool { (x: Place) => FetchFailed(x, pats) }

  function IsUnreadable(): Place -> bool { (x: Place) => Unreadable(x.job) }

  function IsOther(pats: Patterns): Place -> bool { (x: Place) => !Unreadable(x.job) && !FetchFailed(x, pats) }

  lemma {:induction false} CategoriesCount(places: seq<Place>, pats: Patterns)
    ensures var events := EventsAt(places, pats);
      && |OfCategory(events, FetchFailure)| == CountOf(places, IsFetch(pats))
      && |OfCategory(events, Unclassifiable)| == CountOf(places, IsUnreadable())
      && |OfCategory(events, OtherFailure)| == CountOf(places, IsOther(pats))
  {
    if places != [] {
      var n := |places| - 1;
      CategoriesCount(places[..n], pats);
      assert EventsAt(places, pats)[..n] == EventsAt(places[..n], pats);
      PlaceReports(places[n], pats);
    }
  }

  /** The three figures of a measurement, over the steps that went wrong. */
  lemma FiguresAre(runs: seq<RunRecord>, pats: Patterns)
    ensures var places, events := WrongPlaces(runs), AllEvents(runs, pats);
      && |OfCategory(events, FetchFailure)| == CountOf(places, IsFetch(pats))
      && |OfCategory(events, Unclassifiable)| == CountOf(places, IsUnreadable())
      && |OfCategory(events, OtherFailure)| == CountOf(places, IsOther(pats))
  {
    EventsAreWrongSteps(runs, pats);
    CategoriesCount(WrongPlaces(runs), pats);
  }

  // ----- what the patterns do -----

  ghost predicate MatchNothing(pats: Patterns) {
    forall text: string :: !pats.progress(text) && !pats.signature(text)
  }

  ghost predicate MatchEverything(pats: Patterns) {
    forall text: string :: pats.progress(text) && pats.signature(text)
  }

  /** `b` finds something wherever `a` does. */
  ghost predicate MatchMore(a: Patterns, b: Patterns) {
    forall text: string :: (a.progress(text) ==> b.progress(text)) && (a.signature(text) ==> b.signature(text))
  }

  function FetchFailures(runs: seq<RunRecord>, pats: Patterns): seq<Event> {
    OfCategory(AllEvents(runs, pats), FetchFailure)
  }

  /** Patterns that match nothing leave no fetch failure, and no incident. */
  lemma NothingMatched(runs: seq<RunRecord>, pats: Patterns)
    requires MatchNothing(pats)
    ensures FetchFailures(runs, pats) == []
    ensures Components(FailuresOf(Located(FetchFailures(runs, pats))), WINDOW) == {}
  {
    FiguresAre(runs, pats);
    forall x: Place ensures !IsFetch(pats)(x) { NeverFetch(x, pats); }
    CountNone(WrongPlaces(runs), IsFetch(pats));
    assert |FetchFailures(runs, pats)| == 0;
    NoIncident();
  }

  lemma NeverFetch(x: Place, pats: Patterns)
    requires MatchNothing(pats)
    ensures !IsFetch(pats)(x)
  {
  }

  lemma NeverOther(x: Place, pats: Patterns)
    requires MatchEverything(pats)
    ensures !IsOther(pats)(x)
  {
  }

  lemma NoIncident()
    ensures Components(FailuresOf(Located([])), WINDOW) == {}
  {
    assert FailuresOf(Located([])) == {};
  }

  /** Patterns that match everything leave no other failure. */
  lemma EverythingMatched(runs: seq<RunRecord>, pats: Patterns)
    requires MatchEverything(pats)
    ensures OfCategory(AllEvents(runs, pats), OtherFailure) == []
  {
    FiguresAre(runs, pats);
    forall x: Place ensures !IsOther(pats)(x) { NeverOther(x, pats); }
    CountNone(WrongPlaces(runs), IsOther(pats));
  }

  lemma SamePlace(x: Place, a: Patterns, b: Patterns)
    ensures PlaceEvent(x, b) == PlaceEvent(x, a).(category := PlaceEvent(x, b).category)
    ensures PlaceEvent(x, a).category == Unclassifiable <==> PlaceEvent(x, b).category == Unclassifiable
    ensures MatchMore(a, b) && PlaceEvent(x, a).category == FetchFailure ==> PlaceEvent(x, b).category == FetchFailure
  {
    PlaceReports(x, a);
    PlaceReports(x, b);
  }

  /** The measurement under other patterns: the same events but for their categories; a log
      that cannot be read is unclassifiable under any; and patterns that match more take no
      event out of the fetch failures. */
  lemma MoreMatched(runs: seq<RunRecord>, a: Patterns, b: Patterns)
    ensures var ea, eb := AllEvents(runs, a), AllEvents(runs, b);
      && |ea| == |eb| && (forall i :: 0 <= i < |ea| ==> eb[i] == ea[i].(category := eb[i].category))
      && (forall i :: 0 <= i < |ea| ==> (ea[i].category == Unclassifiable <==> eb[i].category == Unclassifiable))
    ensures MatchMore(a, b) ==> forall i :: 0 <= i < |AllEvents(runs, a)| ==>
              (AllEvents(runs, a)[i].category == FetchFailure ==> AllEvents(runs, b)[i].category == FetchFailure)
  {
    EventsAreWrongSteps(runs, a);
    EventsAreWrongSteps(runs, b);
    var places := WrongPlaces(runs);
    forall i | 0 <= i < |places|
      ensures EventsAt(places, b)[i] == EventsAt(places, a)[i].(category := EventsAt(places, b)[i].category)
      ensures EventsAt(places, a)[i].category == Unclassifiable <==> EventsAt(places, b)[i].category == Unclassifiable
      ensures MatchMore(a, b) && EventsAt(places, a)[i].category == FetchFailure ==>
                EventsAt(places, b)[i].category == FetchFailure
    {
      SamePlace(places[i], a, b);
    }
  }

  /** Only the progress pattern decides a cancelled step, and only the signature any other. */
  lemma OnePatternDecides(x: Place, a: Patterns, b: Patterns)
    requires if x.step.conclusion == Cancelled then a.progress == b.progress else a.signature == b.signature
    ensures PlaceEvent(x, a) == PlaceEvent(x, b)
  {
  }

  /** A step that failed with a fetch-failure signature in a log that could be read: one fetch
      failure and one incident. */
  lemma OneFetchFailure(run: RunRecord, job: Job, step: Step, pats: Patterns)
    requires run.jobs == [job] && job.steps == [step] && WentWrong(step) && FetchFailed(Place(run, job, step), pats)
    ensures var fetch := FetchFailures([run], pats);
      |fetch| == 1 && Components(FailuresOf(Located(fetch)), WINDOW) == {{Failure(run.branch, run.at)}}
    ensures OfCategory(AllEvents([run], pats), OtherFailure) == []
  {
    var x := Place(run, job, step);
    OneWrongPlace(run, job, step);
    FiguresAre([run], pats);
    EventsAreWrongSteps([run], pats);
    assert CountOf([x], IsFetch(pats)) == 1 && CountOf([x], IsOther(pats)) == 0 by {
      assert [x][..0] == [];
    }
    PlaceReports(x, pats);
    var fetch, f := FetchFailures([run], pats), Failure(run.branch, run.at);
    assert EventsAt([x], pats) == [PlaceEvent(x, pats)] && [PlaceEvent(x, pats)][..0] == [];
    assert fetch == [PlaceEvent(x, pats)] && Located(fetch) == [f] && FailuresOf([f]) == {f};
    ConnectedToSelf({f}, f, WINDOW);
    assert Component({f}, f, WINDOW) == {f};
    assert Components({f}, WINDOW) == {{f}};
  }

  /** Two fetch failures are one incident exactly when they are on one branch and at most an
      hour apart. */
  lemma TwoFailures(a: Failure, b: Failure)
    ensures |Components({a, b}, WINDOW)|
            == if a.branch == b.branch && -3600000000 <= a.at - b.at <= 3600000000 then 1 else 2
  {
    var both := {a, b};
    SameComponent(both, a, b, WINDOW);
    assert Components(both, WINDOW) == {Component(both, a, WINDOW), Component(both, b, WINDOW)};
    if a.branch == b.branch && -3600000000 <= a.at - b.at <= 3600000000 {
      assert Joins(both, [a, b], a, b, WINDOW);
    } else if Connected(both, a, b, WINDOW) {
      var p :| Joins(both, p, a, b, WINDOW);
      StaysAt(a, b, p, |p| - 1);
    }
  }

  /** A path over two failures that are not near never leaves its start. */
  lemma {:induction false} StaysAt(a: Failure, b: Failure, p: seq<Failure>, i: nat)
    requires Path({a, b}, p, WINDOW) && p[0] == a && i < |p|
    requires !(a.branch == b.branch && -3600000000 <= a.at - b.at <= 3600000000)
    ensures p[i] == a && a != b
  {
    if i > 0 {
      StaysAt(a, b, p, i - 1);
      assert Near(p[i - 1], p[i - 1 + 1], WINDOW);
    }
  }

  lemma OneWrongPlace(run: RunRecord, job: Job, step: Step)
    requires run.jobs == [job] && job.steps == [step] && WentWrong(step)
    ensures WrongPlaces([run]) == [Place(run, job, step)]
  {
    var x := Place(run, job, step);
    GatheredOne(run, RunPlaces());
    GatheredOne(job, JobPlaces(run));
    GatheredOne(x, Wrong());
    assert StepPlaces(run, job, [step]) == [x];
  }

  // ----- the denominator -----

  /** Some packaging step of the run was not left out. */
  predicate Ran(run: RunRecord) {
    exists j :: 0 <= j < |run.jobs| && exists s :: s in run.jobs[j].steps && s.packaging && s.conclusion != Skipped
  }

  function DidRun(): RunRecord -> bool { (run: RunRecord) => Ran(run) }

  lemma {:induction false} ReleaseRunsRan(runs: seq<RunRecord>)
    ensures ReleaseRuns(runs) == CountOf(runs, DidRun())
  {
    if runs != [] {
      ReleaseRunsRan(runs[..|runs| - 1]);
      RanIff(runs[|runs| - 1]);
    }
  }

  lemma RanIff(run: RunRecord)
    ensures IsReleaseRun(run.jobs) <==> Ran(run)
  {
    if IsReleaseRun(run.jobs) {
      var j :| j in run.jobs && exists s :: s in j.steps && s.packaging && s.conclusion != Skipped;
      var i :| 0 <= i < |run.jobs| && run.jobs[i] == j;
    }
    if Ran(run) {
      var i :| 0 <= i < |run.jobs| && exists s :: s in run.jobs[i].steps && s.packaging && s.conclusion != Skipped;
      assert run.jobs[i] in run.jobs;
    }
  }
}
