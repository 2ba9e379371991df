/** The stamp-last rebuild of hatch_build.py as steps on a board that may be interrupted
    after any of them: no interruption passes for a fresh board. */
module Freshness {
  import opened PyText
  import D = Digest

  /** Vite's inputs under web/, and what stands under web/dist, path by path. */
  type Sources = map<string, D.Bytes>
  type Bundle = map<string, D.Bytes>

  /** The board at one moment; no sources in an sdist tree, no stamp before the first one. */
  datatype World = World(sources: Option<Sources>, bundle: Bundle, stamp: Option<string>)

  /** What does not change during a build: the digest, the reader of stamp texts, and whether
      npm and package.json are there. */
  datatype Machine = Machine(
    digest: Sources -> string, read: string -> Option<string>, npm: bool, packaged: bool)

  /** The stamp's text for a digest, as `json.dumps` lays it out. */
  function StampText(digest: string): string {
    "{\"algorithm\": \"sha256\", \"digest\": \"" + digest + "\", \"version\": 1}\n"
  }

  /** A complete stamp reads back; a cut one reads as nothing or as what it was to say (the
      text is complete without its last newline); an empty one as nothing. */
  ghost predicate ReadsBack(m: Machine) {
    && m.read("") == None
    && (forall s: Sources :: m.read(StampText(m.digest(s))) == Some(m.digest(s)))
    && (forall s: Sources, k: nat :: k <= |StampText(m.digest(s))| ==> CutReads(m, m.digest(s), k))
  }

  ghost predicate CutReads(m: Machine, digest: string, k: nat)
    requires k <= |StampText(digest)|
  { m.read(StampText(digest)[..k]) == None || m.read(StampText(digest)[..k]) == Some(digest) }

  datatype State = MissingBoard | SourceAbsent | Stale | Current

  const INDEX := "index.html"

  predicate StampMatches(m: Machine, w: World) {
    w.sources.Some? && w.stamp.Some? && m.read(w.stamp.value) == Some(m.digest(w.sources.value))
  }

  function StateOf(m: Machine, w: World): State {
    if INDEX !in w.bundle then MissingBoard
    else if w.sources.None? then SourceAbsent
    else if StampMatches(m, w) then Current else Stale
  }

  // ----- the steps of a build -----

  datatype Files = Files(sources: Option<Sources>, bundle: Bundle)

  /** A command's run: what it makes of the files, step by step, and whether it returned 0
      (a timeout or a failure to start is a run that did not). */
  datatype Command = Command(steps: seq<Files>, ok: bool)

  function Ran(w: World, c: Command): World {
    if c.steps == [] then w
    else w.(sources := c.steps[|c.steps| - 1].sources, bundle := c.steps[|c.steps| - 1].bundle)
  }

  /** Every moment of a command's run. */
  function Running(w: World, c: Command): seq<World> {
    seq(|c.steps|, i requires 0 <= i < |c.steps| => w.(sources := c.steps[i].sources, bundle := c.steps[i].bundle))
  }

  /** Every moment of writing a stamp: the file is truncated, then filled. `room` is how many
      characters get written before an error, `None` when the file cannot be opened. */
  function Stamping(w: World, text: string, room: Option<nat>): seq<World> {
    match room
    case None => []
    case Some(n) => seq((if n < |text| then n else |text|) + 1,
                        k requires 0 <= k <= (if n < |text| then n else |text|) => w.(stamp := Some(text[..k])))
  }

  predicate StampFits(text: string, room: Option<nat>) { room.Some? && |text| <= room.value }

  datatype Build = Build(install: Command, build: Command, room: Option<nat>)

  /** Every moment of a build, the first one excepted. */
  function Moments(m: Machine, w: World, b: Build): seq<World> {
    if !m.packaged || !m.npm then []
    else
      var installed := Ran(w, b.install);
      var built := Ran(installed, b.build);
      if !b.install.ok then Running(w, b.install)
      else if !b.build.ok || INDEX !in built.bundle || built.sources.None? then
        Running(w, b.install) + Running(installed, b.build)
      else
        Running(w, b.install) + Running(installed, b.build)
        + Stamping(built, StampText(m.digest(built.sources.value)), b.room)
  }

  predicate Succeeds(m: Machine, w: World, b: Build) {
    var built := Ran(Ran(w, b.install), b.build);
    && m.packaged && m.npm && b.install.ok && b.build.ok && INDEX in built.bundle
    && (built.sources.Some? ==> StampFits(StampText(m.digest(built.sources.value)), b.room))
  }

  function Last(w: World, moments: seq<World>): World { if moments == [] then w else moments[|moments| - 1] }

  /** The bundle goes in, with or without a warning; it is left out; or the build stops. */
  datatype Plan = Ships(warned: bool) | LeftOut | Refused(why: State)

  /** The table of decisions; a build, where one is tried, is followed through. */
  function PlanOf(m: Machine, w: World, b: Build, editable: bool): Plan {
    var built := StateOf(m, Last(w, Moments(m, w, b)));
    match StateOf(m, w)
    case Current => Ships(false)
    case SourceAbsent => Ships(false)
    case Stale =>
      if editable then Ships(true)
      else if Succeeds(m, w, b) && built == Current then Ships(false) else Refused(Stale)
    case MissingBoard =>
      if !editable then Refused(MissingBoard)
      else if Succeeds(m, w, b) && built in {Current, SourceAbsent} then Ships(false) else LeftOut
  }

  /** The board directory, updated in place; the history is what an interruption could leave. */
  class Board {
    const m: Machine
    var sources: Option<Sources>
    var bundle: Bundle
    var stamp: Option<string>
    ghost var history: seq<World>

    constructor (m: Machine, w: World)
      ensures this.m == m && Now() == w && history == []
    {
      this.m := m;
      sources, bundle, stamp := w.sources, w.bundle, w.stamp;
      history := [];
    }

    function Now(): World
      reads this
    { World(sources, bundle, stamp) }

    method Run(c: Command) returns (ok: bool)
      modifies this
      ensures ok == c.ok && Now() == Ran(old(Now()), c) && history == old(history) + Running(old(Now()), c)
    {
      for i := 0 to |c.steps|
        invariant stamp == old(stamp)
        invariant Now() == if i == 0 then old(Now()) else Running(old(Now()), c)[i - 1]
        invariant history == old(history) + Running(old(Now()), c)[..i]
      {
        sources, bundle := c.steps[i].sources, c.steps[i].bundle;
        history := history + [Now()];
      }
      ok := c.ok;
    }

    /** Truncates, then writes what there is room for. */
    method WriteStamp(digest: string, room: Option<nat>) returns (ok: bool)
      modifies this
      ensures ok == StampFits(StampText(digest), room)
      ensures history == old(history) + Stamping(old(Now()), StampText(digest), room)
      ensures Now() == Last(old(Now()), Stamping(old(Now()), StampText(digest), room))
    {
      var text := StampText(digest);
      if room.None? { return false; }
      ghost var moments := Stamping(Now(), text, room);
      stamp := Some("");
      history := history + [Now()];
      var written: nat := 0;
      assert text[..0] == "" && Now() == moments[0];
      while written < |text| && written < room.value
        invariant written <= |text| && written <= room.value && written < |moments|
        invariant sources == old(sources) && bundle == old(bundle) && stamp == Some(text[..written])
        invariant history == old(history) + moments[..written + 1]
      {
        written := written + 1;
        stamp := Some(text[..written]);
        history := history + [Now()];
        assert Now() == moments[written];
      }
      assert moments[..|moments|] == moments;
      ok := written == |text|;
    }

    /** The two npm commands, the second one only after the first returned 0. */
    method RunCommands(b: Build) returns (ok: bool)
      modifies this
      ensures ok == (b.install.ok && b.build.ok)
      ensures var installed := Ran(old(Now()), b.install);
        && Now() == (if b.install.ok then Ran(installed, b.build) else installed)
        && history == old(history) + (Running(old(Now()), b.install)
                        + if b.install.ok then Running(installed, b.build) else [])
    {
      ok := Run(b.install);
      if !ok { return; }
      ok := Run(b.build);
    }

    method TryBuildBoard(b: Build) returns (ok: bool)
      modifies this
      ensures ok == Succeeds(m, old(Now()), b)
      ensures history == old(history) + Moments(m, old(Now()), b)
      ensures Now() == Last(old(Now()), Moments(m, old(Now()), b))
    {
      if !m.packaged || !m.npm { return false; }
      ok := RunCommands(b);
      if !ok { return; }
      if INDEX !in bundle { return false; }
      if sources.None? { return true; }
      ok := WriteStamp(m.digest(sources.value), b.room);
    }

    /** `None` when the board may be shipped, else which refusal is raised. */
    method RebuildBoardOrRaise(b: Build, stale: bool) returns (refusal: Option<State>)
      modifies this
      ensures refusal.None? <==> m.npm && Succeeds(m, old(Now()), b) && StateOf(m, Now()) == Current
      ensures refusal.Some? ==>
        (refusal.value == if stale || (m.npm && Succeeds(m, old(Now()), b) && StateOf(m, old(Now())) == Stale)
                          then Stale else MissingBoard)
      ensures history == old(history) + Moments(m, old(Now()), b)
      ensures Now() == Last(old(Now()), Moments(m, old(Now()), b))
    {
      var previous := StateOf(m, Now());
      if !m.npm { return Some(if stale then Stale else MissingBoard); }
      var ok := TryBuildBoard(b);
      if !ok { return Some(if stale then Stale else MissingBoard); }
      if StateOf(m, Now()) == Current { return None; }
      return Some(if stale || previous == Stale then Stale else MissingBoard);
    }

    method PlanBoardInclusion(b: Build, editable: bool) returns (plan: Plan)
      modifies this
      ensures plan.Ships? && !editable ==> !plan.warned && StateOf(m, Now()) in {Current, SourceAbsent}
      ensures plan.Ships? && !plan.warned ==> StateOf(m, Now()) in {Current, SourceAbsent}
      ensures plan == PlanOf(m, old(Now()), b, editable)
      ensures var tries := StateOf(m, old(Now())) == if editable then MissingBoard else Stale;
        && history == old(history) + (if tries then Moments(m, old(Now()), b) else [])
        && Now() == if tries then Last(old(Now()), Moments(m, old(Now()), b)) else old(Now())
    {
      var state := StateOf(m, Now());
      if state == Current || state == SourceAbsent { return Ships(false); }
      if editable {
        if state == MissingBoard {
          var ok := TryBuildBoard(b);
          if ok && StateOf(m, Now()) in {Current, SourceAbsent} { return Ships(false); }
          return LeftOut;
        }
        return Ships(true);
      }
      if state == MissingBoard { return Refused(MissingBoard); }
      var refusal := RebuildBoardOrRaise(b, true);
      if refusal.Some? { return Refused(refusal.value); }
      return Ships(false);
    }
  }

  // ----- what a fresh board is -----

  /** `output(s, b)`: the bundle is what a finished build of those sources leaves. */
  type Output = (Sources, Bundle) -> bool

  /** A board that reads as current is one built from the sources beside it. */
  ghost predicate Genuine(m: Machine, output: Output, w: World) {
    StateOf(m, w) == Current ==> output(w.sources.value, w.bundle)
  }

  /** When the build command returns 0, its bundle is the output of the sources it started on. */
  ghost predicate Honest(output: Output, w: World, b: Build) {
    var installed := Ran(w, b.install);
    b.build.ok && installed.sources.Some? ==> output(installed.sources.value, Ran(installed, b.build).bundle)
  }

  ghost predicate Still(sources: Option<Sources>, c: Command) {
    forall i :: 0 <= i < |c.steps| ==> c.steps[i].sources == sources
  }

  /** Inputs held fixed: neither command touches the sources. */
  ghost predicate InputsFixed(w: World, b: Build) { Still(w.sources, b.install) && Still(w.sources, b.build) }

  lemma RunKeeps(m: Machine, output: Output, w: World, c: Command, x: World)
    requires Still(w.sources, c) && !StampMatches(m, w) && x in Running(w, c)
    ensures Genuine(m, output, x)
  {
  }

  lemma StampingKeeps(m: Machine, output: Output, w: World, room: Option<nat>, x: World)
    requires ReadsBack(m) && w.sources.Some? && output(w.sources.value, w.bundle)
    requires x in Stamping(w, StampText(m.digest(w.sources.value)), room)
    ensures Genuine(m, output, x)
  {
  }

  /** From a board whose stamp does not match, with its inputs held fixed: whatever moment
      the rebuild is interrupted at, a board that reads as current is genuine. */
  lemma NoFalseCurrent(m: Machine, output: Output, w: World, b: Build, x: World)
    requires ReadsBack(m) && !StampMatches(m, w) && Honest(output, w, b) && InputsFixed(w, b)
    requires x in Moments(m, w, b)
    ensures Genuine(m, output, x)
  {
    var installed := Ran(w, b.install);
    var built := Ran(installed, b.build);
    assert installed.sources == w.sources == built.sources && installed.stamp == w.stamp;
    if x in Running(w, b.install) {
      RunKeeps(m, output, w, b.install, x);
    } else if x in Running(installed, b.build) {
      RunKeeps(m, output, installed, b.build, x);
    } else {
      StampingKeeps(m, output, built, b.room, x);
    }
  }

  /** So what a distributable build ships after rebuilding a stale board is genuine. */
  lemma RebuiltIsGenuine(m: Machine, output: Output, w: World, b: Build)
    requires ReadsBack(m) && StateOf(m, w) == Stale && Honest(output, w, b) && InputsFixed(w, b)
    requires StateOf(m, Last(w, Moments(m, w, b))) == Current
    ensures var shipped := Last(w, Moments(m, w, b));
      shipped.sources == w.sources && output(w.sources.value, shipped.bundle)
  {
    var moments := Moments(m, w, b);
    assert moments != [];
    assert moments[|moments| - 1] in moments;
    NoFalseCurrent(m, output, w, b, moments[|moments| - 1]);
    forall x | x in moments ensures x.sources == w.sources {}
  }

  /** No interruption of any build from here passes for fresh. */
  ghost predicate Safe(m: Machine, output: Output, w: World) {
    forall b: Build, x: World :: Honest(output, w, b) && InputsFixed(w, b) && x in Moments(m, w, b)
      ==> Genuine(m, output, x)
  }

  /** That takes a stamp that does not match, and nothing else. A board whose bundle was
      deleted but whose stamp still matches is not safe to rebuild: a half-written bundle
      reads as current. */
  lemma SafeIff(m: Machine, output: Output, w: World, half: Bundle)
    requires ReadsBack(m) && m.npm && m.packaged && w.sources.Some?
    requires INDEX in half && !output(w.sources.value, half)
    ensures Safe(m, output, w) <==> !StampMatches(m, w)
  {
    if StampMatches(m, w) {
      var b := Build(Command([], true), Command([Files(w.sources, half)], false), None);
      var x := w.(bundle := half);
      assert Running(w, b.install) == [] && Running(w, b.build) == [x];
      assert Moments(m, w, b) == [] + [x] && x in Moments(m, w, b);
      assert !Genuine(m, output, x);
    } else {
      forall b: Build, x: World | Honest(output, w, b) && InputsFixed(w, b) && x in Moments(m, w, b)
        ensures Genuine(m, output, x)
      {
        NoFalseCurrent(m, output, w, b, x);
      }
    }
  }

  /** A build that succeeds leaves a current board (an sdist tree has nothing to compare). */
  lemma SuccessIsCurrent(m: Machine, w: World, b: Build)
    requires ReadsBack(m) && Succeeds(m, w, b)
    ensures StateOf(m, Last(w, Moments(m, w, b)))
            == if Ran(Ran(w, b.install), b.build).sources.None? then SourceAbsent else Current
  {
    var installed := Ran(w, b.install);
    var built := Ran(installed, b.build);
    EndOfRun(w, b.install);
    EndOfRun(installed, b.build);
    if built.sources.Some? {
      var text := StampText(m.digest(built.sources.value));
      var moments := Stamping(built, text, b.room);
      assert text[..|text|] == text && moments[|moments| - 1] == built.(stamp := Some(text));
      assert Last(w, Moments(m, w, b)) == moments[|moments| - 1];
    } else {
      assert Moments(m, w, b) == Running(w, b.install) + Running(installed, b.build);
      assert Last(w, Moments(m, w, b)) == built;
    }
  }

  lemma EndOfRun(w: World, c: Command)
    ensures Ran(w, c) == Last(w, Running(w, c))
  {
  }

  /** The stamp is taken after the build and vouches for the sources it finds then, whatever
      the build command saw. */
  lemma SuccessVouches(m: Machine, output: Output, w: World, b: Build)
    requires ReadsBack(m) && Succeeds(m, w, b) && Ran(Ran(w, b.install), b.build).sources.Some?
    ensures var built := Ran(Ran(w, b.install), b.build);
      Genuine(m, output, Last(w, Moments(m, w, b))) <==> output(built.sources.value, built.bundle)
  {
    var built := Ran(Ran(w, b.install), b.build);
    SuccessIsCurrent(m, w, b);
    var text := StampText(m.digest(built.sources.value));
    var moments := Stamping(built, text, b.room);
    assert Last(w, Moments(m, w, b)) == moments[|moments| - 1];
    assert moments[|moments| - 1].sources == built.sources && moments[|moments| - 1].bundle == built.bundle;
  }

  /** A successful build whose build command found the sources as `s` and left them as `t`. */
  ghost predicate BuildsAcross(m: Machine, output: Output, w: World, b: Build, s: Sources, t: Sources) {
    && Succeeds(m, w, b) && Honest(output, w, b)
    && Ran(w, b.install).sources == Some(s) && Ran(Ran(w, b.install), b.build).sources == Some(t)
  }

  /** Sources may change under the build command without harm exactly when every bundle of
      the old ones is a bundle of the new ones: sources left alone, or changed without effect. */
  lemma GenuineIffInterchangeable(m: Machine, output: Output, s: Sources, t: Sources)
    requires ReadsBack(m) && m.npm && m.packaged
    ensures (forall w: World, b: Build :: BuildsAcross(m, output, w, b, s, t)
                  ==> Genuine(m, output, Last(w, Moments(m, w, b))))
            <==> (forall d: Bundle :: INDEX in d && output(s, d) ==> output(t, d))
  {
    if forall d: Bundle :: INDEX in d && output(s, d) ==> output(t, d) {
      forall w: World, b: Build | BuildsAcross(m, output, w, b, s, t)
        ensures Genuine(m, output, Last(w, Moments(m, w, b))) {
        SuccessVouches(m, output, w, b);
      }
    } else {
      var d: Bundle :| INDEX in d && output(s, d) && !output(t, d);
      var w := World(Some(s), map[], None);
      var b := Build(Command([], true), Command([Files(Some(t), d)], true), Some(|StampText(m.digest(t))|));
      assert BuildsAcross(m, output, w, b, s, t);
      SuccessVouches(m, output, w, b);
    }
  }

  // ----- many edits and interrupted rebuilds -----

  /** What can happen to a board: its sources are edited, its bundle is deleted, a rebuild is
      started and interrupted after `cut` moments (or runs to its end, if it has no more). */
  datatype Act = Edit(sources: Option<Sources>) | Discard | Rebuild(b: Build, cut: nat)

  /** A board, and whether its bundle has been touched since the stamp was last written. */
  datatype Trail = Trail(w: World, dirty: bool)

  /** How many moments of its rebuild the act gets to. */
  function Reached(m: Machine, w: World, b: Build, cut: nat): (k: nat)
    ensures k <= |Moments(m, w, b)|
  { if cut < |Moments(m, w, b)| then cut else |Moments(m, w, b)| }

  /** The moments of the two commands, which may write the bundle. */
  function Early(b: Build): nat { |b.install.steps| + |b.build.steps| }

  function Step(m: Machine, t: Trail, a: Act): Trail {
    match a
    case Edit(sources) => t.(w := t.w.(sources := sources))
    case Discard => Trail(t.w.(bundle := map[]), true)
    case Rebuild(b, cut) =>
      var k := Reached(m, t.w, b, cut);
      if k == 0 then t else Trail(Moments(m, t.w, b)[k - 1], k <= Early(b))
  }

  function After(m: Machine, t: Trail, acts: seq<Act>, i: nat): Trail
    requires i <= |acts|
  { if i == 0 then t else Step(m, After(m, t, acts, i - 1), acts[i - 1]) }

  /** The stamp speaks for the bundle: for whichever of these trees it names, the bundle is an
      output of that tree. */
  ghost predicate Vouched(m: Machine, output: Output, trees: set<Sources>, w: World) {
    w.stamp.Some? ==> forall s :: s in trees && m.read(w.stamp.value) == Some(m.digest(s)) ==> output(s, w.bundle)
  }

  ghost predicate Trusted(m: Machine, output: Output, trees: set<Sources>, t: Trail) {
    !t.dirty ==> Vouched(m, output, trees, t.w)
  }

  ghost predicate ToldApart(m: Machine, trees: set<Sources>) {
    forall s, u :: s in trees && u in trees && m.digest(s) == m.digest(u) ==> s == u
  }

  /** A rebuild is honest and leaves the sources alone; the sources are among the trees. */
  ghost predicate FairAct(m: Machine, output: Output, trees: set<Sources>, t: Trail, a: Act) {
    && (t.w.sources.Some? ==> t.w.sources.value in trees)
    && (a.Rebuild? ==> Honest(output, t.w, a.b) && InputsFixed(t.w, a.b))
    && (a.Edit? && a.sources.Some? ==> a.sources.value in trees)
  }

  ghost predicate FairRun(m: Machine, output: Output, trees: set<Sources>, t: Trail, acts: seq<Act>) {
    && (t.w.sources.Some? ==> t.w.sources.value in trees)
    && forall i :: 0 <= i < |acts| ==> FairAct(m, output, trees, After(m, t, acts, i), acts[i])
  }

  lemma RunningKeepsSources(w: World, c: Command)
    requires Still(w.sources, c)
    ensures Ran(w, c).sources == w.sources && Ran(w, c).stamp == w.stamp
    ensures forall x :: x in Running(w, c) ==> x.sources == w.sources && x.stamp == w.stamp
  {
  }

  /** What the stamp comes to say while it is written is true. */
  lemma StampingVouches(m: Machine, output: Output, trees: set<Sources>, w: World, room: Option<nat>, x: World)
    requires ReadsBack(m) && ToldApart(m, trees) && w.sources.Some? && w.sources.value in trees
    requires output(w.sources.value, w.bundle)
    requires x in Stamping(w, StampText(m.digest(w.sources.value)), room)
    ensures Vouched(m, output, trees, x) && x.sources == w.sources
  {
    var k :| 0 <= k < |Stamping(w, StampText(m.digest(w.sources.value)), room)|
             && x == Stamping(w, StampText(m.digest(w.sources.value)), room)[k];
    assert CutReads(m, m.digest(w.sources.value), k);
  }

  /** A moment past the two commands is one of the stamp being written. */
  lemma LateMoment(m: Machine, output: Output, trees: set<Sources>, w: World, b: Build, k: nat)
    requires ReadsBack(m) && ToldApart(m, trees) && Honest(output, w, b) && InputsFixed(w, b)
    requires w.sources.Some? ==> w.sources.value in trees
    requires Early(b) < k <= |Moments(m, w, b)|
    ensures Vouched(m, output, trees, Moments(m, w, b)[k - 1])
  {
    var installed := Ran(w, b.install);
    var built := Ran(installed, b.build);
    RunningKeepsSources(w, b.install);
    RunningKeepsSources(installed, b.build);
    var early := Running(w, b.install) + Running(installed, b.build);
    var late := Stamping(built, StampText(m.digest(built.sources.value)), b.room);
    assert Moments(m, w, b) == early + late && |early| == Early(b);
    assert Moments(m, w, b)[k - 1] == late[k - 1 - |early|];
    StampingVouches(m, output, trees, built, b.room, late[k - 1 - |early|]);
  }

  lemma SourcesStay(m: Machine, w: World, b: Build, k: nat)
    requires InputsFixed(w, b) && k < |Moments(m, w, b)|
    ensures Moments(m, w, b)[k].sources == w.sources
  {
    RunningKeepsSources(w, b.install);
    RunningKeepsSources(Ran(w, b.install), b.build);
  }

  lemma StepKeepsTrust(m: Machine, output: Output, trees: set<Sources>, t: Trail, a: Act)
    requires ReadsBack(m) && ToldApart(m, trees) && FairAct(m, output, trees, t, a) && Trusted(m, output, trees, t)
    ensures var next := Step(m, t, a);
      Trusted(m, output, trees, next) && (next.w.sources.Some? ==> next.w.sources.value in trees)
  {
    if a.Rebuild? {
      var k := Reached(m, t.w, a.b, a.cut);
      if k > 0 { SourcesStay(m, t.w, a.b, k - 1); }
      if k > Early(a.b) { LateMoment(m, output, trees, t.w, a.b, k); }
    }
  }

  lemma {:induction false} RunKeepsTrust(m: Machine, output: Output, trees: set<Sources>, t: Trail,
              acts: seq<Act>, i: nat)
    requires ReadsBack(m) && ToldApart(m, trees) && FairRun(m, output, trees, t, acts) && i <= |acts|
    requires Trusted(m, output, trees, t)
    ensures Trusted(m, output, trees, After(m, t, acts, i))
    ensures After(m, t, acts, i).w.sources.Some? ==> After(m, t, acts, i).w.sources.value in trees
  {
    if i > 0 {
      RunKeepsTrust(m, output, trees, t, acts, i - 1);
      StepKeepsTrust(m, output, trees, After(m, t, acts, i - 1), acts[i - 1]);
    }
  }

  /** A bundle touched since the stamp, over sources the stamp names again. */
  predicate Exposed(m: Machine, t: Trail) { t.dirty && StampMatches(m, t.w) && INDEX in t.w.bundle }

  /** Along every run of edits, deletions and interrupted rebuilds, a board that reads as
      current is genuine, except where the sources have come back to those of the stamp
      while the bundle has been touched since. */
  lemma RunIsGenuine(m: Machine, output: Output, trees: set<Sources>, t: Trail, acts: seq<Act>, i: nat)
    requires ReadsBack(m) && ToldApart(m, trees) && FairRun(m, output, trees, t, acts) && i <= |acts|
    requires Trusted(m, output, trees, t) && !Exposed(m, After(m, t, acts, i))
    ensures Genuine(m, output, After(m, t, acts, i).w)
  {
    RunKeepsTrust(m, output, trees, t, acts, i);
  }

  // ----- what an interruption may have left -----

  /** What a moment shows without a look into the bundle. */
  datatype Outline = Outline(sources: Option<Sources>, stamp: Option<string>, indexed: bool, dirty: bool)

  function OutlineOf(t: Trail): Outline { Outline(t.w.sources, t.w.stamp, INDEX in t.w.bundle, t.dirty) }

  /** Two runs that differ in what stands in their bundles, at most. */
  ghost predicate SameOutline(m: Machine, t: Trail, acts: seq<Act>, t': Trail, acts': seq<Act>) {
    && |acts| == |acts'|
    && forall i :: 0 <= i <= |acts| ==> OutlineOf(After(m, t, acts, i)) == OutlineOf(After(m, t', acts', i))
  }

  /** A bundle touched since the stamp holds `half`; an untouched one is as it was. */
  function Filled(t: Trail, half: Bundle): Trail {
    t.(w := t.w.(bundle := if !t.dirty then t.w.bundle else if INDEX in t.w.bundle then half else map[]))
  }

  /** The act that fills the next moment so: an interrupted rebuild that leaves `half`, or one
      that brings its finished bundle about in one step. */
  function FillAct(m: Machine, t: Trail, a: Act, half: Bundle): Act {
    if !a.Rebuild? then a
    else
      var k := Reached(m, t.w, a.b, a.cut);
      if k == 0 then Edit(t.w.sources)
      else
        var bundle := Moments(m, t.w, a.b)[k - 1].bundle;
        if k <= Early(a.b) then LeaveHalf(t.w, if INDEX in bundle then half else map[])
        else Finish(t.w, bundle, a.b.room, k - Early(a.b))
  }

  function LeaveHalf(w: World, bundle: Bundle): Act {
    Rebuild(Build(Command([], true), Command([Files(w.sources, bundle)], false), None), 1)
  }

  function Finish(w: World, bundle: Bundle, room: Option<nat>, k: nat): Act {
    Rebuild(Build(Command([], true), Command([Files(w.sources, bundle)], true), room), 1 + k)
  }

  /** A moment of the two commands has the stamp of the start. */
  lemma EarlyMoment(m: Machine, w: World, b: Build, k: nat)
    requires InputsFixed(w, b) && k < |Moments(m, w, b)| && k < Early(b)
    ensures m.packaged && m.npm && Moments(m, w, b)[k] == w.(bundle := Moments(m, w, b)[k].bundle)
  {
    RunningKeepsSources(w, b.install);
    RunningKeepsSources(Ran(w, b.install), b.build);
  }

  lemma LeavesHalf(m: Machine, output: Output, w: World, bundle: Bundle)
    requires m.packaged && m.npm
    ensures var a := LeaveHalf(w, bundle); Honest(output, w, a.b) && InputsFixed(w, a.b)
    ensures forall dirty :: Step(m, Trail(w, dirty), LeaveHalf(w, bundle)) == Trail(w.(bundle := bundle), true)
  {
    var b := LeaveHalf(w, bundle).b;
    assert Running(w, b.install) == [] && Moments(m, w, b) == [] + [w.(bundle := bundle)];
  }

  /** A later one has the finished bundle, and as much of the stamp as was written. */
  lemma FinishedMoment(m: Machine, w: World, b: Build, k: nat)
    requires InputsFixed(w, b) && Early(b) < k <= |Moments(m, w, b)|
    ensures m.packaged && m.npm && b.build.ok && w.sources.Some? && b.room.Some?
    ensures var built := Ran(Ran(w, b.install), b.build);
      && Ran(w, b.install).sources == w.sources && INDEX in built.bundle
      && k - Early(b) <= Written(m, w.sources.value, b.room.value)
      && Moments(m, w, b)[k - 1] == Stamped(m, w.(bundle := built.bundle), k - Early(b))
  {
    var installed := Ran(w, b.install);
    var built := Ran(installed, b.build);
    RunningKeepsSources(w, b.install);
    RunningKeepsSources(installed, b.build);
    var early := Running(w, b.install) + Running(installed, b.build);
    var late := Stamping(built, StampText(m.digest(built.sources.value)), b.room);
    assert Moments(m, w, b) == early + late && Moments(m, w, b)[k - 1] == late[k - 1 - |early|];
  }

  /** The moments of a stamp being written, and the board at one of them. */
  function Written(m: Machine, sources: Sources, room: nat): nat {
    1 + if room < |StampText(m.digest(sources))| then room else |StampText(m.digest(sources))|
  }

  function Stamped(m: Machine, w: World, k: nat): World
    requires w.sources.Some? && 0 < k <= 1 + |StampText(m.digest(w.sources.value))|
  { w.(stamp := Some(StampText(m.digest(w.sources.value))[..k - 1])) }

  lemma Finishes(m: Machine, output: Output, w: World, bundle: Bundle, room: nat, k: nat)
    requires m.packaged && m.npm && w.sources.Some? && INDEX in bundle && output(w.sources.value, bundle)
    requires 0 < k <= Written(m, w.sources.value, room)
    ensures var a := Finish(w, bundle, Some(room), k); Honest(output, w, a.b) && InputsFixed(w, a.b)
    ensures forall dirty :: Step(m, Trail(w, dirty), Finish(w, bundle, Some(room), k))
                            == Trail(Stamped(m, w.(bundle := bundle), k), false)
  {
    var b, built := Finish(w, bundle, Some(room), k).b, w.(bundle := bundle);
    assert Running(w, b.install) == [] && Running(w, b.build) == [built];
    assert Moments(m, w, b) == [] + [built] + Stamping(built, StampText(m.digest(w.sources.value)), b.room);
  }

  /** The act in `FillAct` is fair and fills the moment. */
  ghost predicate Fills(m: Machine, output: Output, trees: set<Sources>, t: Trail, a: Act, half: Bundle) {
    && FairAct(m, output, trees, Filled(t, half), FillAct(m, t, a, half))
    && Step(m, Filled(t, half), FillAct(m, t, a, half)) == Filled(Step(m, t, a), half)
  }

  lemma FillEarly(m: Machine, output: Output, trees: set<Sources>, t: Trail, b: Build, cut: nat, half: Bundle)
    requires FairAct(m, output, trees, t, Rebuild(b, cut)) && 0 < Reached(m, t.w, b, cut) <= Early(b)
    ensures Fills(m, output, trees, t, Rebuild(b, cut), half)
  {
    var bundle := Moments(m, t.w, b)[Reached(m, t.w, b, cut) - 1].bundle;
    EarlyMoment(m, t.w, b, Reached(m, t.w, b, cut) - 1);
    LeavesHalf(m, output, Filled(t, half).w, if INDEX in bundle then half else map[]);
  }

  lemma FillLate(m: Machine, output: Output, trees: set<Sources>, t: Trail, b: Build, cut: nat, half: Bundle)
    requires FairAct(m, output, trees, t, Rebuild(b, cut)) && Reached(m, t.w, b, cut) > Early(b)
    ensures Fills(m, output, trees, t, Rebuild(b, cut), half)
  {
    var k := Reached(m, t.w, b, cut);
    FinishedMoment(m, t.w, b, k);
    var bundle := Ran(Ran(t.w, b.install), b.build).bundle;
    assert FillAct(m, t, Rebuild(b, cut), half) == Finish(Filled(t, half).w, bundle, b.room, k - Early(b));
    Finishes(m, output, Filled(t, half).w, bundle, b.room.value, k - Early(b));
  }

  lemma FillStep(m: Machine, output: Output, trees: set<Sources>, t: Trail, a: Act, half: Bundle)
    requires FairAct(m, output, trees, t, a)
    ensures Fills(m, output, trees, t, a, half)
  {
    if a.Rebuild? && Reached(m, t.w, a.b, a.cut) > Early(a.b) {
      FillLate(m, output, trees, t, a.b, a.cut, half);
    } else if a.Rebuild? && Reached(m, t.w, a.b, a.cut) > 0 {
      FillEarly(m, output, trees, t, a.b, a.cut, half);
    }
  }

  function FillActs(m: Machine, t: Trail, acts: seq<Act>, half: Bundle): seq<Act> {
    seq(|acts|, i requires 0 <= i < |acts| => FillAct(m, After(m, t, acts, i), acts[i], half))
  }

  lemma {:induction false} FillRun(m: Machine, output: Output, trees: set<Sources>, t: Trail, acts: seq<Act>,
                                     half: Bundle, i: nat)
    requires FairRun(m, output, trees, t, acts) && i <= |acts|
    ensures After(m, Filled(t, half), FillActs(m, t, acts, half), i) == Filled(After(m, t, acts, i), half)
  {
    if i > 0 {
      FillRun(m, output, trees, t, acts, half, i - 1);
      FillStep(m, output, trees, After(m, t, acts, i - 1), acts[i - 1], half);
    }
  }

  ghost predicate GenuineRun(m: Machine, output: Output, t: Trail, acts: seq<Act>) {
    forall i :: 0 <= i <= |acts| ==> Genuine(m, output, After(m, t, acts, i).w)
  }

  /** A fair run from a board whose stamp can be trusted. */
  ghost predicate Sound(m: Machine, output: Output, trees: set<Sources>, t: Trail, acts: seq<Act>) {
    FairRun(m, output, trees, t, acts) && Trusted(m, output, trees, t)
  }

  /** A run that is exposed could as well have been this one, which lies. */
  lemma ExposedLies(m: Machine, output: Output, trees: set<Sources>, t: Trail, acts: seq<Act>, i: nat, half: Bundle)
    returns (t': Trail, acts': seq<Act>)
    requires Sound(m, output, trees, t, acts)
    requires i <= |acts| && Exposed(m, After(m, t, acts, i))
    requires INDEX in half && !output(After(m, t, acts, i).w.sources.value, half)
    ensures Sound(m, output, trees, t', acts')
    ensures SameOutline(m, t, acts, t', acts') && !GenuineRun(m, output, t', acts')
  {
    t', acts' := Filled(t, half), FillActs(m, t, acts, half);
    forall k | 0 <= k <= |acts|
      ensures After(m, t', acts', k) == Filled(After(m, t, acts, k), half)
      ensures k < |acts| ==> FairAct(m, output, trees, After(m, t', acts', k), acts'[k])
    {
      FillRun(m, output, trees, t, acts, half, k);
      if k < |acts| { FillStep(m, output, trees, After(m, t, acts, k), acts[k], half); }
    }
    assert !Genuine(m, output, After(m, t', acts', i).w);
  }

  /** And there alone. Of all the runs that go the same way but for what stands in their
      bundles, every one is genuine throughout if and only if the way is never exposed. All it
      takes of the build is that some bundle with an index is no output of a tree, as a
      half-written one. */
  lemma RunIsGenuineIff(m: Machine, output: Output, trees: set<Sources>, t: Trail, acts: seq<Act>)
    requires ReadsBack(m) && ToldApart(m, trees) && Sound(m, output, trees, t, acts)
    requires forall s :: s in trees ==> exists half: Bundle :: INDEX in half && !output(s, half)
    ensures (forall t', acts' :: Sound(m, output, trees, t', acts') && SameOutline(m, t, acts, t', acts')
               ==> GenuineRun(m, output, t', acts'))
            <==> (forall i :: 0 <= i <= |acts| ==> !Exposed(m, After(m, t, acts, i)))
  {
    if forall i :: 0 <= i <= |acts| ==> !Exposed(m, After(m, t, acts, i)) {
      forall t', acts' | Sound(m, output, trees, t', acts') && SameOutline(m, t, acts, t', acts')
        ensures GenuineRun(m, output, t', acts')
      {
        forall i | 0 <= i <= |acts'| ensures Genuine(m, output, After(m, t', acts', i).w) {
          assert OutlineOf(After(m, t, acts, i)) == OutlineOf(After(m, t', acts', i));
          assert !Exposed(m, After(m, t, acts, i));
          RunIsGenuine(m, output, trees, t', acts', i);
        }
      }
    } else {
      var i :| 0 <= i <= |acts| && Exposed(m, After(m, t, acts, i));
      RunKeepsTrust(m, output, trees, t, acts, i);
      var s := After(m, t, acts, i).w.sources.value;
      var half: Bundle :| INDEX in half && !output(s, half);
      var t', acts' := ExposedLies(m, output, trees, t, acts, i, half);
    }
  }

  /** Such a run: edit, start the rebuild of what is now stale, interrupt it, undo the edit.
      The half-written bundle then reads as current. */
  lemma RevertLies(m: Machine, output: Output, old': Sources, new': Sources, good: Bundle, half: Bundle)
    returns (t: Trail, acts: seq<Act>)
    requires ReadsBack(m) && m.npm && m.packaged && m.digest(old') != m.digest(new')
    requires INDEX in good && output(old', good) && INDEX in half && !output(old', half)
    ensures |acts| == 3 && acts[0] == Edit(Some(new')) && acts[1].Rebuild? && acts[2] == Edit(Some(old'))
    ensures t == Trail(World(Some(old'), good, Some(StampText(m.digest(old')))), false)
    ensures FairRun(m, output, {old', new'}, t, acts) && Trusted(m, output, {old', new'}, t)
    ensures StateOf(m, t.w) == Current && StateOf(m, After(m, t, acts, 1).w) == Stale
    ensures StateOf(m, After(m, t, acts, 3).w) == Current && !Genuine(m, output, After(m, t, acts, 3).w)
  {
    var b := Build(Command([], true), Command([Files(Some(new'), half)], false), None);
    t := Trail(World(Some(old'), good, Some(StampText(m.digest(old')))), false);
    acts := [Edit(Some(new')), Rebuild(b, 1), Edit(Some(old'))];
    var edited := After(m, t, acts, 1);
    assert After(m, t, acts, 0) == t && edited == Step(m, t, acts[0]);
    assert Running(edited.w, b.install) == [] && Moments(m, edited.w, b) == [] + [edited.w.(bundle := half)];
    var torn := After(m, t, acts, 2);
    assert torn == Step(m, edited, acts[1]) && torn == Trail(edited.w.(bundle := half), true);
    assert After(m, t, acts, 3) == Step(m, torn, acts[2]);
  }
}
