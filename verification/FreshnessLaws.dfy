/** What a packaging build of hatch_build.py decides, read off the files and the commands. */
module FreshnessLaws {
  import opened Freshness
  import opened PyText

  /** The stamp names the sources that are there. */
  predicate StampNames(m: Machine, w: World) {
    && w.sources.Some? && w.stamp.Some? && m.read(w.stamp.value).Some?
    && m.read(w.stamp.value).value == m.digest(w.sources.value)
  }

  /** The four states of a board directory. */
  lemma StatesAre(m: Machine, w: World)
    ensures StateOf(m, w) == MissingBoard <==> INDEX !in w.bundle
    ensures StateOf(m, w) == SourceAbsent <==> INDEX in w.bundle && w.sources.None?
    ensures StateOf(m, w) == Current <==> INDEX in w.bundle && StampNames(m, w)
    ensures StateOf(m, w) == Stale <==> INDEX in w.bundle && w.sources.Some? && !StampNames(m, w)
  {
  }

  /** What the two commands leave. */
  function Left(w: World, b: Build): Files {
    if b.build.steps != [] then b.build.steps[|b.build.steps| - 1]
    else if b.install.steps != [] then b.install.steps[|b.install.steps| - 1]
    else Files(w.sources, w.bundle)
  }

  /** The commands can be run, return 0, leave an index, and there is room for the stamp. */
  predicate GoesWell(m: Machine, w: World, b: Build) {
    && m.packaged && m.npm && b.install.ok && b.build.ok && INDEX in Left(w, b).bundle
    && (Left(w, b).sources.Some? ==>
          b.room.Some? && |StampText(m.digest(Left(w, b).sources.value))| <= b.room.value)
  }

  lemma BuildsWell(m: Machine, w: World, b: Build)
    requires ReadsBack(m)
    ensures Succeeds(m, w, b) <==> GoesWell(m, w, b)
    ensures GoesWell(m, w, b) ==>
      StateOf(m, Last(w, Moments(m, w, b))) == if Left(w, b).sources.None? then SourceAbsent else Current
  {
    var built := Ran(Ran(w, b.install), b.build);
    assert built.sources == Left(w, b).sources && built.bundle == Left(w, b).bundle;
    if Succeeds(m, w, b) { SuccessIsCurrent(m, w, b); }
  }

  /** A build for distribution ships the board exactly when there is one and either nothing to
      compare it with, or a stamp that names the sources, or a rebuild that goes well with
      sources to stamp. Without a bundle it refuses as missing, else as stale; and it never
      warns or leaves the board out. */
  lemma DistributionShips(m: Machine, w: World, b: Build)
    requires ReadsBack(m)
    ensures PlanOf(m, w, b, false) == Ships(false) <==>
      INDEX in w.bundle
      && (w.sources.None? || StampNames(m, w) || (GoesWell(m, w, b) && Left(w, b).sources.Some?))
    ensures PlanOf(m, w, b, false) == Refused(MissingBoard) <==> INDEX !in w.bundle
    ensures PlanOf(m, w, b, false) in {Ships(false), Refused(MissingBoard), Refused(Stale)}
  {
    StatesAre(m, w);
    BuildsWell(m, w, b);
  }

  /** So commands that return 0, an index, and room for the stamp make a stale board ship. */
  lemma StaleShips(m: Machine, w: World, b: Build)
    requires ReadsBack(m) && StateOf(m, w) == Stale && GoesWell(m, w, b) && Left(w, b).sources.Some?
    ensures PlanOf(m, w, b, false) == Ships(false)
  {
    StatesAre(m, w);
    DistributionShips(m, w, b);
  }

  /** An editable install never refuses: a board that is there goes in, with a warning exactly
      when its stamp does not name the sources; a missing one goes in if a build goes well. */
  lemma EditableShips(m: Machine, w: World, b: Build)
    requires ReadsBack(m)
    ensures PlanOf(m, w, b, true) == Ships(true) <==> INDEX in w.bundle && w.sources.Some? && !StampNames(m, w)
    ensures PlanOf(m, w, b, true) == LeftOut <==> INDEX !in w.bundle && !GoesWell(m, w, b)
    ensures PlanOf(m, w, b, true) in {Ships(false), Ships(true), LeftOut}
  {
    StatesAre(m, w);
    BuildsWell(m, w, b);
  }
}
