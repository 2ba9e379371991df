/** What the figures of scripts/navigation_value.py say of a corpus: each read against the
    window it stands in, each total against the reads, the decision against the sums. */
module NavigationLaws {
  import opened Corpora
  import opened Counting
  import opened Navigation
  import opened PyText

  // ----- one read -----

  function Reading(): Call -> bool { (c: Call) => c.tool == "Read" || c.tool == "View" }

  /** A result of known size. */
  predicate Sized(c: Call, sizes: Sizes) { c.useId.Some? && c.useId.value != "" && c.useId.value in sizes }

  /** An earlier call, at most `lookback` before, that searched for a symbol. */
  predicate JustSearched(w: Window, i: nat, lookback: nat)
    requires i < |w|
  { exists j :: 0 <= j < i && i - j <= lookback && w[j].symbolSearch }

  predicate ReadEarlier(w: Window, i: nat)
    requires i < |w|
  { exists j :: 0 <= j < i && Reading()(w[j]) && w[j].pathKey == w[i].pathKey }

  /** What is known of the read call at place `i` of a window. */
  ghost predicate ReadsAs(w: Window, i: nat, sizes: Sizes, p: Params, largeRead: nat, r: ReadCall)
    requires i < |w|
  {
    var c := w[i];
    && r.extension == c.extension && r.windowed == c.windowed && r.turnsAfter + i + 1 == |w|
    && (if Sized(c, sizes) then r.chars == Some(sizes[c.useId.value].chars as nat) else r.chars == None)
    && (r.sidechain <==> c.sidechain || (Sized(c, sizes) && sizes[c.useId.value].fromSubagent))
    && (r.symbolLookup <==> c.extension in p.codeExtensions && JustSearched(w, i, p.lookback))
    && (r.wholeFile <==> c.extension in p.codeExtensions && !c.windowed && r.chars.Some? && r.chars.value >= largeRead)
    && (r.repeated <==> c.pathKey != "" && ReadEarlier(w, i))
  }

  lemma OneRead(w: Window, i: nat, sizes: Sizes, p: Params, largeRead: nat)
    requires i < |w| && Reading()(w[i])
    ensures ReadsAs(w, i, sizes, p, largeRead, ReadAt(w, i, sizes, p, largeRead))
  {
    assert ReadBefore(w, i) <==> ReadEarlier(w, i);
    assert SearchedBefore(w, i, p.lookback) <==> JustSearched(w, i, p.lookback);
  }

  /** The read made of the call at place `i`. */
  ghost predicate ReadFor(w: Window, i: nat, sizes: Sizes, p: Params, largeRead: nat, rs: seq<ReadCall>)
    requires i < |w|
  {
    var k := CountOf(w[..i], Reading());
    k < |rs| && ReadsAs(w, i, sizes, p, largeRead, rs[k])
  }

  /** A window has one read for each of its read calls, in order, and no other. */
  lemma {:induction false} WindowReads(w: Window, n: nat, sizes: Sizes, p: Params, largeRead: nat)
    requires n <= |w|
    ensures var rs := ReadsUpTo(w, n, sizes, p, largeRead);
      && |rs| == CountOf(w[..n], Reading())
      && forall i :: 0 <= i < n && Reading()(w[i]) ==> ReadFor(w, i, sizes, p, largeRead, rs)
  {
    if n > 0 {
      WindowReads(w, n - 1, sizes, p, largeRead);
      assert w[..n] == w[..n - 1] + [w[n - 1]];
      CountSnoc(w[..n - 1], w[n - 1], Reading());
      var before, rs := ReadsUpTo(w, n - 1, sizes, p, largeRead), ReadsUpTo(w, n, sizes, p, largeRead);
      if Reading()(w[n - 1]) { OneRead(w, n - 1, sizes, p, largeRead); }
      forall i | 0 <= i < n && Reading()(w[i]) ensures ReadFor(w, i, sizes, p, largeRead, rs) {
        if i < n - 1 { assert ReadFor(w, i, sizes, p, largeRead, before); }
      }
    }
  }

  /** The reads of a corpus are those of its windows, one window after the other. */
  lemma CorpusReads(windows: seq<Window>, w: Window, sizes: Sizes, p: Params, largeRead: nat)
    ensures ReadsOf(windows + [w], sizes, p, largeRead)
            == ReadsOf(windows, sizes, p, largeRead) + ReadsUpTo(w, |w|, sizes, p, largeRead)
    ensures ReadsOf([], sizes, p, largeRead) == []
  {
    assert (windows + [w])[..|windows|] == windows;
  }

  // ----- totals -----

  function CharsRead(): ReadCall -> int { (r: ReadCall) => if r.chars.Some? then r.chars.value else 0 }

  /** Characters times the calls after the read, none for a subagent's. */
  function Carried(): ReadCall -> int {
    (r: ReadCall) => if r.sidechain || r.chars.None? then 0 else r.chars.value * r.turnsAfter
  }

  function Only(test: ReadCall -> bool, f: ReadCall -> int): ReadCall -> int {
    (r: ReadCall) => if test(r) then f(r) else 0
  }

  ghost predicate Sums(b: Bucket, rs: seq<ReadCall>, test: ReadCall -> bool) {
    b.count == CountOf(rs, test) && b.chars == Sum(rs, Only(test, CharsRead()))
    && b.weighted == Sum(rs, Only(test, Carried()))
  }

  lemma {:induction false} TotalSums(rs: seq<ReadCall>, c: Class, p: Params, test: ReadCall -> bool)
    requires forall r :: Member(c, r, p) == test(r)
    ensures Sums(Total(rs, c, p), rs, test)
  {
    if rs != [] { TotalSums(rs[..|rs| - 1], c, p, test); }
  }

  lemma {:induction false} ExtensionSums(rs: seq<ReadCall>, e: string, test: ReadCall -> bool)
    requires forall r: ReadCall :: (r.extension == e) == test(r)
    ensures Sums(ExtensionTotal(rs, e), rs, test)
  {
    if rs != [] { ExtensionSums(rs[..|rs| - 1], e, test); }
  }

  function Every(): ReadCall -> bool { (r: ReadCall) => true }
  function LookedUp(): ReadCall -> bool { (r: ReadCall) => r.symbolLookup }
  function Whole(): ReadCall -> bool { (r: ReadCall) => r.wholeFile }
  function Either(): ReadCall -> bool { (r: ReadCall) => r.symbolLookup || r.wholeFile }
  function BothWays(): ReadCall -> bool { (r: ReadCall) => r.symbolLookup && r.wholeFile }
  function Foreign(p: Params): ReadCall -> bool { (r: ReadCall) => r.extension !in p.codeExtensions }
  function Again(): ReadCall -> bool { (r: ReadCall) => r.repeated }
  function InPart(): ReadCall -> bool { (r: ReadCall) => r.windowed }
  function BySub(): ReadCall -> bool { (r: ReadCall) => r.sidechain }
  function Answered(): ReadCall -> bool { (r: ReadCall) => r.chars.Some? }
  function Unanswered(): ReadCall -> bool { (r: ReadCall) => r.chars.None? }
  function OfExtension(e: string): ReadCall -> bool { (r: ReadCall) => r.extension == e }

  /** Every class counts, and sums up in both units, exactly the reads it is named for. */
  lemma ClassesSum(rs: seq<ReadCall>, p: Params)
    ensures Sums(Total(rs, All, p), rs, Every())
    ensures Sums(Total(rs, SymbolLookup, p), rs, LookedUp()) && Sums(Total(rs, WholeFile, p), rs, Whole())
    ensures Sums(Total(rs, NavigableClass, p), rs, Either()) && Sums(Total(rs, Both, p), rs, BothWays())
    ensures Sums(Total(rs, NonCode, p), rs, Foreign(p)) && Sums(Total(rs, Repeated, p), rs, Again())
    ensures Sums(Total(rs, Windowed, p), rs, InPart()) && Sums(Total(rs, Sidechain, p), rs, BySub())
    ensures forall e :: Sums(ExtensionTotal(rs, e), rs, OfExtension(e))
  {
    TotalSums(rs, All, p, Every());
    TotalSums(rs, SymbolLookup, p, LookedUp());
    TotalSums(rs, WholeFile, p, Whole());
    TotalSums(rs, NavigableClass, p, Either());
    TotalSums(rs, Both, p, BothWays());
    TotalSums(rs, NonCode, p, Foreign(p));
    TotalSums(rs, Repeated, p, Again());
    TotalSums(rs, Windowed, p, InPart());
    TotalSums(rs, Sidechain, p, BySub());
    forall e ensures Sums(ExtensionTotal(rs, e), rs, OfExtension(e)) { ExtensionSums(rs, e, OfExtension(e)); }
  }

  // ----- the net mass -----

  /** What a symbol answer saves of a read it could have replaced. */
  function Saved(p: Params): ReadCall -> int {
    (r: ReadCall) =>
      if (r.symbolLookup || r.wholeFile) && r.chars.Some? && r.chars.value > p.symbolResponse
      then r.chars.value - p.symbolResponse else 0
  }

  /** The same, carried through the calls after the read. */
  function SavedOn(p: Params): ReadCall -> int {
    (r: ReadCall) => if r.sidechain then 0 else Saved(p)(r) * r.turnsAfter
  }

  lemma {:induction false} AddressableSums(rs: seq<ReadCall>, p: Params)
    ensures Addressable(rs, p).0 == Sum(rs, Saved(p)) && Addressable(rs, p).1 == Sum(rs, SavedOn(p))
    ensures Unsized(rs) == CountOf(rs, Unanswered())
  {
    if rs != [] { AddressableSums(rs[..|rs| - 1], p); }
  }

  lemma {:induction false} EveryCounts(rs: seq<ReadCall>)
    ensures CountOf(rs, Every()) == |rs| == CountOf(rs, Answered()) + CountOf(rs, Unanswered())
  {
    if rs != [] { EveryCounts(rs[..|rs| - 1]); }
  }

  // ----- the decision -----

  /** The saved mass is at least the gate's part of the mass. */
  predicate Clears(saved: int, mass: int, gate: real) {
    if mass == 0 then gate <= 0.0 else saved as real >= gate * mass as real
  }

  lemma ShareClears(saved: nat, mass: nat, gate: real)
    ensures Navigation.Share(saved, mass) >= gate <==> Clears(saved, mass, gate)
  {
    if mass != 0 {
      var m, share := mass as real, saved as real / mass as real;
      assert share * m == saved as real;
      if share >= gate { assert share * m >= gate * m; } else { assert share * m < gate * m; }
    }
  }

  /** Enough reads of known size, and enough sessions. */
  predicate FloorsMet(rs: seq<ReadCall>, sessions: nat, rule: Rule) {
    CountOf(rs, Answered()) >= rule.minReads && sessions >= rule.minSessions
  }

  lemma FiguresOf(corpus: Corpus, sizes: Sizes, p: Params, rule: Rule, largeRead: nat)
    ensures var rs, d := ReadsOf(corpus.windows, sizes, p, largeRead), DataAt(corpus, sizes, p, largeRead);
      && All in d.classes
      && (ShareChars(d) >= rule.gate <==> Clears(Sum(rs, Saved(p)), Sum(rs, CharsRead()), rule.gate))
      && (ShareWeighted(d) >= rule.gate <==> Clears(Sum(rs, SavedOn(p)), Sum(rs, Carried()), rule.gate))
      && d.classes[All].count - d.unsized == CountOf(rs, Answered())
  {
    var rs, d := ReadsOf(corpus.windows, sizes, p, largeRead), DataAt(corpus, sizes, p, largeRead);
    AllCounted(corpus, sizes, p, largeRead);
    TotalSums(rs, All, p, Every());
    AddressableSums(rs, p);
    EveryCounts(rs);
    SumSame(rs, Only(Every(), CharsRead()), CharsRead());
    SumSame(rs, Only(Every(), Carried()), Carried());
    ShareClears(d.addressable.0, d.classes[All].chars, rule.gate);
    ShareClears(d.addressable.1, d.classes[All].weighted, rule.gate);
  }

  /** The decision, from the reads: PROCEED when the floors are met and the navigable reads
      save at least the gate's part of all that was read both in characters and carried on;
      HALT when the floors are met and they do so in neither. */
  lemma DecisionIs(corpus: Corpus, sizes: Sizes, p: Params, rule: Rule, largeRead: nat)
    ensures var rs, decision := ReadsOf(corpus.windows, sizes, p, largeRead),
                                DecisionAt(corpus, sizes, p, rule, largeRead);
      var floors := FloorsMet(rs, corpus.sessions, rule);
      var raw := Clears(Sum(rs, Saved(p)), Sum(rs, CharsRead()), rule.gate);
      var carried := Clears(Sum(rs, SavedOn(p)), Sum(rs, Carried()), rule.gate);
      && (decision == PROCEED <==> floors && raw && carried)
      && (decision == HALT <==> floors && !raw && !carried)
  {
    FiguresOf(corpus, sizes, p, rule, largeRead);
  }

  // ----- the probes -----

  /** Python's `int(large * factor)` for the two factors. */
  lemma ProbesAre(largeRead: nat, t: nat)
    ensures t in Probes(largeRead)
            <==> t == (largeRead as real * 0.5).Floor || t == (largeRead as real * 2.0).Floor
  {
    var half, whole := largeRead as real * 0.5, largeRead as real * 2.0;
    assert (largeRead / 2) as real <= half < (largeRead / 2) as real + 1.0;
    assert whole == (largeRead * 2) as real;
    assert t in Probes(largeRead) <==> t == Probes(largeRead)[0] || t == Probes(largeRead)[1];
  }

  /** A run's own decision is fragile exactly when halving the threshold overturns a HALT, when
      doubling it overturns a PROCEED, or when either settles what was left open. */
  lemma FragileWhen(corpus: Corpus, sizes: Sizes, p: Params, rule: Rule, largeRead: nat)
    ensures var own := DecisionAt(corpus, sizes, p, rule, largeRead);
      var low, high := DecisionAt(corpus, sizes, p, rule, largeRead / 2),
                       DecisionAt(corpus, sizes, p, rule, largeRead * 2);
      (exists t :: t in Probes(largeRead) && t != largeRead && DecisionAt(corpus, sizes, p, rule, t) != own)
      <==> match own
           case HALT => low != HALT
           case PROCEED => high != PROCEED
           case INCONCLUSIVE => low == PROCEED || high == HALT
  {
    assert Probes(largeRead)[0] == largeRead / 2 && Probes(largeRead)[1] == largeRead * 2;
    assert largeRead / 2 in Probes(largeRead) && largeRead * 2 in Probes(largeRead);
    VerdictMonotone(corpus, sizes, p, rule, largeRead / 2, largeRead);
    VerdictMonotone(corpus, sizes, p, rule, largeRead, largeRead * 2);
  }
}
