/** Classification, aggregation and verdict of scripts/navigation_value.py: how much of what
    a coder reads a symbol server could have answered. */
module Navigation {
  import opened PyText
  import opened Corpora
  import opened Order

  const READ_TOOLS: set<string> := {"Read", "View"}

  /** The fixed parameters of a run; `largeRead` is the threshold the robustness probes vary. */
  datatype Params = Params(codeExtensions: set<string>, lookback: nat, symbolResponse: nat)

  // ----- classification -----

  datatype ReadCall = ReadCall(
    extension: string, chars: Option<nat>, windowed: bool, sidechain: bool,
    symbolLookup: bool, wholeFile: bool, repeated: bool, turnsAfter: nat)

  type Sizes = m: map<string, Size> | forall u :: u in m ==> m[u].chars >= 0 witness map[]

  function SizeOf(c: Call, sizes: Sizes): Option<Size> {
    if c.useId.Some? && c.useId.value != "" && c.useId.value in sizes then Some(sizes[c.useId.value]) else None
  }

  function CharsOf(c: Call, sizes: Sizes): Option<nat> {
    match SizeOf(c, sizes) case None => None case Some(s) => Some(s.chars)
  }

  /** A subagent's read is one if either end says so. */
  predicate BySubagent(c: Call, sizes: Sizes) {
    c.sidechain || (SizeOf(c, sizes).Some? && SizeOf(c, sizes).value.fromSubagent)
  }

  predicate IsRead(c: Call) { c.tool in READ_TOOLS }

  /** The window's own earlier calls the lookback reaches. */
  function LookbackStart(i: nat, lookback: nat): nat {
    if lookback == 0 then i else if i < lookback then 0 else i - lookback
  }

  predicate SearchedBefore(w: Window, i: nat, lookback: nat)
    requires i <= |w|
  { exists j :: LookbackStart(i, lookback) <= j < i && w[j].symbolSearch }

  predicate ReadBefore(w: Window, i: nat)
    requires i < |w|
  { exists j :: 0 <= j < i && IsRead(w[j]) && w[j].pathKey == w[i].pathKey }

  function ReadAt(w: Window, i: nat, sizes: Sizes, p: Params, largeRead: nat): ReadCall
    requires i < |w|
  {
    var c, chars := w[i], CharsOf(w[i], sizes);
    var served := c.extension in p.codeExtensions;
    ReadCall(c.extension, chars, c.windowed, BySubagent(c, sizes),
             served && SearchedBefore(w, i, p.lookback),
             served && !c.windowed && chars.Some? && chars.value >= largeRead,
             c.pathKey != "" && ReadBefore(w, i),
             |w| - i - 1)
  }

  function ReadsUpTo(w: Window, n: nat, sizes: Sizes, p: Params, largeRead: nat): seq<ReadCall>
    requires n <= |w|
  {
    if n == 0 then []
    else ReadsUpTo(w, n - 1, sizes, p, largeRead)
         + (if IsRead(w[n - 1]) then [ReadAt(w, n - 1, sizes, p, largeRead)] else [])
  }

  function ReadsOf(windows: seq<Window>, sizes: Sizes, p: Params, largeRead: nat): seq<ReadCall> {
    if windows == [] then []
    else
      var w := windows[|windows| - 1];
      ReadsOf(windows[..|windows| - 1], sizes, p, largeRead) + ReadsUpTo(w, |w|, sizes, p, largeRead)
  }

  method Classify(windows: seq<Window>, sizes: Sizes, p: Params, largeRead: nat) returns (out: seq<ReadCall>)
    ensures out == ReadsOf(windows, sizes, p, largeRead)
  {
    out := [];
    for k := 0 to |windows|
      invariant out == ReadsOf(windows[..k], sizes, p, largeRead)
    {
      assert windows[..k + 1][..k] == windows[..k];
      var rs := ClassifyWindow(windows[k], sizes, p, largeRead);
      out := out + rs;
    }
    assert windows[..|windows|] == windows;
  }

  method ClassifyWindow(calls: Window, sizes: Sizes, p: Params, largeRead: nat) returns (out: seq<ReadCall>)
    ensures out == ReadsUpTo(calls, |calls|, sizes, p, largeRead)
  {
    out := [];
    var seenPaths: set<string> := {};
    for index := 0 to |calls|
      invariant out == ReadsUpTo(calls, index, sizes, p, largeRead)
      invariant forall key :: key in seenPaths <==>
        key != "" && exists j :: 0 <= j < index && IsRead(calls[j]) && calls[j].pathKey == key
    {
      var call := calls[index];
      if !IsRead(call) { continue; }
      var size := SizeOf(call, sizes);
      var chars := if size.Some? then Some(size.value.chars as nat) else None;
      var sidechain := call.sidechain || (size.Some? && size.value.fromSubagent);
      var served := call.extension in p.codeExtensions;
      var start := if p.lookback == 0 then index else if index < p.lookback then 0 else index - p.lookback;
      var searched := false;
      for j := start to index
        invariant searched <==> exists i :: start <= i < j && calls[i].symbolSearch
      {
        if calls[j].symbolSearch { searched := true; }
      }
      var key := call.pathKey;
      var repeated := key != "" && key in seenPaths;
      if key != "" { seenPaths := seenPaths + {key}; }
      out := out + [ReadCall(call.extension, chars, call.windowed, sidechain, served && searched,
                             served && !call.windowed && chars.Some? && chars.value >= largeRead,
                             repeated, |calls| - index - 1)];
    }
  }

  // ----- aggregation -----

  datatype Bucket = Bucket(count: nat, chars: nat, weighted: nat)

  const EMPTY := Bucket(0, 0, 0)

  function Plus(a: Bucket, b: Bucket): Bucket {
    Bucket(a.count + b.count, a.chars + b.chars, a.weighted + b.weighted)
  }

  datatype Class = All | SymbolLookup | WholeFile | Both | NavigableClass | NonCode | Repeated | Windowed | Sidechain

  predicate Navigable(r: ReadCall) { r.symbolLookup || r.wholeFile }

  predicate Member(c: Class, r: ReadCall, p: Params) {
    match c
    case All => true
    case SymbolLookup => r.symbolLookup
    case WholeFile => r.wholeFile
    case Both => r.symbolLookup && r.wholeFile
    case NavigableClass => Navigable(r)
    case NonCode => r.extension !in p.codeExtensions
    case Repeated => r.repeated
    case Windowed => r.windowed
    case Sidechain => r.sidechain
  }

  function CharsIn(r: ReadCall): nat { if r.chars.Some? then r.chars.value else 0 }

  function Weight(r: ReadCall): nat { if r.sidechain then 0 else r.turnsAfter }

  function BucketOf(r: ReadCall): Bucket { Bucket(1, CharsIn(r), CharsIn(r) * Weight(r)) }

  /** What an answered read saves: its characters less the answer's. */
  function Net(r: ReadCall, p: Params): nat {
    if CharsIn(r) < p.symbolResponse then 0 else CharsIn(r) - p.symbolResponse
  }

  function Total(rs: seq<ReadCall>, c: Class, p: Params): Bucket {
    if rs == [] then EMPTY
    else
      var r, rest := rs[|rs| - 1], Total(rs[..|rs| - 1], c, p);
      if Member(c, r, p) then Plus(rest, BucketOf(r)) else rest
  }

  /** The net addressable mass, in both units. */
  function Addressable(rs: seq<ReadCall>, p: Params): (nat, nat) {
    if rs == [] then (0, 0)
    else
      var r, rest := rs[|rs| - 1], Addressable(rs[..|rs| - 1], p);
      if Navigable(r) then (rest.0 + Net(r, p), rest.1 + Net(r, p) * Weight(r)) else rest
  }

  function Unsized(rs: seq<ReadCall>): nat {
    if rs == [] then 0 else Unsized(rs[..|rs| - 1]) + (if rs[|rs| - 1].chars.None? then 1 else 0)
  }

  /** The totals of the reads of one file extension. */
  function ExtensionTotal(rs: seq<ReadCall>, extension: string): Bucket {
    if rs == [] then EMPTY
    else
      var r, rest := rs[|rs| - 1], ExtensionTotal(rs[..|rs| - 1], extension);
      if r.extension == extension then Plus(rest, BucketOf(r)) else rest
  }

  function ExtensionsOf(rs: seq<ReadCall>): set<string> { set r | r in rs :: r.extension }

  datatype Data = Data(
    classes: map<Class, Bucket>, unsized: nat, addressable: (nat, nat), extensions: map<string, Bucket>)

  ghost predicate Aggregates(d: Data, rs: seq<ReadCall>, p: Params) {
    && (forall c :: c in d.classes && d.classes[c] == Total(rs, c, p))
    && d.unsized == Unsized(rs) && d.addressable == Addressable(rs, p) && ByExtension(d.extensions, rs)
  }

  /** A bucket for every extension that was read, and for no other. */
  ghost predicate ByExtension(extensions: map<string, Bucket>, rs: seq<ReadCall>) {
    extensions.Keys == ExtensionsOf(rs) && forall e :: e in extensions ==> extensions[e] == ExtensionTotal(rs, e)
  }

  const CLASSES: seq<Class> :=
    [All, SymbolLookup, WholeFile, NavigableClass, Both, NonCode, Repeated, Windowed, Sidechain]

  /** The classes a read belongs to. They overlap by design. */
  method Members(r: ReadCall, p: Params) returns (members: seq<Class>)
    ensures forall c :: c in members <==> Member(c, r, p)
    ensures Distinct(members)
  {
    members := Basics(r);
    members := AddIf(members, r.extension !in p.codeExtensions, NonCode);
    members := AddIf(members, r.repeated, Repeated);
    members := AddIf(members, r.windowed, Windowed);
    members := AddIf(members, r.sidechain, Sidechain);
  }

  method Basics(r: ReadCall) returns (members: seq<Class>)
    ensures Distinct(members)
    ensures forall c :: c in members <==>
      c == All || (c == SymbolLookup && r.symbolLookup) || (c == WholeFile && r.wholeFile)
      || (c == Both && r.symbolLookup && r.wholeFile) || (c == NavigableClass && Navigable(r))
  {
    members := [All];
    members := AddIf(members, r.symbolLookup, SymbolLookup);
    members := AddIf(members, r.wholeFile, WholeFile);
    members := AddIf(members, r.symbolLookup && r.wholeFile, Both);
    members := AddIf(members, Navigable(r), NavigableClass);
  }

  method AddIf(members: seq<Class>, cond: bool, c: Class) returns (more: seq<Class>)
    requires c !in members && Distinct(members)
    ensures Distinct(more) && forall x :: x in more <==> x in members || (cond && x == c)
  {
    more := if cond then members + [c] else members;
  }

  /** The running totals of every class. */
  ghost predicate Tallies(classes: map<Class, Bucket>, rs: seq<ReadCall>, p: Params) {
    forall c :: c in classes && classes[c] == Total(rs, c, p)
  }

  lemma TallyOne(was: map<Class, Bucket>, now: map<Class, Bucket>, members: seq<Class>,
                  rs: seq<ReadCall>, r: ReadCall, p: Params)
    requires Tallies(was, rs, p) && forall c :: c in members <==> Member(c, r, p)
    requires forall c :: c in now && now[c] == if c in members then Plus(was[c], BucketOf(r)) else was[c]
    ensures Tallies(now, rs + [r], p)
  {
    assert (rs + [r])[..|rs|] == rs;
  }

  /** One more read, in the two running figures. */
  lemma FiguresOfOneMore(rs: seq<ReadCall>, r: ReadCall, p: Params)
    ensures Unsized(rs + [r]) == Unsized(rs) + (if r.chars.None? then 1 else 0)
    ensures Addressable(rs + [r], p)
            == if Navigable(r) then (Addressable(rs, p).0 + Net(r, p), Addressable(rs, p).1 + Net(r, p) * Weight(r))
               else Addressable(rs, p)
  {
    assert (rs + [r])[..|rs|] == rs;
  }

  method AddFigures(unsized: nat, addressable: (nat, nat), r: ReadCall, p: Params, ghost rs: seq<ReadCall>)
    returns (unsized': nat, addressable': (nat, nat))
    requires unsized == Unsized(rs) && addressable == Addressable(rs, p)
    ensures unsized' == Unsized(rs + [r]) && addressable' == Addressable(rs + [r], p)
  {
    FiguresOfOneMore(rs, r, p);
    unsized', addressable' := unsized, addressable;
    if r.chars.None? { unsized' := unsized + 1; }
    if Navigable(r) { addressable' := (addressable.0 + Net(r, p), addressable.1 + Net(r, p) * Weight(r)); }
  }

  method TallyRead(was: map<Class, Bucket>, r: ReadCall, p: Params, ghost rs: seq<ReadCall>)
    returns (now: map<Class, Bucket>)
    requires Tallies(was, rs, p)
    ensures Tallies(now, rs + [r], p)
  {
    var members := Members(r, p);
    now := AddToAll(was, members, BucketOf(r));
    TallyOne(was, now, members, rs, r, p);
  }

  lemma ExtensionsOfOneMore(rs: seq<ReadCall>, r: ReadCall)
    ensures ExtensionsOf(rs + [r]) == ExtensionsOf(rs) + {r.extension}
    ensures forall e :: ExtensionTotal(rs + [r], e)
                        == if r.extension == e then Plus(ExtensionTotal(rs, e), BucketOf(r)) else ExtensionTotal(rs, e)
  {
    assert (rs + [r])[..|rs|] == rs;
    forall e ensures e in ExtensionsOf(rs + [r]) <==> e in ExtensionsOf(rs) + {r.extension} {
      if e in ExtensionsOf(rs) {
        var x :| x in rs && x.extension == e;
        assert x in rs + [r];
      }
      if e == r.extension { assert r in rs + [r]; }
    }
  }

  lemma {:induction false} UnreadExtension(rs: seq<ReadCall>, e: string)
    requires e !in ExtensionsOf(rs)
    ensures ExtensionTotal(rs, e) == EMPTY
  {
    if rs != [] {
      var front, r := rs[..|rs| - 1], rs[|rs| - 1];
      assert rs == front + [r];
      ExtensionsOfOneMore(front, r);
      UnreadExtension(front, e);
    }
  }

  method TallyExtension(was: map<string, Bucket>, r: ReadCall, ghost rs: seq<ReadCall>)
    returns (now: map<string, Bucket>)
    requires ByExtension(was, rs)
    ensures ByExtension(now, rs + [r])
  {
    ExtensionsOfOneMore(rs, r);
    if r.extension !in was { UnreadExtension(rs, r.extension); }
    now := was[r.extension := Plus(if r.extension in was then was[r.extension] else EMPTY, BucketOf(r))];
  }

  method Aggregate(rs: seq<ReadCall>, p: Params) returns (d: Data)
    ensures Aggregates(d, rs, p)
  {
    var classes: map<Class, Bucket> := map c | c in CLASSES :: EMPTY;
    var unsized, addressable := 0, (0, 0);
    var extensions: map<string, Bucket> := map[];
    forall c: Class ensures c in CLASSES { AllClasses(c); }
    for i := 0 to |rs|
      invariant Tallies(classes, rs[..i], p)
      invariant unsized == Unsized(rs[..i]) && addressable == Addressable(rs[..i], p)
      invariant ByExtension(extensions, rs[..i])
    {
      assert rs[..i + 1] == rs[..i] + [rs[i]];
      unsized, addressable := AddFigures(unsized, addressable, rs[i], p, rs[..i]);
      classes := TallyRead(classes, rs[i], p, rs[..i]);
      extensions := TallyExtension(extensions, rs[i], rs[..i]);
    }
    assert rs[..|rs|] == rs;
    d := Data(classes, unsized, addressable, extensions);
  }

  lemma AllClasses(c: Class)
    ensures c in CLASSES
  {
    assert CLASSES[0] == All && CLASSES[1] == SymbolLookup && CLASSES[2] == WholeFile && CLASSES[3] == NavigableClass;
    assert CLASSES[4] == Both && CLASSES[5] == NonCode && CLASSES[6] == Repeated && CLASSES[7] == Windowed;
    assert CLASSES[8] == Sidechain;
  }

  method AddToAll(classes: map<Class, Bucket>, members: seq<Class>, b: Bucket) returns (more: map<Class, Bucket>)
    requires forall c :: c in classes
    requires Distinct(members)
    ensures forall c :: c in more && more[c] == if c in members then Plus(classes[c], b) else classes[c]
  {
    more := classes;
    for k := 0 to |members|
      invariant forall c :: c in more && more[c] == if c in members[..k] then Plus(classes[c], b) else classes[c]
    {
      var name := members[k];
      assert name !in members[..k];
      more := more[name := Plus(more[name], b)];
    }
  }

  /** The one arithmetic relation between the overlapping classes, in every unit. */
  lemma {:induction false} InclusionExclusion(rs: seq<ReadCall>, p: Params)
    ensures Plus(Total(rs, NavigableClass, p), Total(rs, Both, p))
            == Plus(Total(rs, SymbolLookup, p), Total(rs, WholeFile, p))
  {
    if rs != [] { InclusionExclusion(rs[..|rs| - 1], p); }
  }

  /** The buckets of a list of extensions, added up. */
  function SumOver(rs: seq<ReadCall>, extensions: seq<string>): Bucket {
    if extensions == [] then EMPTY
    else
      var n := |extensions| - 1;
      Plus(SumOver(rs, extensions[..n]), ExtensionTotal(rs, extensions[n]))
  }

  lemma {:induction false} SumOfOneMore(rs: seq<ReadCall>, r: ReadCall, extensions: seq<string>)
    requires Distinct(extensions)
    ensures SumOver(rs + [r], extensions)
            == if r.extension in extensions then Plus(SumOver(rs, extensions), BucketOf(r)) else SumOver(rs, extensions)
  {
    if extensions != [] {
      var front, e := extensions[..|extensions| - 1], extensions[|extensions| - 1];
      assert extensions == front + [e] && e !in front;
      SumOfOneMore(rs, r, front);
      ExtensionsOfOneMore(rs, r);
    }
  }

  lemma {:induction false} SumOfNone(rs: seq<ReadCall>, extensions: seq<string>)
    requires forall e :: ExtensionTotal(rs, e) == EMPTY
    ensures SumOver(rs, extensions) == EMPTY
    decreases |extensions|
  {
    if |extensions| > 0 { SumOfNone(rs, extensions[..|extensions| - 1]); }
  }

  /** The extensions partition the reads: their buckets add up to the bucket of all reads. */
  lemma {:induction false} ExtensionsPartition(rs: seq<ReadCall>, extensions: seq<string>, p: Params)
    requires Distinct(extensions) && forall r :: r in rs ==> r.extension in extensions
    ensures SumOver(rs, extensions) == Total(rs, All, p)
  {
    if rs == [] {
      forall e ensures ExtensionTotal(rs, e) == EMPTY {}
      SumOfNone(rs, extensions);
    } else {
      var front, r := rs[..|rs| - 1], rs[|rs| - 1];
      assert rs == front + [r];
      ExtensionsPartition(front, extensions, p);
      SumOfOneMore(front, r, extensions);
    }
  }

  // ----- the verdict -----

  datatype Decision = PROCEED | HALT | INCONCLUSIVE

  /** The corpus floors and the pre-registered gate. */
  datatype Rule = Rule(minReads: nat, minSessions: nat, gate: real)

  function Share(part: nat, total: nat): real { if total == 0 then 0.0 else part as real / total as real }

  function ShareChars(d: Data): real
    requires All in d.classes
  { Share(d.addressable.0, d.classes[All].chars) }

  function ShareWeighted(d: Data): real
    requires All in d.classes
  { Share(d.addressable.1, d.classes[All].weighted) }

  function Verdict(d: Data, sessions: nat, rule: Rule): Decision
    requires All in d.classes
  {
    var charsOk, weightedOk := ShareChars(d) >= rule.gate, ShareWeighted(d) >= rule.gate;
    if d.classes[All].count - d.unsized < rule.minReads || sessions < rule.minSessions then INCONCLUSIVE
    else if charsOk != weightedOk then INCONCLUSIVE
    else if charsOk then PROCEED
    else HALT
  }

  /** What a run over a corpus decides at one large-read threshold. */
  function DataAt(corpus: Corpus, sizes: Sizes, p: Params, largeRead: nat): Data {
    var rs := ReadsOf(corpus.windows, sizes, p, largeRead);
    Data(map c | c in CLASSES :: Total(rs, c, p), Unsized(rs), Addressable(rs, p),
         map e | e in ExtensionsOf(rs) :: ExtensionTotal(rs, e))
  }

  lemma AllCounted(corpus: Corpus, sizes: Sizes, p: Params, largeRead: nat)
    ensures var d := DataAt(corpus, sizes, p, largeRead);
      All in d.classes && Aggregates(d, ReadsOf(corpus.windows, sizes, p, largeRead), p)
  {
    forall c: Class ensures c in CLASSES { AllClasses(c); }
  }

  function DecisionAt(corpus: Corpus, sizes: Sizes, p: Params, rule: Rule, largeRead: nat): Decision {
    AllCounted(corpus, sizes, p, largeRead);
    Verdict(DataAt(corpus, sizes, p, largeRead), corpus.sessions, rule)
  }

  // ----- raising the threshold -----

  /** The same reads, with fewer of them counted as large. */
  ghost predicate Fewer(lo: seq<ReadCall>, hi: seq<ReadCall>) {
    |lo| == |hi| && forall i :: 0 <= i < |lo| ==>
      (hi[i].wholeFile ==> lo[i].wholeFile) && hi[i] == lo[i].(wholeFile := hi[i].wholeFile)
  }

  lemma {:induction false} WindowFewer(w: Window, n: nat, sizes: Sizes, p: Params, lo: nat, hi: nat)
    requires n <= |w| && lo <= hi
    ensures Fewer(ReadsUpTo(w, n, sizes, p, lo), ReadsUpTo(w, n, sizes, p, hi))
  {
    if n > 0 { WindowFewer(w, n - 1, sizes, p, lo, hi); }
  }

  lemma {:induction false} CorpusFewer(windows: seq<Window>, sizes: Sizes, p: Params, lo: nat, hi: nat)
    requires lo <= hi
    ensures Fewer(ReadsOf(windows, sizes, p, lo), ReadsOf(windows, sizes, p, hi))
  {
    if windows != [] {
      var w := windows[|windows| - 1];
      CorpusFewer(windows[..|windows| - 1], sizes, p, lo, hi);
      WindowFewer(w, |w|, sizes, p, lo, hi);
    }
  }

  lemma {:induction false} FewerAddressable(lo: seq<ReadCall>, hi: seq<ReadCall>, p: Params)
    requires Fewer(lo, hi)
    ensures Addressable(hi, p).0 <= Addressable(lo, p).0 && Addressable(hi, p).1 <= Addressable(lo, p).1
    ensures Total(hi, All, p) == Total(lo, All, p) && Unsized(hi) == Unsized(lo)
  {
    if lo != [] { FewerAddressable(lo[..|lo| - 1], hi[..|hi| - 1], p); }
  }

  lemma ShareMonotone(a: nat, b: nat, total: nat)
    requires a <= b
    ensures Share(a, total) <= Share(b, total)
  {
  }

  /** Raising the large-read threshold raises neither share and leaves the floors alone. */
  lemma SharesFall(corpus: Corpus, sizes: Sizes, p: Params, lo: nat, hi: nat)
    requires lo <= hi
    ensures var l, h := DataAt(corpus, sizes, p, lo), DataAt(corpus, sizes, p, hi);
      && All in l.classes && All in h.classes && h.classes[All] == l.classes[All] && h.unsized == l.unsized
      && ShareChars(h) <= ShareChars(l) && ShareWeighted(h) <= ShareWeighted(l)
  {
    AllCounted(corpus, sizes, p, lo);
    AllCounted(corpus, sizes, p, hi);
    CorpusFewer(corpus.windows, sizes, p, lo, hi);
    var rl, rh := ReadsOf(corpus.windows, sizes, p, lo), ReadsOf(corpus.windows, sizes, p, hi);
    FewerAddressable(rl, rh, p);
    ShareMonotone(Addressable(rh, p).0, Addressable(rl, p).0, Total(rl, All, p).chars);
    ShareMonotone(Addressable(rh, p).1, Addressable(rl, p).1, Total(rl, All, p).weighted);
  }

  /** The verdict is monotone in the threshold: a HALT stays a HALT when it is raised, a
      PROCEED stays a PROCEED when it is lowered. */
  lemma VerdictMonotone(corpus: Corpus, sizes: Sizes, p: Params, rule: Rule, lo: nat, hi: nat)
    requires lo <= hi
    ensures DecisionAt(corpus, sizes, p, rule, lo) == HALT ==> DecisionAt(corpus, sizes, p, rule, hi) == HALT
    ensures DecisionAt(corpus, sizes, p, rule, hi) == PROCEED ==> DecisionAt(corpus, sizes, p, rule, lo) == PROCEED
  {
    SharesFall(corpus, sizes, p, lo, hi);
  }

  // ----- the robustness probes -----

  /** `int(large * 0.5)` and `int(large * 2.0)`. */
  function Probes(largeRead: nat): seq<nat> { [largeRead / 2, largeRead * 2] }

  /** Some probe, at a threshold other than the run's own, decides differently. */
  method Fragile(corpus: Corpus, sizes: Sizes, p: Params, rule: Rule, largeRead: nat, decision: Decision)
    returns (fragile: bool)
    ensures fragile <==> exists t :: t in Probes(largeRead) && t != largeRead
                                     && DecisionAt(corpus, sizes, p, rule, t) != decision
  {
    fragile := false;
    var factors := Probes(largeRead);
    for i := 0 to |factors|
      invariant fragile <==> exists k :: 0 <= k < i && factors[k] != largeRead
                                         && DecisionAt(corpus, sizes, p, rule, factors[k]) != decision
    {
      var threshold := factors[i];
      if threshold == largeRead { continue; }
      var rs := Classify(corpus.windows, sizes, p, threshold);
      var data := Aggregate(rs, p);
      SameData(corpus, sizes, p, threshold, data);
      if Verdict(data, corpus.sessions, rule) != decision { fragile := true; }
    }
  }

  lemma SameData(corpus: Corpus, sizes: Sizes, p: Params, largeRead: nat, d: Data)
    requires Aggregates(d, ReadsOf(corpus.windows, sizes, p, largeRead), p)
    ensures All in d.classes && d == DataAt(corpus, sizes, p, largeRead)
  {
    AllCounted(corpus, sizes, p, largeRead);
    assert d.classes == DataAt(corpus, sizes, p, largeRead).classes;
    assert d.extensions == DataAt(corpus, sizes, p, largeRead).extensions;
  }

  /** So only one probe can ever speak against a decision: the halved one against a HALT,
      the doubled one against a PROCEED; and none against a corpus below its floors. */
  lemma OneProbeSpeaks(corpus: Corpus, sizes: Sizes, p: Params, rule: Rule, largeRead: nat)
    ensures DecisionAt(corpus, sizes, p, rule, largeRead) == HALT ==>
              DecisionAt(corpus, sizes, p, rule, largeRead * 2) == HALT
    ensures DecisionAt(corpus, sizes, p, rule, largeRead) == PROCEED ==>
              DecisionAt(corpus, sizes, p, rule, largeRead / 2) == PROCEED
    ensures var d := DataAt(corpus, sizes, p, largeRead);
      All in d.classes
      && (d.classes[All].count - d.unsized < rule.minReads || corpus.sessions < rule.minSessions ==>
            forall t: nat :: DecisionAt(corpus, sizes, p, rule, t) == INCONCLUSIVE)
  {
    VerdictMonotone(corpus, sizes, p, rule, largeRead, largeRead * 2);
    VerdictMonotone(corpus, sizes, p, rule, largeRead / 2, largeRead);
    AllCounted(corpus, sizes, p, largeRead);
    forall t: nat
      ensures var d := DataAt(corpus, sizes, p, largeRead);
        (d.classes[All].count - d.unsized < rule.minReads || corpus.sessions < rule.minSessions ==>
           DecisionAt(corpus, sizes, p, rule, t) == INCONCLUSIVE)
    {
      SharesFall(corpus, sizes, p, if t < largeRead then t else largeRead, if t < largeRead then largeRead else t);
    }
  }

  // ----- what "weighted" weighs -----

  /** The characters a call adds to the context it is read in. */
  function MassOf(c: Call, sizes: Sizes): nat {
    if !IsRead(c) || BySubagent(c, sizes) || CharsOf(c, sizes).None? then 0 else CharsOf(c, sizes).value
  }

  function Mass(w: Window, sizes: Sizes): nat {
    if w == [] then 0 else Mass(w[..|w| - 1], sizes) + MassOf(w[|w| - 1], sizes)
  }

  /** Every call re-sends what the reads before it in its window brought in. */
  function Resent(w: Window, sizes: Sizes): nat {
    if w == [] then 0 else Resent(w[..|w| - 1], sizes) + Mass(w[..|w| - 1], sizes)
  }

  /** `chars x calls remaining`, over the first `n` calls of a window of `total` calls. */
  function Remaining(w: Window, n: nat, total: nat, sizes: Sizes): nat
    requires n <= |w| && n <= total
  { if n == 0 then 0 else Remaining(w, n - 1, total, sizes) + MassOf(w[n - 1], sizes) * (total - n) }

  lemma WeightOfRead(w: Window, i: nat, sizes: Sizes, p: Params, largeRead: nat)
    requires i < |w| && IsRead(w[i])
    ensures BucketOf(ReadAt(w, i, sizes, p, largeRead)).weighted == MassOf(w[i], sizes) * (|w| - i - 1)
  {
  }

  lemma TotalSnoc(rs: seq<ReadCall>, r: ReadCall, p: Params)
    ensures Total(rs + [r], All, p) == Plus(Total(rs, All, p), BucketOf(r))
  {
    assert (rs + [r])[..|rs|] == rs;
  }

  lemma {:induction false} WeightedIsRemaining(w: Window, n: nat, sizes: Sizes, p: Params, largeRead: nat)
    requires n <= |w|
    ensures Total(ReadsUpTo(w, n, sizes, p, largeRead), All, p).weighted == Remaining(w, n, |w|, sizes)
  {
    if n > 0 {
      WeightedIsRemaining(w, n - 1, sizes, p, largeRead);
      var front := ReadsUpTo(w, n - 1, sizes, p, largeRead);
      if IsRead(w[n - 1]) {
        WeightOfRead(w, n - 1, sizes, p, largeRead);
        TotalSnoc(front, ReadAt(w, n - 1, sizes, p, largeRead), p);
      } else {
        assert front + [] == front;
      }
    }
  }

  lemma {:induction false} OneCallMore(w: Window, n: nat, total: nat, sizes: Sizes)
    requires n <= |w| && n <= total
    ensures Remaining(w, n, total + 1, sizes) == Remaining(w, n, total, sizes) + Mass(w[..n], sizes)
  {
    if n > 0 {
      OneCallMore(w, n - 1, total, sizes);
      assert w[..n][..n - 1] == w[..n - 1];
      var m := MassOf(w[n - 1], sizes);
      assert m * (total + 1 - n) == m * (total - n) + m;
    }
  }

  lemma {:induction false} RemainingPrefix(w: Window, v: Window, n: nat, total: nat, sizes: Sizes)
    requires n <= |w| && n <= |v| && n <= total && w[..n] == v[..n]
    ensures Remaining(w, n, total, sizes) == Remaining(v, n, total, sizes)
  {
    if n > 0 {
      assert w[n - 1] == w[..n][n - 1] == v[..n][n - 1] == v[n - 1];
      assert w[..n - 1] == w[..n][..n - 1] == v[..n][..n - 1] == v[..n - 1];
      RemainingPrefix(w, v, n - 1, total, sizes);
    }
  }

  lemma {:induction false} RemainingIsResent(w: Window, sizes: Sizes)
    ensures Remaining(w, |w|, |w|, sizes) == Resent(w, sizes)
  {
    if w != [] {
      var n := |w| - 1;
      RemainingIsResent(w[..n], sizes);
      RemainingPrefix(w, w[..n], n, n, sizes);
      OneCallMore(w, n, n, sizes);
    }
  }

  /** Weighted read mass is what the window re-sends: over every call, the characters of the
      earlier reads of the same window that no subagent made. */
  lemma WeightedIsResent(w: Window, sizes: Sizes, p: Params, largeRead: nat)
    ensures Total(ReadsUpTo(w, |w|, sizes, p, largeRead), All, p).weighted == Resent(w, sizes)
  {
    WeightedIsRemaining(w, |w|, sizes, p, largeRead);
    RemainingIsResent(w, sizes);
  }

  lemma {:induction false} MassAppend(a: Window, b: Window, sizes: Sizes)
    ensures Mass(a + b, sizes) == Mass(a, sizes) + Mass(b, sizes)
  {
    if b == [] {
      assert a + b == a;
    } else {
      assert (a + b)[..|a + b| - 1] == a + b[..|b| - 1];
      MassAppend(a, b[..|b| - 1], sizes);
    }
  }

  /** `m`, re-sent by each of `calls` calls. */
  function Times(calls: nat, m: nat): nat { if calls == 0 then 0 else Times(calls - 1, m) + m }

  lemma {:induction false} TimesIsProduct(calls: nat, m: nat)
    ensures Times(calls, m) == calls * m
  {
    if calls > 0 { TimesIsProduct(calls - 1, m); }
  }

  lemma {:induction false} SplitLoses(a: Window, b: Window, sizes: Sizes)
    ensures Resent(a + b, sizes) == Resent(a, sizes) + Resent(b, sizes) + Times(|b|, Mass(a, sizes))
  {
    if b == [] {
      assert a + b == a;
    } else {
      var n := |b| - 1;
      assert (a + b)[..|a + b| - 1] == a + b[..n];
      SplitLoses(a, b[..n], sizes);
      MassAppend(a, b[..n], sizes);
    }
  }

  lemma SplitResent(a: Window, b: Window, sizes: Sizes)
    ensures Resent(a + b, sizes) == Resent(a, sizes) + Resent(b, sizes) + |b| * Mass(a, sizes)
  {
    SplitLoses(a, b, sizes);
    TimesIsProduct(|b|, Mass(a, sizes));
  }

  /** Over a whole corpus. */
  function ResentAll(windows: seq<Window>, sizes: Sizes): nat {
    if windows == [] then 0
    else ResentAll(windows[..|windows| - 1], sizes) + Resent(windows[|windows| - 1], sizes)
  }

  lemma {:induction false} TotalAppend(a: seq<ReadCall>, b: seq<ReadCall>, p: Params)
    ensures Total(a + b, All, p) == Plus(Total(a, All, p), Total(b, All, p))
  {
    if b == [] {
      assert a + b == a;
    } else {
      var front, r := b[..|b| - 1], b[|b| - 1];
      assert a + b == (a + front) + [r] && b == front + [r];
      TotalAppend(a, front, p);
      TotalSnoc(a + front, r, p);
      TotalSnoc(front, r, p);
    }
  }

  lemma MeasuredTogether(a: seq<ReadCall>, b: seq<ReadCall>, p: Params, m: nat, n: nat)
    requires Total(a, All, p).weighted == m && Total(b, All, p).weighted == n
    ensures Total(a + b, All, p).weighted == m + n
  {
    TotalAppend(a, b, p);
  }

  /** The weighted mass a run measures is what its windows re-send. */
  lemma {:induction false} MeasuredIsResent(windows: seq<Window>, sizes: Sizes, p: Params, largeRead: nat)
    ensures Total(ReadsOf(windows, sizes, p, largeRead), All, p).weighted == ResentAll(windows, sizes)
  {
    if windows != [] {
      var front, w := windows[..|windows| - 1], windows[|windows| - 1];
      var a, b := ReadsOf(front, sizes, p, largeRead), ReadsUpTo(w, |w|, sizes, p, largeRead);
      MeasuredIsResent(front, sizes, p, largeRead);
      WeightedIsResent(w, sizes, p, largeRead);
      MeasuredTogether(a, b, p, ResentAll(front, sizes), Resent(w, sizes));
      assert ReadsOf(windows, sizes, p, largeRead) == a + b;
    }
  }

  lemma {:induction false} ResentAppend(a: seq<Window>, b: seq<Window>, sizes: Sizes)
    ensures ResentAll(a + b, sizes) == ResentAll(a, sizes) + ResentAll(b, sizes)
  {
    if b == [] {
      assert a + b == a;
    } else {
      assert (a + b)[..|a + b| - 1] == a + b[..|b| - 1];
      ResentAppend(a, b[..|b| - 1], sizes);
    }
  }

  lemma ResentAroundSplit(before: seq<Window>, a: Window, b: Window, after: seq<Window>, sizes: Sizes)
    ensures ResentAll(before + [a + b] + after, sizes)
            == ResentAll(before + [a, b] + after, sizes) + |b| * Mass(a, sizes)
  {
    ResentAppend(before + [a + b], after, sizes);
    ResentAppend(before, [a + b], sizes);
    ResentAppend(before + [a, b], after, sizes);
    ResentAppend(before, [a, b], sizes);
    assert [a, b][..1] == [a] && [a + b][..0] == [] && [a][..0] == [];
    SplitResent(a, b, sizes);
  }

  /** The weighted mass that `classify` and `aggregate` measure over a list of windows. */
  function Measured(windows: seq<Window>, sizes: Sizes, p: Params, largeRead: nat): (mass: nat)
    ensures mass == ResentAll(windows, sizes)
  {
    MeasuredIsResent(windows, sizes, p, largeRead);
    Total(ReadsOf(windows, sizes, p, largeRead), All, p).weighted
  }

  /** A boundary put inside a window of a corpus never raises the weighted mass the run
      measures, and lowers it by exactly what every call after the boundary would have
      re-sent. */
  lemma SplitNeverRaises(before: seq<Window>, a: Window, b: Window, after: seq<Window>,
                         sizes: Sizes, p: Params, largeRead: nat)
    ensures var whole := Measured(before + [a + b] + after, sizes, p, largeRead);
      var split := Measured(before + [a, b] + after, sizes, p, largeRead);
      split <= whole && whole == split + |b| * Mass(a, sizes)
  {
    ResentAroundSplit(before, a, b, after, sizes);
  }
}
