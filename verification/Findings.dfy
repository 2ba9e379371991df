/** The tally of review findings per round, `collect` in scripts/review_round_value.py. */
module Findings {
  import opened PyText
  import opened Counting

  /** A round's record: the number it carries (none, or 0, means its position), the verdict,
      the blocking entries, how many advisory ones. */
  datatype Record = Record(round: Option<int>, passed: bool, blocking: seq<string>, advisory: nat)

  type History = seq<Record>

  /** How text is read: an entry's label, and a label's significant words. */
  datatype Reader = Reader(tag: string -> string, words: string -> set<string>)

  /** The finding's label. */
  function LabelOf(rd: Reader, entry: string): string { rd.tag(entry) }

  /** What divides a label from its evidence. */
  const DASH := " — "

  /** The label as the script takes it: what stands before the evidence, tidied (lower-cased,
      its white space squeezed). */
  function Labelling(tidy: string -> string, dash: string): string -> string {
    (entry: string) => tidy(HeadOf(entry, dash))
  }

  /** Evidence never reaches the label: a repeat is not defeated by a shifted line number. */
  lemma EvidenceIgnored(rd: Reader, tidy: string -> string, head: string, evidence: string)
    requires rd.tag == Labelling(tidy, DASH) && EndsAt(head, DASH)
    ensures LabelOf(rd, head + DASH + evidence) == tidy(head)
  {
    HeadKept(head, DASH, evidence);
  }

  function Number(h: History, k: nat): int
    requires k < |h|
  { if h[k].round.Some? && h[k].round.value != 0 then h[k].round.value else k + 1 }

  /** Word sets that share at least 0.6 of their union. */
  predicate Alike(a: set<string>, b: set<string>) {
    a != {} && b != {} && 5 * |a * b| >= 3 * |a + b|
  }

  // ----- what the columns mean -----

  /** Raised in an earlier record of the task, label for label. */
  predicate RaisedBefore(rd: Reader, h: History, k: nat, tag: string)
    requires k <= |h|
  { exists j :: 0 <= j < k && exists e :: e in h[j].blocking && LabelOf(rd, e) == tag }

  predicate AlikeBefore(rd: Reader, h: History, k: nat, tag: string)
    requires k <= |h|
  { exists j :: 0 <= j < k && exists e :: e in h[j].blocking && Alike(rd.words(tag), rd.words(LabelOf(rd, e))) }

  function Repeats(rd: Reader, h: History, k: nat): string -> bool
    requires k <= |h|
  { (e: string) => RaisedBefore(rd, h, k, LabelOf(rd, e)) }

  function Novel(rd: Reader, h: History, k: nat): string -> bool
    requires k <= |h|
  { (e: string) => !RaisedBefore(rd, h, k, LabelOf(rd, e)) }

  function Similar(rd: Reader, h: History, k: nat): string -> bool
    requires k <= |h|
  { (e: string) => AlikeBefore(rd, h, k, LabelOf(rd, e)) }

  function Wordless(rd: Reader): string -> bool { (e: string) => rd.words(LabelOf(rd, e)) == {} }

  datatype Tally = Tally(
    records: nat, passed: nat, failed: nat, raised: nat, novel: nat, repeated: nat, similar: nat,
    demoted: nat, advisory: nat)

  const ZERO := Tally(0, 0, 0, 0, 0, 0, 0, 0, 0)

  function Plus(a: Tally, b: Tally): Tally {
    Tally(a.records + b.records, a.passed + b.passed, a.failed + b.failed, a.raised + b.raised,
          a.novel + b.novel, a.repeated + b.repeated, a.similar + b.similar, a.demoted + b.demoted,
          a.advisory + b.advisory)
  }

  function RecordTally(rd: Reader, h: History, k: nat, demoted: nat): Tally
    requires k < |h|
  {
    var r := h[k];
    Tally(1, if r.passed then 1 else 0, if r.passed then 0 else 1, |r.blocking|,
          CountOf(r.blocking, Novel(rd, h, k)), CountOf(r.blocking, Repeats(rd, h, k)),
          CountOf(r.blocking, Similar(rd, h, k)), demoted, r.advisory)
  }

  datatype Task = Task(id: string, history: History)

  type Demotions = map<(string, int), nat>

  function DemotedIn(d: Demotions, task: string, n: int): nat { if (task, n) in d then d[(task, n)] else 0 }

  /** What one record adds, and to which round; beside it, how many of its blocking entries
      have labels without a significant word. */
  datatype Share = Share(round: int, tally: Tally, wordless: nat)

  function ShareAt(rd: Reader, t: Task, d: Demotions, k: nat): Share
    requires k < |t.history|
  {
    Share(Number(t.history, k), RecordTally(rd, t.history, k, DemotedIn(d, t.id, Number(t.history, k))),
          CountOf(t.history[k].blocking, Wordless(rd)))
  }

  const NOTHING := Share(0, ZERO, 0)

  function Shares(rd: Reader, t: Task, d: Demotions): nat -> Share {
    (k: nat) => if k < |t.history| then ShareAt(rd, t, d, k) else NOTHING
  }

  /** `k` shares after those already there. */
  function WithShares(before: seq<Share>, share: nat -> Share, k: nat): seq<Share> {
    if k == 0 then before else WithShares(before, share, k - 1) + [share(k - 1)]
  }

  /** Every record's share, task after task. */
  function AllShares(rd: Reader, tasks: seq<Task>, d: Demotions): seq<Share> {
    if tasks == [] then []
    else
      var t := tasks[|tasks| - 1];
      WithShares(AllShares(rd, tasks[..|tasks| - 1], d), Shares(rd, t, d), |t.history|)
  }

  /** What round `n` gets. */
  function RoundTally(shares: seq<Share>, n: int): Tally {
    if shares == [] then ZERO
    else
      var s := shares[|shares| - 1];
      if s.round == n then Plus(RoundTally(shares[..|shares| - 1], n), s.tally)
      else RoundTally(shares[..|shares| - 1], n)
  }

  function RoundWordless(shares: seq<Share>, n: int): nat {
    if shares == [] then 0
    else
      var s := shares[|shares| - 1];
      RoundWordless(shares[..|shares| - 1], n) + if s.round == n then s.wordless else 0
  }

  // ----- the collection -----

  /** `_is_similar`. */
  method IsSimilar(words: set<string>, earlier: seq<set<string>>) returns (similar: bool)
    ensures similar <==> exists i :: 0 <= i < |earlier| && Alike(words, earlier[i])
  {
    if words == {} { return false; }
    for i := 0 to |earlier|
      invariant forall k :: 0 <= k < i ==> !Alike(words, earlier[k])
    {
      if earlier[i] == {} { continue; }
      if 5 * |words * earlier[i]| >= 3 * |words + earlier[i]| { return true; }
    }
    return false;
  }

  /** What has been seen are the labels of the records before, and their words. */
  ghost predicate Seen(rd: Reader, h: History, k: nat, labels: set<string>, words: seq<set<string>>)
    requires k <= |h|
  {
    && (forall l {:trigger RaisedBefore(rd, h, k, l)} :: l in labels <==> RaisedBefore(rd, h, k, l))
    && (forall l {:trigger AlikeBefore(rd, h, k, l)} ::
          (exists i :: 0 <= i < |words| && Alike(rd.words(l), words[i])) <==> AlikeBefore(rd, h, k, l))
  }

  function Known(rd: Reader, labels: set<string>): string -> bool { (e: string) => LabelOf(rd, e) in labels }

  function Unknown(rd: Reader, labels: set<string>): string -> bool { (e: string) => LabelOf(rd, e) !in labels }

  function AlikeAny(rd: Reader, words: seq<set<string>>): string -> bool {
    (e: string) => exists i :: 0 <= i < |words| && Alike(rd.words(LabelOf(rd, e)), words[i])
  }

  method TallyEntries(rd: Reader, entries: seq<string>, labels: set<string>, words: seq<set<string>>)
    returns (raised: nat, novel: nat, repeated: nat, similar: nat)
    ensures raised == |entries| && novel == CountOf(entries, Unknown(rd, labels))
    ensures repeated == CountOf(entries, Known(rd, labels)) && similar == CountOf(entries, AlikeAny(rd, words))
  {
    raised, novel, repeated, similar := 0, 0, 0, 0;
    for i := 0 to |entries|
      invariant raised == i
      invariant novel == CountOf(entries[..i], Unknown(rd, labels))
      invariant repeated == CountOf(entries[..i], Known(rd, labels))
      invariant similar == CountOf(entries[..i], AlikeAny(rd, words))
    {
      assert entries[..i + 1][..i] == entries[..i];
      raised := raised + 1;
      var tag := LabelOf(rd, entries[i]);
      var alike := IsSimilar(rd.words(tag), words);
      if alike { similar := similar + 1; }
      if tag in labels { repeated := repeated + 1; } else { novel := novel + 1; }
    }
    assert entries[..|entries|] == entries;
  }

  method TallyRecord(rd: Reader, h: History, k: nat, labels: set<string>, words: seq<set<string>>, demoted: nat)
    returns (tally: Tally)
    requires k < |h| && Seen(rd, h, k, labels, words)
    ensures tally == RecordTally(rd, h, k, demoted)
  {
    var r := h[k];
    var raised, novel, repeated, similar := TallyEntries(rd, r.blocking, labels, words);
    CountSame(r.blocking, Unknown(rd, labels), Novel(rd, h, k));
    CountSame(r.blocking, Known(rd, labels), Repeats(rd, h, k));
    CountSame(r.blocking, AlikeAny(rd, words), Similar(rd, h, k));
    tally := Tally(1, if r.passed then 1 else 0, if r.passed then 0 else 1, raised, novel, repeated, similar,
                   demoted, r.advisory);
  }

  /** Only after a record is done do its own findings count as seen. */
  method Remember(rd: Reader, h: History, k: nat, labels: set<string>, words: seq<set<string>>)
    returns (labels': set<string>, words': seq<set<string>>)
    requires k < |h| && Seen(rd, h, k, labels, words)
    ensures Seen(rd, h, k + 1, labels', words')
  {
    var entries := h[k].blocking;
    labels', words' := labels, words;
    for i := 0 to |entries|
      invariant forall l :: l in labels' <==> l in labels || exists e :: e in entries[..i] && LabelOf(rd, e) == l
      invariant |words'| == |words| + i && words'[..|words|] == words
      invariant forall j :: 0 <= j < i ==> words'[|words| + j] == rd.words(LabelOf(rd, entries[j]))
    {
      assert entries[..i + 1] == entries[..i] + [entries[i]];
      labels' := labels' + {LabelOf(rd, entries[i])};
      words' := words' + [rd.words(LabelOf(rd, entries[i]))];
    }
    assert entries[..|entries|] == entries;
    SeenMore(rd, h, k, labels, words, labels', words');
  }

  lemma SeenMore(rd: Reader, h: History, k: nat, labels: set<string>, words: seq<set<string>>,
                 labels': set<string>, words': seq<set<string>>)
    requires k < |h| && Seen(rd, h, k, labels, words)
    requires forall l :: l in labels' <==> l in labels || exists e :: e in h[k].blocking && LabelOf(rd, e) == l
    requires |words'| == |words| + |h[k].blocking| && words'[..|words|] == words
    requires forall j :: 0 <= j < |h[k].blocking| ==> words'[|words| + j] == rd.words(LabelOf(rd, h[k].blocking[j]))
    ensures Seen(rd, h, k + 1, labels', words')
  {
    var entries := h[k].blocking;
    forall l ensures l in labels' <==> RaisedBefore(rd, h, k + 1, l) {
      assert l in labels <==> RaisedBefore(rd, h, k, l);
      if RaisedBefore(rd, h, k + 1, l) && !RaisedBefore(rd, h, k, l) {
        var j :| 0 <= j < k + 1 && exists e :: e in h[j].blocking && LabelOf(rd, e) == l;
        assert j == k;
      }
    }
    forall l ensures (exists i :: 0 <= i < |words'| && Alike(rd.words(l), words'[i]))
      <==> AlikeBefore(rd, h, k + 1, l) {
      if i :| 0 <= i < |words'| && Alike(rd.words(l), words'[i]) {
        if i < |words| {
          assert words[i] == words'[..|words|][i];
          assert AlikeBefore(rd, h, k, l);
        } else {
          assert words'[|words| + (i - |words|)] == rd.words(LabelOf(rd, entries[i - |words|]))
                 && entries[i - |words|] in entries;
        }
      }
      if AlikeBefore(rd, h, k + 1, l) {
        var j :| 0 <= j < k + 1 && exists e :: e in h[j].blocking && Alike(rd.words(l), rd.words(LabelOf(rd, e)));
        if j == k {
          var e :| e in entries && Alike(rd.words(l), rd.words(LabelOf(rd, e)));
          var i :| 0 <= i < |entries| && entries[i] == e;
          assert Alike(rd.words(l), words'[|words| + i]);
        } else {
          assert AlikeBefore(rd, h, k, l);
          var i :| 0 <= i < |words| && Alike(rd.words(l), words[i]);
          assert words'[i] == words'[..|words|][i];
        }
      }
    }
  }

  function GetTally(rounds: map<int, Tally>, n: int): Tally { if n in rounds then rounds[n] else ZERO }

  // ----- the counters beside the rounds -----

  /** The history length at which the product starts to drop records. */
  const HISTORY_CAP := 12

  function HasHistory(): Task -> bool { (t: Task) => t.history != [] }

  function AtCap(): Task -> bool { (t: Task) => t.history != [] && |t.history| >= HISTORY_CAP }

  function Blocks(): Record -> bool { (r: Record) => r.blocking != [] }

  function BlocksTwice(): Task -> bool { (t: Task) => CountOf(t.history, Blocks()) > 1 }

  /** The highest round number there is, 0 at least. */
  ghost predicate Highest(tasks: seq<Task>, n: int) {
    && n >= 0 && (forall t, k :: t in tasks && 0 <= k < |t.history| ==> Number(t.history, k) <= n)
    && (n > 0 ==> exists t, k :: t in tasks && 0 <= k < |t.history| && Number(t.history, k) == n)
  }

  datatype Report = Report(
    rounds: map<int, Tally>, tasks: nat, withHistory: nat, atCap: nat, blockingTwice: nat,
    maxRound: int, demotions: nat)

  /** The counts of a table, added up in any order. */
  ghost function TotalOf(d: Demotions): nat {
    if d == map[] then 0 else var key :| key in d; d[key] + TotalOf(d - {key})
  }

  lemma {:induction false} TotalWithout(d: Demotions, key: (string, int))
    requires key in d
    ensures TotalOf(d) == d[key] + TotalOf(d - {key})
  {
    var first :| first in d && TotalOf(d) == d[first] + TotalOf(d - {first});
    if first != key {
      TotalWithout(d - {first}, key);
      TotalWithout(d - {key}, first);
      assert d - {first} - {key} == d - {key} - {first};
    }
  }

  method SumDemotions(d: Demotions) returns (total: nat)
    ensures total == TotalOf(d)
  {
    total := 0;
    var rest := d;
    while rest != map[]
      invariant total + TotalOf(rest) == TotalOf(d)
      decreases |rest|
    {
      var key :| key in rest;
      TotalWithout(rest, key);
      total := total + rest[key];
      rest := rest - {key};
    }
  }

  method HighestIn(t: Task, highest: int, ghost tasks: seq<Task>) returns (max: int)
    requires Highest(tasks, highest)
    ensures Highest(tasks + [t], max)
  {
    max := highest;
    for k := 0 to |t.history|
      invariant max >= highest && forall j :: 0 <= j < k ==> Number(t.history, j) <= max
      invariant max == highest || exists j :: 0 <= j < k && Number(t.history, j) == max
    {
      if Number(t.history, k) > max { max := Number(t.history, k); }
    }
    assert t in tasks + [t] && forall x :: x in tasks ==> x in tasks + [t];
  }

  method CountBlocking(t: Task) returns (n: nat)
    ensures n == CountOf(t.history, Blocks())
  {
    n := 0;
    for k := 0 to |t.history|
      invariant n == CountOf(t.history[..k], Blocks())
    {
      assert t.history[..k + 1][..k] == t.history[..k];
      if t.history[k].blocking != [] { n := n + 1; }
    }
    assert t.history[..|t.history|] == t.history;
  }

  /** How many tasks there are, have a history, stand at its cap, raised blocking findings in
      more than one round; and the highest round. */
  method CountTasks(tasks: seq<Task>) returns (withHistory: nat, atCap: nat, twice: nat, maxRound: int)
    ensures withHistory == CountOf(tasks, HasHistory()) && atCap == CountOf(tasks, AtCap())
    ensures twice == CountOf(tasks, BlocksTwice()) && Highest(tasks, maxRound)
  {
    withHistory, atCap, twice, maxRound := 0, 0, 0, 0;
    for i := 0 to |tasks|
      invariant withHistory == CountOf(tasks[..i], HasHistory()) && atCap == CountOf(tasks[..i], AtCap())
      invariant twice == CountOf(tasks[..i], BlocksTwice()) && Highest(tasks[..i], maxRound)
    {
      var t := tasks[i];
      assert tasks[..i + 1] == tasks[..i] + [t];
      CountSnoc(tasks[..i], t, HasHistory());
      CountSnoc(tasks[..i], t, AtCap());
      CountSnoc(tasks[..i], t, BlocksTwice());
      maxRound := HighestIn(t, maxRound, tasks[..i]);
      var blocking := CountBlocking(t);
      if t.history == [] { continue; }
      withHistory := withHistory + 1;
      if |t.history| >= HISTORY_CAP { atCap := atCap + 1; }
      if blocking > 1 { twice := twice + 1; }
    }
    assert tasks[..|tasks|] == tasks;
  }

  /** Every round's bucket holds what the records of that number add, over all tasks. */
  method Collect(rd: Reader, tasks: seq<Task>, d: Demotions) returns (report: Report)
    ensures forall n :: GetTally(report.rounds, n) == RoundTally(AllShares(rd, tasks, d), n)
    ensures report.tasks == |tasks| && report.withHistory == CountOf(tasks, HasHistory())
    ensures report.atCap == CountOf(tasks, AtCap()) && report.blockingTwice == CountOf(tasks, BlocksTwice())
    ensures Highest(tasks, report.maxRound) && report.demotions == TotalOf(d)
  {
    var rounds := CollectRounds(rd, tasks, d);
    var withHistory, atCap, twice, maxRound := CountTasks(tasks);
    var total := SumDemotions(d);
    report := Report(rounds, |tasks|, withHistory, atCap, twice, maxRound, total);
  }

  method CollectRounds(rd: Reader, tasks: seq<Task>, d: Demotions) returns (rounds: map<int, Tally>)
    ensures forall n :: GetTally(rounds, n) == RoundTally(AllShares(rd, tasks, d), n)
  {
    rounds := map[];
    for i := 0 to |tasks|
      invariant forall n :: GetTally(rounds, n) == RoundTally(AllShares(rd, tasks[..i], d), n)
    {
      assert tasks[..i + 1][..i] == tasks[..i];
      rounds := CollectTask(rd, tasks[i], d, Shares(rd, tasks[i], d), AllShares(rd, tasks[..i], d), rounds);
    }
    assert tasks[..|tasks|] == tasks;
  }

  method AddShare(before: map<int, Tally>, share: Share, ghost shares: seq<Share>) returns (rounds: map<int, Tally>)
    requires forall n :: GetTally(before, n) == RoundTally(shares, n)
    ensures forall n :: GetTally(rounds, n) == RoundTally(shares + [share], n)
  {
    rounds := before[share.round := Plus(GetTally(before, share.round), share.tally)];
    assert (shares + [share])[..|shares|] == shares;
  }

  /** `f` gives the shares of a task's records. */
  ghost predicate Gives(f: nat -> Share, rd: Reader, t: Task, d: Demotions) {
    forall k: nat {:trigger ShareAt(rd, t, d, k)} :: k < |t.history| ==> f(k) == ShareAt(rd, t, d, k)
  }

  method ReadRecord(rd: Reader, t: Task, d: Demotions, k: nat, labels: set<string>, words: seq<set<string>>,
                    ghost f: nat -> Share)
    returns (share: Share, labels': set<string>, words': seq<set<string>>)
    requires k < |t.history| && Seen(rd, t.history, k, labels, words) && Gives(f, rd, t, d)
    ensures share == f(k) && Seen(rd, t.history, k + 1, labels', words')
  {
    var n := Number(t.history, k);
    var tally := TallyRecord(rd, t.history, k, labels, words, DemotedIn(d, t.id, n));
    share := Share(n, tally, CountOf(t.history[k].blocking, Wordless(rd)));
    assert share == ShareAt(rd, t, d, k);
    labels', words' := Remember(rd, t.history, k, labels, words);
  }

  method CollectTask(rd: Reader, t: Task, d: Demotions, ghost f: nat -> Share, ghost shares: seq<Share>,
                     before: map<int, Tally>)
    returns (rounds: map<int, Tally>)
    requires Gives(f, rd, t, d)
    requires forall n :: GetTally(before, n) == RoundTally(shares, n)
    ensures forall n :: GetTally(rounds, n) == RoundTally(WithShares(shares, f, |t.history|), n)
  {
    rounds := before;
    var labels: set<string> := {};
    var words: seq<set<string>> := [];
    for k := 0 to |t.history|
      invariant Seen(rd, t.history, k, labels, words)
      invariant forall n :: GetTally(rounds, n) == RoundTally(WithShares(shares, f, k), n)
    {
      var share;
      share, labels, words := ReadRecord(rd, t, d, k, labels, words, f);
      rounds := AddShare(rounds, share, WithShares(shares, f, k));
    }
  }

  // ----- what every round's tally obeys -----

  /** An exact repeat that has a significant word is similar too. */
  lemma RepeatIsAlike(rd: Reader, h: History, k: nat, tag: string)
    requires k <= |h| && RaisedBefore(rd, h, k, tag) && rd.words(tag) != {}
    ensures AlikeBefore(rd, h, k, tag)
  {
    var j :| 0 <= j < k && exists e :: e in h[j].blocking && LabelOf(rd, e) == tag;
    var e :| e in h[j].blocking && LabelOf(rd, e) == tag;
    var w := rd.words(tag);
    assert w * w == w && w + w == w;
  }

  ghost predicate AddsUp(y: Tally, wordless: nat) {
    y.novel + y.repeated == y.raised && y.passed + y.failed == y.records && y.repeated <= y.similar + wordless
  }

  lemma RecordAddsUp(rd: Reader, h: History, k: nat, demoted: nat)
    requires k < |h|
    ensures AddsUp(RecordTally(rd, h, k, demoted), CountOf(h[k].blocking, Wordless(rd)))
  {
    var entries := h[k].blocking;
    CountComplement(entries, Novel(rd, h, k), Repeats(rd, h, k));
    forall e | e in entries && Repeats(rd, h, k)(e) ensures Similar(rd, h, k)(e) || Wordless(rd)(e) {
      if rd.words(LabelOf(rd, e)) != {} { RepeatIsAlike(rd, h, k, LabelOf(rd, e)); }
    }
    CountEither(entries, Repeats(rd, h, k), Similar(rd, h, k), Wordless(rd));
  }

  lemma PlusAddsUp(a: Tally, b: Tally, m: nat, n: nat)
    requires AddsUp(a, m) && AddsUp(b, n)
    ensures AddsUp(Plus(a, b), m + n)
  {
  }

  lemma {:induction false} SharesAddUp(shares: seq<Share>, n: int)
    requires forall s :: s in shares ==> AddsUp(s.tally, s.wordless)
    ensures AddsUp(RoundTally(shares, n), RoundWordless(shares, n))
  {
    if shares != [] {
      var rest, s := shares[..|shares| - 1], shares[|shares| - 1];
      assert s in shares && forall x :: x in rest ==> x in shares;
      SharesAddUp(rest, n);
      PlusAddsUp(RoundTally(rest, n), s.tally, RoundWordless(rest, n), s.wordless);
    }
  }

  lemma {:induction false} TaskSharesAddUp(before: seq<Share>, f: nat -> Share, k: nat)
    requires forall s :: s in before ==> AddsUp(s.tally, s.wordless)
    requires forall j: nat :: j < k ==> AddsUp(f(j).tally, f(j).wordless)
    ensures forall s :: s in WithShares(before, f, k) ==> AddsUp(s.tally, s.wordless)
  {
    if k > 0 { TaskSharesAddUp(before, f, k - 1); }
  }

  lemma TaskAddsUp(rd: Reader, t: Task, d: Demotions)
    ensures forall j: nat :: j < |t.history| ==> AddsUp(Shares(rd, t, d)(j).tally, Shares(rd, t, d)(j).wordless)
  {
    forall j: nat | j < |t.history| ensures AddsUp(Shares(rd, t, d)(j).tally, Shares(rd, t, d)(j).wordless) {
      RecordAddsUp(rd, t.history, j, DemotedIn(d, t.id, Number(t.history, j)));
    }
  }

  lemma {:induction false} EveryShareAddsUp(rd: Reader, tasks: seq<Task>, d: Demotions)
    ensures forall s :: s in AllShares(rd, tasks, d) ==> AddsUp(s.tally, s.wordless)
  {
    if tasks != [] {
      var t := tasks[|tasks| - 1];
      EveryShareAddsUp(rd, tasks[..|tasks| - 1], d);
      TaskAddsUp(rd, t, d);
      TaskSharesAddUp(AllShares(rd, tasks[..|tasks| - 1], d), Shares(rd, t, d), |t.history|);
    }
  }

  /** In every round, new and repeated findings make up those raised, and every repeat with a
      significant word is counted similar. */
  lemma RoundAddsUp(rd: Reader, tasks: seq<Task>, d: Demotions, n: int)
    ensures AddsUp(RoundTally(AllShares(rd, tasks, d), n), RoundWordless(AllShares(rd, tasks, d), n))
  {
    EveryShareAddsUp(rd, tasks, d);
    SharesAddUp(AllShares(rd, tasks, d), n);
  }

  // ----- the demoted column -----

  /** What a task's records show as demoted, and what was attributed to rounds 1 to `hi`. */
  function Shown(t: Task, d: Demotions, k: nat): nat
    requires k <= |t.history|
  { if k == 0 then 0 else Shown(t, d, k - 1) + DemotedIn(d, t.id, Number(t.history, k - 1)) }

  function Attributed(t: Task, d: Demotions, hi: nat): nat {
    if hi == 0 then 0 else Attributed(t, d, hi - 1) + DemotedIn(d, t.id, hi)
  }

  /** How many of the first `k` records carry the number `n`. */
  function Times(t: Task, k: nat, n: int): nat
    requires k <= |t.history|
  { if k == 0 then 0 else Times(t, k - 1, n) + if Number(t.history, k - 1) == n then 1 else 0 }

  /** The demotions of each round up to `hi`, as often as the round is recorded. */
  function Weighed(t: Task, d: Demotions, k: nat, hi: nat): nat
    requires k <= |t.history|
  { if hi == 0 then 0 else Weighed(t, d, k, hi - 1) + DemotedIn(d, t.id, hi) * Times(t, k, hi) }

  /** The demotions of rounds no record carries. */
  function Lost(t: Task, d: Demotions, hi: nat): nat {
    if hi == 0 then 0
    else Lost(t, d, hi - 1) + if Times(t, |t.history|, hi) == 0 then DemotedIn(d, t.id, hi) else 0
  }

  /** The demotions of rounds that several records carry, once for each record too many. */
  function Doubled(t: Task, d: Demotions, hi: nat): nat {
    if hi == 0 then 0
    else
      var n := Times(t, |t.history|, hi);
      Doubled(t, d, hi - 1) + if n > 1 then DemotedIn(d, t.id, hi) * (n - 1) else 0
  }

  lemma {:induction false} WeighOneMore(t: Task, d: Demotions, k: nat, hi: nat)
    requires k < |t.history|
    ensures var n := Number(t.history, k);
      Weighed(t, d, k + 1, hi) == Weighed(t, d, k, hi) + if 1 <= n <= hi then DemotedIn(d, t.id, n) else 0
  {
    if hi > 0 {
      WeighOneMore(t, d, k, hi - 1);
      OnceMore(DemotedIn(d, t.id, hi), Times(t, k, hi));
    }
  }

  lemma OnceMore(m: nat, n: nat)
    ensures m * (n + 1) == m * n + m
  {
  }

  lemma {:induction false} WeighNone(t: Task, d: Demotions, hi: nat)
    ensures Weighed(t, d, 0, hi) == 0
  {
    if hi > 0 { WeighNone(t, d, hi - 1); }
  }

  lemma {:induction false} ShownIsWeighed(t: Task, d: Demotions, k: nat, hi: nat)
    requires k <= |t.history| && forall n :: DemotedIn(d, t.id, n) > 0 ==> 1 <= n <= hi
    ensures Shown(t, d, k) == Weighed(t, d, k, hi)
  {
    if k == 0 {
      WeighNone(t, d, hi);
    } else {
      ShownIsWeighed(t, d, k - 1, hi);
      WeighOneMore(t, d, k - 1, hi);
    }
  }

  lemma {:induction false} WeighedAccounts(t: Task, d: Demotions, hi: nat)
    ensures Weighed(t, d, |t.history|, hi) + Lost(t, d, hi) == Attributed(t, d, hi) + Doubled(t, d, hi)
  {
    if hi > 0 {
      WeighedAccounts(t, d, hi - 1);
      if Times(t, |t.history|, hi) > 1 { OnceMore(DemotedIn(d, t.id, hi), Times(t, |t.history|, hi) - 1); }
    }
  }

  lemma {:induction false} LostNone(t: Task, d: Demotions, hi: nat)
    ensures Lost(t, d, hi) == 0
            <==> forall n :: 1 <= n <= hi && DemotedIn(d, t.id, n) > 0 ==> Times(t, |t.history|, n) > 0
  {
    if hi > 0 { LostNone(t, d, hi - 1); }
  }

  lemma {:induction false} DoubledNone(t: Task, d: Demotions, hi: nat)
    ensures Doubled(t, d, hi) == 0
            <==> forall n :: 1 <= n <= hi && DemotedIn(d, t.id, n) > 0 ==> Times(t, |t.history|, n) <= 1
  {
    if hi > 0 {
      DoubledNone(t, d, hi - 1);
      if Times(t, |t.history|, hi) > 1 { NoProduct(DemotedIn(d, t.id, hi), Times(t, |t.history|, hi) - 1); }
    }
  }

  lemma NoProduct(m: nat, n: nat)
    requires n > 0
    ensures m * n == 0 <==> m == 0
  {
    if m > 0 { assert m * n >= n; }
  }

  /** What a task's demoted column shows, and what was attributed to its rounds: they differ by
      the demotions of rounds no longer in the history and those of rounds recorded more than
      once. Nothing is lost exactly when every round with a demotion is recorded, and nothing
      shown twice exactly when none of them is recorded twice. */
  lemma ColumnAccounts(t: Task, d: Demotions, hi: nat)
    requires forall n :: DemotedIn(d, t.id, n) > 0 ==> 1 <= n <= hi
    ensures Shown(t, d, |t.history|) + Lost(t, d, hi) == Attributed(t, d, hi) + Doubled(t, d, hi)
    ensures Lost(t, d, hi) == 0 <==> forall n :: DemotedIn(d, t.id, n) > 0 ==> Times(t, |t.history|, n) > 0
    ensures Doubled(t, d, hi) == 0 <==> forall n :: DemotedIn(d, t.id, n) > 0 ==> Times(t, |t.history|, n) <= 1
  {
    ShownIsWeighed(t, d, |t.history|, hi);
    WeighedAccounts(t, d, hi);
    LostNone(t, d, hi);
    DoubledNone(t, d, hi);
  }
}
