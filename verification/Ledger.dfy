/** The tree check and the manifest writer of scripts/check_release_manifest.py: what exit
    code 0 of `--strict` means, and that it follows a successful `--write`. */
module Ledger {
  import opened PyText
  import opened Order
  import opened Manifest
  import D = Digest

  /** What stands at a path; `Missing` says that nothing there can be read. */
  datatype FileData = Missing | Regular(data: D.Bytes) | Link(target: D.Bytes)

  /** An exit code, or the uncaught error of hashing a file that is not there. */
  datatype Outcome = Exit(code: nat) | Crash

  /** A checkout: the tracked paths, what stands at each path, the manifest's text, and the
      paths the classification says may not be pinned (`None` without a classification). */
  datatype Tree = Tree(
    tracked: seq<string>, file: string -> FileData, manifest: Option<string>,
    unpinnable: Option<map<string, string>>)

  type Hash = D.Bytes -> string

  ghost predicate IsHexHash(h: Hash) { forall b :: IsDigest(h(b)) }

  /** What `git ls-files` lists: no path twice, none empty. */
  ghost predicate Checkout(t: Tree) { Distinct(t.tracked) && "" !in t.tracked }

  /** The hash of the bytes; of a link, of its target. */
  function HashPath(h: Hash, f: FileData): string
    requires f != Missing
  { match f case Regular(data) => h(data) case Link(target) => h(target) }

  const CRLF: D.Bytes := [13, 10]
  const LF: D.Bytes := [10]

  /** The hash a CRLF checkout of the file would have had with LF endings. */
  function LfNormalizedHash(h: Hash, f: FileData): Option<string> {
    match f
    case Regular(data) =>
      if IndexOf(data, CRLF, 0).None? || ReplaceAll(data, CRLF, LF) == data then None
      else Some(h(ReplaceAll(data, CRLF, LF)))
    case _ => None
  }

  function Reason(t: Tree, p: string): Option<string> {
    if t.unpinnable.Some? && p in t.unpinnable.value then Some(t.unpinnable.value[p]) else None
  }

  // ----- the check -----

  /** A listed path the tree does not bear out. */
  predicate Unborne(h: Hash, t: Tree, listed: map<string, string>, p: string)
    requires p in listed
  {
    || p == MANIFEST_NAME || p !in t.tracked || Reason(t, p).Some?
    || t.file(p) == Missing || HashPath(h, t.file(p)) != listed[p]
  }

  predicate Unlisted(t: Tree, listed: map<string, string>, p: string) {
    p != MANIFEST_NAME && p !in listed && Reason(t, p).None?
  }

  /** The tracked files that ought to be listed and are not. */
  method UnlistedFiles(t: Tree, listed: map<string, string>) returns (unlisted: set<string>)
    ensures forall p :: p in unlisted <==> p in t.tracked && Unlisted(t, listed, p)
  {
    var missing := (set p | p in t.tracked) - {MANIFEST_NAME} - listed.Keys;
    var todo := missing;
    unlisted := {};
    while todo != {}
      invariant todo <= missing
      invariant unlisted == set p | p in missing - todo && Reason(t, p).None?
    {
      var rel :| rel in todo;
      todo := todo - {rel};
      if Reason(t, rel).Some? { continue; }
      unlisted := unlisted + {rel};
    }
  }

  /** A row the check would hash, with nothing there to hash. */
  predicate Vanished(t: Tree, p: string) { Reason(t, p).None? && t.file(p) == Missing }

  predicate Drifted(h: Hash, t: Tree, listed: map<string, string>, p: string)
    requires p in listed
  { Reason(t, p).Some? || t.file(p) == Missing || HashPath(h, t.file(p)) != listed[p] }

  /** The rows of tracked files that name a file they may not, or other bytes; `None` when
      one of them cannot be hashed. */
  method DriftedRows(h: Hash, t: Tree, listed: map<string, string>, both: set<string>)
    returns (drifted: Option<set<string>>)
    requires both <= listed.Keys
    ensures drifted.None? <==> exists p :: p in both && Vanished(t, p)
    ensures drifted.Some? ==> drifted.value == set p | p in both && Drifted(h, t, listed, p)
  {
    var todo := both;
    var found: set<string> := {};
    while todo != {}
      invariant todo <= both && forall p :: p in both - todo ==> !Vanished(t, p)
      invariant found == set p | p in both - todo && Drifted(h, t, listed, p)
    {
      var rel :| rel in todo;
      todo := todo - {rel};
      if Reason(t, rel).Some? {
        found := found + {rel};
        continue;
      }
      if t.file(rel) == Missing { return None; }
      var actual := HashPath(h, t.file(rel));
      if actual != listed[rel] { found := found + {rel}; }
    }
    return Some(found);
  }

  /** A listed, tracked and pinnable file that is not there. */
  ghost predicate RowVanished(t: Tree, listed: map<string, string>) {
    exists p :: p in listed && p in t.tracked && p != MANIFEST_NAME && Vanished(t, p)
  }

  method CheckManifest(h: Hash, t: Tree, strict: bool) returns (out: Outcome)
    requires Checkout(t)
    ensures out in {Exit(0), Exit(1), Crash}
    ensures out == Crash <==> t.manifest.Some? && match Parse(t.manifest.value)
      case Rows(listed) => RowVanished(t, listed)
      case _ => false
    ensures out == Exit(0) <==> t.manifest.Some? && match Parse(t.manifest.value)
      case Rows(listed) =>
        && (forall p :: p in listed ==> !Unborne(h, t, listed, p))
        && (strict ==> forall p :: p in t.tracked ==> !Unlisted(t, listed, p))
      case _ => false
  {
    if t.manifest.None? { return Exit(1); }
    var parsed := ParseManifest(t.manifest.value);
    if !parsed.Rows? { return Exit(1); }
    out := CheckRows(h, t, parsed.rows, strict);
  }

  method CheckRows(h: Hash, t: Tree, listed: map<string, string>, strict: bool) returns (out: Outcome)
    requires Checkout(t)
    ensures out in {Exit(0), Exit(1), Crash}
    ensures out == Crash <==> RowVanished(t, listed)
    ensures out == Exit(0) <==> (forall p :: p in listed ==> !Unborne(h, t, listed, p))
                                && (strict ==> forall p :: p in t.tracked ==> !Unlisted(t, listed, p))
  {
    var problems: set<string> := {};
    if MANIFEST_NAME in listed { problems := {MANIFEST_NAME}; }
    var trackedSet := (set p | p in t.tracked) - {MANIFEST_NAME};
    var listedSet := listed.Keys - {MANIFEST_NAME};
    var unlisted := UnlistedFiles(t, listed);
    problems := problems + (listedSet - trackedSet);
    var drifted := DriftedRows(h, t, listed, listedSet * trackedSet);
    forall p ensures p in listedSet * trackedSet <==> p in listed && p in t.tracked && p != MANIFEST_NAME {}
    if drifted.None? {
      var p :| p in listedSet * trackedSet && Vanished(t, p);
      assert Unborne(h, t, listed, p);
      return Crash;
    }
    problems := problems + drifted.value;
    forall p ensures p in problems <==> p in listed && Unborne(h, t, listed, p) {}
    if problems != {} {
      assert exists p :: p in problems;
      return Exit(1);
    }
    if unlisted != {} && strict {
      assert exists p :: p in unlisted;
      return Exit(1);
    }
    return Exit(0);
  }

  /** The two sides agree: every row is borne out by a tracked, pinnable file, and every
      other tracked file has a row or may not have one. */
  ghost predicate Matches(h: Hash, t: Tree, listed: map<string, string>) {
    && MANIFEST_NAME !in listed
    && (forall p :: p in listed ==> p in t.tracked && Reason(t, p).None? && t.file(p) != Missing
                                    && HashPath(h, t.file(p)) == listed[p])
    && (forall p :: p in t.tracked && p != MANIFEST_NAME && Reason(t, p).None? ==> p in listed)
  }

  ghost predicate StrictlyClean(h: Hash, t: Tree) {
    t.manifest.Some? && match Parse(t.manifest.value) case Rows(listed) => Matches(h, t, listed) case _ => false
  }

  method CheckStrict(h: Hash, t: Tree) returns (out: Outcome)
    requires Checkout(t)
    ensures out == Exit(0) <==> StrictlyClean(h, t)
  {
    out := CheckManifest(h, t, true);
  }

  // ----- the writer -----

  /** The tracked files a manifest pins. */
  function Pinned(tracked: seq<string>): seq<string> {
    if tracked == [] then []
    else
      var last := tracked[|tracked| - 1];
      Pinned(tracked[..|tracked| - 1]) + (if last == MANIFEST_NAME then [] else [last])
  }

  lemma {:induction false} PinnedPaths(tracked: seq<string>)
    requires Distinct(tracked)
    ensures Distinct(Pinned(tracked)) && forall p :: p in Pinned(tracked) <==> p in tracked && p != MANIFEST_NAME
  {
    if tracked != [] {
      var n := |tracked| - 1;
      assert tracked == tracked[..n] + [tracked[n]];
      PinnedPaths(tracked[..n]);
      assert tracked[n] !in tracked[..n];
    }
  }

  /** A pinned path whose bytes drift from its row only by their line endings. */
  predicate OnlyLineEndings(h: Hash, t: Tree, previous: map<string, string>, p: string)
    requires p in previous
  {
    && p != MANIFEST_NAME && p in t.tracked && t.file(p) != Missing
    && HashPath(h, t.file(p)) != previous[p] && LfNormalizedHash(h, t.file(p)) == Some(previous[p])
  }

  /** The rows the manifest holds now, or none when it cannot be read. */
  function PreviousRows(t: Tree): map<string, string> {
    if t.manifest.None? then map[]
    else match Parse(t.manifest.value) case Rows(rows) => rows case _ => map[]
  }

  /** Every file to pin is there. */
  ghost predicate AllThere(t: Tree) { forall p :: p in t.tracked && p != MANIFEST_NAME ==> t.file(p) != Missing }

  ghost function CurrentRows(h: Hash, t: Tree): map<string, string>
    requires AllThere(t)
  { map p | p in t.tracked && p != MANIFEST_NAME :: HashPath(h, t.file(p)) }

  /** The tree after a regeneration: one row for each pinned file, sorted by path. */
  ghost predicate Rewrites(h: Hash, t: Tree, t': Tree) {
    AllThere(t) && exists order :: Lists(order, CurrentRows(h, t)) && SortedBy(order, TextLe)
                    && t' == t.(manifest := Some(Render(order, CurrentRows(h, t))))
  }

  ghost predicate NothingUnpinnable(t: Tree) {
    forall p :: p in t.tracked && p != MANIFEST_NAME ==> Reason(t, p).None?
  }

  ghost predicate NothingConverted(h: Hash, t: Tree) {
    NoneConverted(h, t, PreviousRows(t))
  }

  ghost predicate NoneConverted(h: Hash, t: Tree, previous: map<string, string>) {
    forall p :: p in previous ==> !OnlyLineEndings(h, t, previous, p)
  }

  /** The writer refuses exactly when it would pin a path that must not ship or would
      replace reviewed hashes by those of converted bytes; a missing file makes it fail
      after that. Either way it leaves the tree alone. */
  method WriteManifest(h: Hash, t: Tree) returns (out: Outcome, t': Tree)
    requires Checkout(t)
    ensures out in {Exit(0), Exit(2), Crash}
    ensures out == Exit(2) <==> !(NothingUnpinnable(t) && NothingConverted(h, t))
    ensures out == Crash <==> NothingUnpinnable(t) && NothingConverted(h, t) && !AllThere(t)
    ensures out != Exit(0) ==> t' == t
    ensures out == Exit(0) ==> Rewrites(h, t, t')
  {
    var tracked := Pinned(t.tracked);
    PinnedPaths(t.tracked);
    t' := t;
    var refused := AnyUnpinnable(t, tracked);
    if refused { return Exit(2), t; }
    var previous := ReadPrevious(t);
    var converted := AnyConverted(h, t, previous);
    if converted { return Exit(2), t; }
    out, t' := WriteRows(h, t, tracked);
  }

  method AnyUnpinnable(t: Tree, tracked: seq<string>) returns (refused: bool)
    requires forall p :: p in tracked <==> p in t.tracked && p != MANIFEST_NAME
    ensures refused <==> !NothingUnpinnable(t)
  {
    var paths := set p | p in tracked && Reason(t, p).Some?;
    assert forall p :: p in paths <==> p in t.tracked && p != MANIFEST_NAME && Reason(t, p).Some?;
    refused := paths != {};
    assert refused ==> exists p :: p in paths;
  }

  method AnyConverted(h: Hash, t: Tree, previous: map<string, string>) returns (converted: bool)
    ensures converted <==> !NoneConverted(h, t, previous)
  {
    var paths := set p | p in previous && OnlyLineEndings(h, t, previous, p);
    assert forall p :: p in paths <==> p in previous && OnlyLineEndings(h, t, previous, p);
    converted := paths != {};
    assert converted ==> exists p :: p in paths;
  }

  method ReadPrevious(t: Tree) returns (rows: map<string, string>)
    ensures rows == PreviousRows(t)
  {
    if t.manifest.None? { return map[]; }
    var parsed := ParseManifest(t.manifest.value);
    if !parsed.Rows? { return map[]; }
    return parsed.rows;
  }

  method WriteRows(h: Hash, t: Tree, tracked: seq<string>) returns (out: Outcome, t': Tree)
    requires Distinct(tracked) && forall p :: p in tracked <==> p in t.tracked && p != MANIFEST_NAME
    ensures out == if AllThere(t) then Exit(0) else Crash
    ensures if AllThere(t) then Rewrites(h, t, t') else t' == t
  {
    for i := 0 to |tracked|
      invariant forall p :: p in tracked[..i] ==> t.file(p) != Missing
    {
      assert tracked[i] in tracked;
      if t.file(tracked[i]) == Missing { return Crash, t; }
    }
    assert tracked[..|tracked|] == tracked;
    var rows := map p | p in tracked :: HashPath(h, t.file(p));
    assert rows == CurrentRows(h, t);
    var order := Sort(tracked, TextLe);
    SortedListing(tracked);
    return Exit(0), t.(manifest := Some(Render(order, rows)));
  }

  lemma SortedListing(tracked: seq<string>)
    requires Distinct(tracked)
    ensures var order := Sort(tracked, TextLe);
      Distinct(order) && SortedBy(order, TextLe) && forall p :: p in order <==> p in tracked
  {
    var order := Sort(tracked, TextLe);
    SortKeeps(tracked, TextLe);
    TextOrder();
    SortSorts(tracked, TextLe);
    forall p ensures p in order <==> p in tracked {
      assert p in order <==> p in multiset(order);
      assert p in tracked <==> p in multiset(tracked);
    }
    SameCounts(tracked, order);
  }

  // ----- writing, then checking -----

  /** A manifest just written passes the strict check exactly when every pinned path can
      stand in a row: no newline, no CR at its end. */
  lemma WriteThenCheck(h: Hash, t: Tree, t': Tree)
    requires IsHexHash(h) && NothingUnpinnable(t) && Rewrites(h, t, t')
    ensures StrictlyClean(h, t') <==> forall p :: p in t.tracked && p != MANIFEST_NAME ==> Plain(p)
  {
    var rows := CurrentRows(h, t);
    var order :| Lists(order, rows) && SortedBy(order, TextLe)
                 && t' == t.(manifest := Some(Render(order, rows)));
    ParseUndoesRender(order, rows);
    MatchingRows(h, t, t');
  }

  /** Only the tree's own rows match it. */
  lemma MatchingRows(h: Hash, t: Tree, t': Tree)
    requires AllThere(t) && NothingUnpinnable(t) && t'.manifest.Some? && t' == t.(manifest := t'.manifest)
    ensures StrictlyClean(h, t') <==> Parse(t'.manifest.value) == Rows(CurrentRows(h, t))
  {
    var parsed := Parse(t'.manifest.value);
    assert forall p :: Reason(t', p) == Reason(t, p);
    if parsed.Rows? { OnlyOwnRows(h, t', parsed.rows); }
  }

  lemma OnlyOwnRows(h: Hash, t: Tree, listed: map<string, string>)
    requires AllThere(t) && NothingUnpinnable(t)
    ensures Matches(h, t, listed) <==> listed == CurrentRows(h, t)
  {
    var rows := CurrentRows(h, t);
    if Matches(h, t, listed) {
      forall p ensures p in listed <==> p in rows {}
      assert listed == rows;
    }
  }

  /** Regenerating a second time succeeds and changes nothing. */
  lemma WriteTwice(h: Hash, t: Tree, t': Tree, t'': Tree)
    requires IsHexHash(h) && NothingUnpinnable(t) && Rewrites(h, t, t')
    requires forall p :: p in t.tracked && p != MANIFEST_NAME ==> Plain(p)
    requires Rewrites(h, t', t'')
    ensures NothingUnpinnable(t') && NothingConverted(h, t') && t'' == t'
  {
    var rows := CurrentRows(h, t);
    var order :| Lists(order, rows) && SortedBy(order, TextLe)
                 && t' == t.(manifest := Some(Render(order, rows)));
    var order' :| Lists(order', rows) && SortedBy(order', TextLe)
                  && t'' == t'.(manifest := Some(Render(order', rows)));
    ParseUndoesRender(order, rows);
    assert forall p :: Reason(t', p) == Reason(t, p);
    SameElements(order, order');
    TextOrder();
    SortedIsUnique(order, order', TextLe);
  }

  /** One tracked file whose name ends in a carriage return: the writer succeeds, and the
      strict check of what it wrote fails. */
  lemma WrittenNotRead(h: Hash, data: D.Bytes, name: string) returns (t: Tree, t': Tree)
    requires IsHexHash(h)
    ensures t.tracked == [name + "\r"] && t.manifest.None? && Checkout(t)
    ensures NothingUnpinnable(t) && NothingConverted(h, t) && Rewrites(h, t, t') && !StrictlyClean(h, t')
  {
    var path := name + "\r";
    t := Tree([path], p => Regular(data), None, None);
    var rows := CurrentRows(h, t);
    assert path != MANIFEST_NAME && !Plain(path);
    assert Lists([path], rows) && SortedBy([path], TextLe);
    t' := t.(manifest := Some(Render([path], rows)));
    WriteThenCheck(h, t, t');
  }
}
