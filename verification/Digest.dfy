/** The content digest of scripts/verify_artefact.py and hatch_build.py: a hash over the
    sorted lines `<hash of the bytes>  <path>` of a set of files. */
module Digest {
  import opened PyText
  import opened Order

  newtype byte = x: int | 0 <= x < 256

  type Bytes = seq<byte>

  const NEWLINE: byte := 10
  const SPACE: byte := 32

  /** A hash in the form the scripts use it: 64 characters of text, none a newline. */
  ghost predicate IsHash(h: Bytes -> Bytes) {
    forall x :: |h(x)| == 64 && NEWLINE !in h(x)
  }

  /** Among these inputs, the hash tells every two apart. */
  ghost predicate CollisionFree(h: Bytes -> Bytes, inputs: set<Bytes>) {
    forall x, y :: x in inputs && y in inputs && h(x) == h(y) ==> x == y
  }

  function ByteRank(b: byte): int { b as int }

  predicate ByteLe(a: Bytes, b: Bytes) { SeqLe(a, b, ByteRank) }

  // ----- the digest -----

  datatype Entry = Entry(path: Bytes, content: Bytes)

  function LineOf(h: Bytes -> Bytes, e: Entry): Bytes { h(e.content) + [SPACE, SPACE] + e.path }

  function Lines(h: Bytes -> Bytes, files: seq<Entry>): seq<Bytes> {
    seq(|files|, i requires 0 <= i < |files| => LineOf(h, files[i]))
  }

  function Listing(h: Bytes -> Bytes, files: seq<Entry>): Bytes {
    Join(Sort(Lines(h, files), ByteLe), NEWLINE) + [NEWLINE]
  }

  function DigestOf(h: Bytes -> Bytes, files: seq<Entry>): Bytes { h(Listing(h, files)) }

  /** The first is a start of the second, or smaller at the first byte they differ in. */
  ghost predicate BytesBefore(a: Bytes, b: Bytes) { a < b || exists k: nat :: DiffersAt(a, b, k) && a[k] < b[k] }

  /** The listing holds the line of every file, in ascending order of bytes, each ended by a
      newline. */
  lemma ListingAscends(h: Bytes -> Bytes, files: seq<Entry>) returns (s: seq<Bytes>)
    ensures Listing(h, files) == Join(s, NEWLINE) + [NEWLINE] && multiset(s) == multiset(Lines(h, files))
    ensures forall i, j :: 0 <= i < j < |s| ==> s[i] == s[j] || BytesBefore(s[i], s[j])
  {
    s := Sort(Lines(h, files), ByteLe);
    ByteOrder();
    SortKeeps(Lines(h, files), ByteLe);
    SortSorts(Lines(h, files), ByteLe);
    forall i, j | 0 <= i < j < |s| ensures s[i] == s[j] || BytesBefore(s[i], s[j]) { BytesOrderIs(s[i], s[j]); }
  }

  lemma BytesOrderIs(a: Bytes, b: Bytes)
    ensures ByteLe(a, b) <==> a == b || BytesBefore(a, b)
  {
    SeqOrderIs(a, b, ByteRank);
    assert SeqBefore(a, b, ByteRank) <==> BytesBefore(a, b);
  }

  // ----- the file map it stands for -----

  /** The files, enumerated in some order, are the map: each path once, with its bytes. */
  ghost predicate Enumerates(files: seq<Entry>, m: map<Bytes, Bytes>) {
    && (forall i, j :: 0 <= i < j < |files| ==> files[i].path != files[j].path)
    && (forall e :: e in files ==> e.path in m && m[e.path] == e.content)
    && (forall p :: p in m ==> Entry(p, m[p]) in files)
  }

  ghost predicate NewlineFree(files: seq<Entry>) {
    forall e :: e in files ==> NEWLINE !in e.path
  }

  lemma ByteOrder()
    ensures TotalOrder(ByteLe)
  {
    SeqOrder(ByteRank, ByteLe);
  }

  /** A line is read back in one way. */
  lemma LineReads(h: Bytes -> Bytes, a: Entry, b: Entry)
    requires IsHash(h) && LineOf(h, a) == LineOf(h, b)
    ensures a.path == b.path && h(a.content) == h(b.content)
  {
    var la, lb := LineOf(h, a), LineOf(h, b);
    assert la[..64] == h(a.content) && lb[..64] == h(b.content);
    assert la[66..] == a.path && lb[66..] == b.path;
  }

  lemma LinesClean(h: Bytes -> Bytes, files: seq<Entry>)
    requires IsHash(h) && NewlineFree(files)
    ensures Free(Sort(Lines(h, files), ByteLe), NEWLINE)
    ensures forall l :: l in Sort(Lines(h, files), ByteLe) <==> l in Lines(h, files)
  {
    var lines := Lines(h, files);
    var sorted := Sort(lines, ByteLe);
    SortKeeps(lines, ByteLe);
    forall l ensures l in sorted <==> l in lines {
      assert l in sorted <==> l in multiset(sorted);
      assert l in lines <==> l in multiset(lines);
    }
    forall i | 0 <= i < |sorted| ensures NEWLINE !in sorted[i] {
      assert sorted[i] in lines;
      var k :| 0 <= k < |lines| && lines[k] == sorted[i];
      assert files[k] in files;
    }
  }

  /** The listing determines the sorted lines. */
  lemma ListingReads(h: Bytes -> Bytes, a: seq<Entry>, b: seq<Entry>)
    requires IsHash(h) && NewlineFree(a) && NewlineFree(b) && Listing(h, a) == Listing(h, b)
    ensures Sort(Lines(h, a), ByteLe) == Sort(Lines(h, b), ByteLe)
  {
    var sa, sb := Sort(Lines(h, a), ByteLe), Sort(Lines(h, b), ByteLe);
    LinesClean(h, a);
    LinesClean(h, b);
    var ja, jb := Join(sa, NEWLINE), Join(sb, NEWLINE);
    assert ja == (ja + [NEWLINE])[..|ja|] && jb == (jb + [NEWLINE])[..|jb|];
    NothingJoins(h, a);
    NothingJoins(h, b);
    if sa != [] && sb != [] {
      SplitJoin(sa, NEWLINE);
      SplitJoin(sb, NEWLINE);
    }
  }

  lemma NothingJoins(h: Bytes -> Bytes, files: seq<Entry>)
    requires IsHash(h)
    ensures var s := Sort(Lines(h, files), ByteLe); s == [] <==> Join(s, NEWLINE) == []
  {
    var lines := Lines(h, files);
    var s := Sort(lines, ByteLe);
    SortKeeps(lines, ByteLe);
    if s != [] {
      assert s[0] in multiset(lines);
      var k :| 0 <= k < |lines| && lines[k] == s[0];
      assert |s[0]| >= 66;
    }
  }

  /** Every file of the one list stands in the other, when their listings agree. */
  lemma SameFiles(h: Bytes -> Bytes, a: seq<Entry>, b: seq<Entry>, e: Entry)
    requires IsHash(h) && NewlineFree(a) && NewlineFree(b) && Listing(h, a) == Listing(h, b) && e in a
    requires CollisionFree(h, Contents(a) + Contents(b))
    ensures e in b
  {
    ListingReads(h, a, b);
    LinesClean(h, a);
    LinesClean(h, b);
    var i :| 0 <= i < |a| && a[i] == e;
    assert Lines(h, a)[i] == LineOf(h, e) && LineOf(h, e) in Lines(h, a);
    assert LineOf(h, e) in Sort(Lines(h, b), ByteLe);
    var k :| 0 <= k < |b| && Lines(h, b)[k] == LineOf(h, e);
    LineReads(h, e, b[k]);
    assert e.content in Contents(a) && b[k].content in Contents(b);
  }

  ghost function Contents(files: seq<Entry>): set<Bytes> { set e | e in files :: e.content }

  lemma OrderIrrelevant(h: Bytes -> Bytes, a: seq<Entry>, b: seq<Entry>, m: map<Bytes, Bytes>)
    requires IsHash(h) && Enumerates(a, m) && Enumerates(b, m)
    ensures Listing(h, a) == Listing(h, b)
  {
    LinesDistinct(h, a);
    LinesDistinct(h, b);
    forall l ensures l in Lines(h, a) <==> l in Lines(h, b) {
      if l in Lines(h, a) { LinesShared(h, a, b, m, l); }
      if l in Lines(h, b) { LinesShared(h, b, a, m, l); }
    }
    SameElements(Lines(h, a), Lines(h, b));
    ByteOrder();
    SortIsCanonical(Lines(h, a), Lines(h, b), ByteLe);
  }

  lemma LinesDistinct(h: Bytes -> Bytes, a: seq<Entry>)
    requires IsHash(h) && forall i, j :: 0 <= i < j < |a| ==> a[i].path != a[j].path
    ensures Distinct(Lines(h, a))
  {
    forall i, j | 0 <= i < j < |a| ensures Lines(h, a)[i] != Lines(h, a)[j] {
      if LineOf(h, a[i]) == LineOf(h, a[j]) { LineReads(h, a[i], a[j]); }
    }
  }

  lemma LinesShared(h: Bytes -> Bytes, a: seq<Entry>, b: seq<Entry>, m: map<Bytes, Bytes>, l: Bytes)
    requires Enumerates(a, m) && Enumerates(b, m) && l in Lines(h, a)
    ensures l in Lines(h, b)
  {
    var i :| 0 <= i < |a| && Lines(h, a)[i] == l;
    assert a[i] in a && a[i] == Entry(a[i].path, m[a[i].path]);
    var k :| 0 <= k < |b| && b[k] == a[i];
    assert Lines(h, b)[k] == l;
  }

  /** The digest is injective up to the hash: two file maps with newline-free paths have the
      same digest exactly when they map the same paths to the same bytes, in whatever order
      either was enumerated. So a rename, a move or a swap always changes it. */
  lemma DigestIsInjective(h: Bytes -> Bytes, a: seq<Entry>, m: map<Bytes, Bytes>, b: seq<Entry>, n: map<Bytes, Bytes>)
    requires IsHash(h) && Enumerates(a, m) && Enumerates(b, n) && NewlineFree(a) && NewlineFree(b)
    requires CollisionFree(h, Contents(a) + Contents(b) + {Listing(h, a), Listing(h, b)})
    ensures DigestOf(h, a) == DigestOf(h, b) <==> m == n
  {
    if DigestOf(h, a) == DigestOf(h, b) {
      assert Listing(h, a) == Listing(h, b);
      forall p | p in m ensures p in n && m[p] == n[p] { SameFiles(h, a, b, Entry(p, m[p])); }
      forall p | p in n ensures p in m { SameFiles(h, b, a, Entry(p, n[p])); }
    }
    if m == n { OrderIrrelevant(h, a, b, m); }
  }

  /** Why the paths must be free of newlines: one oddly named file can list as two. */
  lemma NewlineListsAsTwo(h: Bytes -> Bytes, a: Entry, b: Entry)
    requires IsHash(h) && ByteLe(LineOf(h, a), LineOf(h, b))
    ensures var odd := Entry(a.path + [NEWLINE] + LineOf(h, b), a.content);
            DigestOf(h, [odd]) == DigestOf(h, [a, b])
  {
    var odd := Entry(a.path + [NEWLINE] + LineOf(h, b), a.content);
    var la, lb := LineOf(h, a), LineOf(h, b);
    assert Lines(h, [odd]) == [LineOf(h, odd)] && Lines(h, [a, b]) == [la, lb];
    assert LineOf(h, odd) == la + [NEWLINE] + lb;
    assert [la, lb][1..] == [lb] && [lb][1..] == [] && [LineOf(h, odd)][1..] == [];
    assert Join([lb], NEWLINE) == lb && Join([la, lb], NEWLINE) == la + [NEWLINE] + lb;
    assert Join([LineOf(h, odd)], NEWLINE) == LineOf(h, odd);
    assert Sort([lb], ByteLe) == [lb];
    assert Sort([la, lb], ByteLe) == [la, lb];
    assert Sort([LineOf(h, odd)], ByteLe) == [LineOf(h, odd)];
  }

  // ----- reading the board -----

  /** What stands at a path under the board root; a file nobody can read has no content. */
  datatype Node = Link | Directory | File(content: Option<Bytes>)

  datatype Problem = LinksSkipped(count: nat) | Unreadable(path: Bytes)

  type Place = (Bytes, Node)

  function LinkCount(listing: seq<Place>): nat {
    if listing == [] then 0
    else LinkCount(listing[..|listing| - 1]) + if listing[|listing| - 1].1.Link? then 1 else 0
  }

  function UnreadableOf(listing: seq<Place>): seq<Problem> {
    if listing == [] then []
    else
      var (path, node) := listing[|listing| - 1];
      UnreadableOf(listing[..|listing| - 1]) + if node == File(None) then [Unreadable(path)] else []
  }

  ghost function LinkPlaces(listing: seq<Place>): set<int> { set i | 0 <= i < |listing| && listing[i].1.Link? }

  ghost function LostPlaces(listing: seq<Place>): set<int> {
    set i | 0 <= i < |listing| && listing[i].1 == File(None)
  }

  lemma OneMorePlace(listing: seq<Place>, x: Place)
    ensures LinkPlaces(listing + [x]) == LinkPlaces(listing) + if x.1.Link? then {|listing|} else {}
    ensures LostPlaces(listing + [x]) == LostPlaces(listing) + if x.1 == File(None) then {|listing|} else {}
    ensures |listing| !in LinkPlaces(listing) && |listing| !in LostPlaces(listing)
  {
  }

  /** The links are counted one by one, and each file nobody can read is listed once, in order. */
  lemma {:induction false} SkippedAre(listing: seq<Place>)
    ensures LinkCount(listing) == |LinkPlaces(listing)| && |UnreadableOf(listing)| == |LostPlaces(listing)|
    ensures forall path :: Unreadable(path) in UnreadableOf(listing) <==> (path, File(None)) in listing
  {
    if listing != [] {
      var front, x := listing[..|listing| - 1], listing[|listing| - 1];
      assert listing == front + [x];
      SkippedAre(front);
      OneMorePlace(front, x);
    }
  }

  /** A problem is reported exactly when something was skipped. */
  lemma {:induction false} SkippedIsReported(listing: seq<Place>)
    ensures LinkCount(listing) == 0 && UnreadableOf(listing) == []
            <==> ProblemFree(listing)
  {
    if listing != [] {
      var rest, x := listing[..|listing| - 1], listing[|listing| - 1];
      assert listing == rest + [x];
      SkippedIsReported(rest);
    }
  }

  /** Nothing under the root is a link, and every file there can be read. */
  ghost predicate ProblemFree(listing: seq<Place>) { forall x :: x in listing ==> !x.1.Link? && x.1 != File(None) }

  /** The files are the readable regular ones of the listing, each path once. */
  ghost predicate Reads(listing: seq<Place>, files: seq<Entry>) {
    && (forall e :: e in files <==> (e.path, File(Some(e.content))) in listing)
    && forall i, j :: 0 <= i < j < |files| ==> files[i].path != files[j].path
  }

  /** The files the digest is computed over: regular and readable ones, links apart. The
      links are reported as one problem, with their number, each unreadable file as its own. */
  method ReadBoard(listing: seq<Place>) returns (files: seq<Entry>, problems: seq<Problem>)
    requires forall i, j :: 0 <= i < j < |listing| ==> listing[i].0 != listing[j].0
    ensures Reads(listing, files)
    ensures problems == (if LinkCount(listing) > 0 then [LinksSkipped(LinkCount(listing))] else [])
                + UnreadableOf(listing)
    ensures problems == [] <==> ProblemFree(listing)
  {
    files, problems := [], [];
    var links := 0;
    for i := 0 to |listing|
      invariant forall e :: e in files <==> (e.path, File(Some(e.content))) in listing[..i]
      invariant forall k, j :: 0 <= k < j < |files| ==> files[k].path != files[j].path
      invariant links == LinkCount(listing[..i]) && problems == UnreadableOf(listing[..i])
    {
      var (path, node) := listing[i];
      assert listing[..i + 1] == listing[..i] + [listing[i]] && listing[..i + 1][..i] == listing[..i];
      match node
      case Link => links := links + 1;
      case Directory =>
      case File(None) => problems := problems + [Unreadable(path)];
      case File(Some(content)) =>
        forall k | 0 <= k < |files| ensures files[k].path != path {
          assert files[k] in files;
        }
        files := files + [Entry(path, content)];
    }
    assert listing[..|listing|] == listing;
    SkippedIsReported(listing);
    if links > 0 { problems := [LinksSkipped(links)] + problems; }
  }

  lemma {:induction false} FileMap(files: seq<Entry>) returns (m: map<Bytes, Bytes>)
    requires forall i, j :: 0 <= i < j < |files| ==> files[i].path != files[j].path
    ensures Enumerates(files, m)
  {
    if files == [] {
      m := map[];
    } else {
      var front, e := files[..|files| - 1], files[|files| - 1];
      assert files == front + [e];
      var m0 := FileMap(front);
      assert e.path !in m0;
      m := m0[e.path := e.content];
      forall p | p in m ensures Entry(p, m[p]) in files { if p != e.path { assert Entry(p, m0[p]) in front; } }
    }
  }

  /** From reading to digest: two boards read without a problem have the same digest exactly
      when the same regular files stand under both. */
  lemma BoardsAgreeIff(h: Bytes -> Bytes, one: seq<Place>, a: seq<Entry>, two: seq<Place>, b: seq<Entry>)
    requires IsHash(h) && Reads(one, a) && Reads(two, b) && ProblemFree(one) && ProblemFree(two)
    requires NewlineFree(a) && NewlineFree(b)
    requires CollisionFree(h, Contents(a) + Contents(b) + {Listing(h, a), Listing(h, b)})
    ensures DigestOf(h, a) == DigestOf(h, b) <==> forall x: Place :: x.1.File? ==> (x in one <==> x in two)
  {
    var m := FileMap(a);
    var n := FileMap(b);
    DigestIsInjective(h, a, m, b, n);
    SameMap(a, m, b, n);
    if forall e :: e in a <==> e in b {
      forall x: Place | x.1.File? ensures x in one <==> x in two { RegularFile(one, a, two, b, x); }
    }
    if forall x: Place :: x.1.File? ==> (x in one <==> x in two) {
      forall e ensures e in a <==> e in b { assert (e.path, File(Some(e.content))).1.File?; }
    }
  }

  lemma SameMap(a: seq<Entry>, m: map<Bytes, Bytes>, b: seq<Entry>, n: map<Bytes, Bytes>)
    requires Enumerates(a, m) && Enumerates(b, n)
    ensures m == n <==> forall e :: e in a <==> e in b
  {
    if forall e :: e in a <==> e in b {
      forall p | p in m ensures p in n && n[p] == m[p] { assert Entry(p, m[p]) in b; }
      forall p | p in n ensures p in m { assert Entry(p, n[p]) in a; }
    }
    if m == n {
      forall e ensures e in a <==> e in b {
        if e in a { assert Entry(e.path, n[e.path]) in b; }
        if e in b { assert Entry(e.path, m[e.path]) in a; }
      }
    }
  }

  lemma RegularFile(one: seq<Place>, a: seq<Entry>, two: seq<Place>, b: seq<Entry>, x: Place)
    requires Reads(one, a) && Reads(two, b) && ProblemFree(one) && ProblemFree(two)
    requires x.1.File? && forall e :: e in a <==> e in b
    ensures x in one <==> x in two
  {
    if x.1.content.Some? {
      var e := Entry(x.0, x.1.content.value);
      assert e in a <==> e in b;
      assert (e.path, File(Some(e.content))) == x;
    }
  }
}
