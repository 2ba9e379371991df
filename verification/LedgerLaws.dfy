/** Line endings and the writer of scripts/check_release_manifest.py: which files it takes for
    converted ones. */
module LedgerLaws {
  import opened PyText
  import opened Ledger
  import opened Manifest
  import D = Digest

  const CR: D.byte := 13
  const NL: D.byte := 10

  /** A text checked out with CRLF endings. */
  function Converted(data: D.Bytes): D.Bytes {
    if data == [] then []
    else (if data[0] == NL then [CR, NL] else [data[0]]) + Converted(data[1..])
  }

  lemma {:induction false} ConvertsBack(data: D.Bytes)
    requires CR !in data
    ensures ReplaceAll(Converted(data), CRLF, LF) == data
  {
    if data != [] {
      var rest := Converted(data[1..]);
      ConvertsBack(data[1..]);
      if data[0] == NL {
        assert Converted(data)[..2] == CRLF && Converted(data)[2..] == rest;
      } else {
        assert Converted(data)[1..] == rest && Converted(data)[0] == data[0] != CR;
      }
      assert data == [data[0]] + data[1..];
    }
  }

  lemma {:induction false} HoldsCrlf(data: D.Bytes) returns (k: nat)
    requires NL in data
    ensures At(Converted(data), k, CRLF)
  {
    var head := if data[0] == NL then [CR, NL] else [data[0]];
    if data[0] == NL {
      k := 0;
    } else {
      var j := HoldsCrlf(data[1..]);
      k := j + 1;
      assert Converted(data)[k..k + 2] == Converted(data[1..])[j..j + 2];
    }
  }

  /** The writer hashes such a file as if it had its LF endings, and no other way. */
  lemma NormalizedIsOriginal(h: Hash, data: D.Bytes)
    requires CR !in data && NL in data
    ensures LfNormalizedHash(h, Regular(Converted(data))) == Some(h(data))
  {
    ConvertsBack(data);
    var k := HoldsCrlf(data);
    IndexOfIsFirst(Converted(data), CRLF, 0);
    assert Converted(data)[k..k + 2][0] == CR && Converted(data)[k] in Converted(data);
  }

  /** A file without CRLF, and a link, are never taken for converted ones. */
  lemma OthersAreNot(h: Hash, f: FileData)
    requires match f case Regular(data) => (forall k :: !At(data, k, CRLF)) case _ => true
    ensures LfNormalizedHash(h, f).None?
  {
    if f.Regular? { IndexOfIsFirst(f.data, CRLF, 0); }
  }

  /** The manifest on disk pins a path with a hash. */
  predicate Pins(t: Tree, p: string, hash: string) {
    t.manifest.Some? && match Parse(t.manifest.value) case Rows(rows) => p in rows && rows[p] == hash case _ => false
  }

  /** So a tracked file that was pinned with LF endings and is checked out with CRLF counts as
      converted. */
  lemma ConversionIsRefused(h: Hash, t: Tree, p: string, data: D.Bytes)
    requires CR !in data && NL in data && h(Converted(data)) != h(data)
    requires p in t.tracked && p != MANIFEST_NAME && t.file(p) == Regular(Converted(data)) && Pins(t, p, h(data))
    ensures !NothingConverted(h, t)
  {
    NormalizedIsOriginal(h, data);
    assert OnlyLineEndings(h, t, PreviousRows(t), p);
  }

  /** A tree whose pinned files hold no CRLF is never refused for its line endings. */
  lemma NothingToRefuse(h: Hash, t: Tree)
    requires forall p :: p in t.tracked ==>
      match t.file(p) case Regular(data) => (forall k :: !At(data, k, CRLF)) case _ => true
    ensures NothingConverted(h, t)
  {
    forall p | p in PreviousRows(t) ensures !OnlyLineEndings(h, t, PreviousRows(t), p) {
      if p in t.tracked { OthersAreNot(h, t.file(p)); }
    }
  }

  /** What the writer does with such a tree: it refuses, and leaves the manifest alone. */
  method WriteConverted(h: Hash, t: Tree, p: string, data: D.Bytes) returns (out: Outcome, t': Tree)
    requires Checkout(t) && CR !in data && NL in data && h(Converted(data)) != h(data)
    requires p in t.tracked && p != MANIFEST_NAME && t.file(p) == Regular(Converted(data)) && Pins(t, p, h(data))
    ensures out == Exit(2) && t' == t
  {
    out, t' := WriteManifest(h, t);
    ConversionIsRefused(h, t, p, data);
  }

  // ----- what the strict check notices -----

  /** The bytes a row vouches for: a file's own, or the target of a link. */
  function Vouched(f: FileData): D.Bytes
    requires f != Missing
  { match f case Regular(data) => data case Link(target) => target }

  /** Over a manifest the strict check passes: no pinned path may be missing, and none may hold
      bytes, or point to a target, with another hash. */
  lemma ChangeIsNoticed(h: Hash, t: Tree, p: string, f: FileData)
    requires StrictlyClean(h, t) && exists hash :: Pins(t, p, hash)
    requires t.file(p) != Missing && (f == Missing || h(Vouched(f)) != h(Vouched(t.file(p))))
    ensures !StrictlyClean(h, t.(file := q => if q == p then f else t.file(q)))
  {
    var t' := t.(file := q => if q == p then f else t.file(q));
    var rows := Parse(t.manifest.value).rows;
    assert Matches(h, t, rows) && p in rows && rows[p] == HashPath(h, t.file(p));
    assert t'.file(p) == f;
    assert !Matches(h, t', rows);
  }

  /** A tracked path without a row is noticed, unless the classification keeps it out. */
  lemma NewFileIsNoticed(h: Hash, t: Tree, p: string)
    requires p in t.tracked && p != MANIFEST_NAME && forall hash :: !Pins(t, p, hash)
    ensures StrictlyClean(h, t) ==> t.unpinnable.Some? && p in t.unpinnable.value
  {
    if StrictlyClean(h, t) {
      var rows := Parse(t.manifest.value).rows;
      if p in rows { assert Pins(t, p, rows[p]); }
    }
  }

  /** A path the classification keeps out may neither be pinned nor have a row. */
  lemma KeptOut(h: Hash, t: Tree, p: string)
    requires t.unpinnable.Some? && p in t.unpinnable.value && p in t.tracked && p != MANIFEST_NAME
    ensures !NothingUnpinnable(t)
    ensures (exists hash :: Pins(t, p, hash)) ==> !StrictlyClean(h, t)
  {
    assert Reason(t, p).Some?;
  }
}
