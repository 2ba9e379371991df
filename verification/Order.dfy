/** `sorted()`: a sort by any total order, and what makes its result canonical. */
module Order {

  ghost predicate TotalOrder<T(!new)>(le: (T, T) -> bool) {
    && (forall x :: le(x, x))
    && (forall x, y :: le(x, y) || le(y, x))
    && (forall x, y :: le(x, y) && le(y, x) ==> x == y)
    && (forall x, y, z :: le(x, y) && le(y, z) ==> le(x, z))
  }

  ghost predicate SortedBy<T>(s: seq<T>, le: (T, T) -> bool) {
    forall i, j :: 0 <= i < j < |s| ==> le(s[i], s[j])
  }

  function Insert<T>(x: T, s: seq<T>, le: (T, T) -> bool): seq<T> {
    if s == [] || le(x, s[0]) then [x] + s else [s[0]] + Insert(x, s[1..], le)
  }

  function Sort<T>(s: seq<T>, le: (T, T) -> bool): seq<T> {
    if s == [] then [] else Insert(s[0], Sort(s[1..], le), le)
  }

  lemma {:induction false} InsertKeeps<T>(x: T, s: seq<T>, le: (T, T) -> bool)
    ensures multiset(Insert(x, s, le)) == multiset(s) + multiset{x}
  {
    if s != [] && !le(x, s[0]) {
      InsertKeeps(x, s[1..], le);
      assert s == [s[0]] + s[1..];
    }
  }

  /** Sorting is a permutation. */
  lemma {:induction false} SortKeeps<T>(s: seq<T>, le: (T, T) -> bool)
    ensures multiset(Sort(s, le)) == multiset(s) && |Sort(s, le)| == |s|
  {
    if s != [] {
      SortKeeps(s[1..], le);
      InsertKeeps(s[0], Sort(s[1..], le), le);
      assert s == [s[0]] + s[1..];
    }
    assert |multiset(Sort(s, le))| == |multiset(s)|;
  }

  lemma {:induction false} InsertSorted<T(!new)>(x: T, s: seq<T>, le: (T, T) -> bool)
    requires TotalOrder(le) && SortedBy(s, le)
    ensures SortedBy(Insert(x, s, le), le)
  {
    if s != [] && !le(x, s[0]) {
      var rest := Insert(x, s[1..], le);
      InsertSorted(x, s[1..], le);
      InsertKeeps(x, s[1..], le);
      forall y | y in rest ensures le(s[0], y) {
        assert y in multiset(rest);
        if y != x {
          assert y in multiset(s[1..]);
          var i :| 0 <= i < |s[1..]| && s[1..][i] == y;
          assert s[i + 1] == y;
        }
      }
    }
  }

  lemma {:induction false} SortSorts<T(!new)>(s: seq<T>, le: (T, T) -> bool)
    requires TotalOrder(le)
    ensures SortedBy(Sort(s, le), le)
  {
    if s != [] {
      SortSorts(s[1..], le);
      InsertSorted(s[0], Sort(s[1..], le), le);
    }
  }

  /** A sorted list is determined by what it lists. */
  lemma {:induction false} SortedIsUnique<T(!new)>(a: seq<T>, b: seq<T>, le: (T, T) -> bool)
    requires TotalOrder(le) && SortedBy(a, le) && SortedBy(b, le) && multiset(a) == multiset(b)
    ensures a == b
  {
    assert |a| == |multiset(a)| == |multiset(b)| == |b|;
    if a != [] {
      LeastFirst(a, b, le);
      LeastFirst(b, a, le);
      SameTails(a, b);
      SortedIsUnique(a[1..], b[1..], le);
      assert a == [a[0]] + a[1..] && b == [b[0]] + b[1..];
    }
  }

  lemma LeastFirst<T(!new)>(a: seq<T>, b: seq<T>, le: (T, T) -> bool)
    requires TotalOrder(le) && SortedBy(b, le) && a != [] && b != [] && multiset(a) == multiset(b)
    ensures le(b[0], a[0])
  {
    assert a[0] in multiset(b);
    var i :| 0 <= i < |b| && b[i] == a[0];
  }

  lemma SameTails<T>(a: seq<T>, b: seq<T>)
    requires a != [] && b != [] && a[0] == b[0] && multiset(a) == multiset(b)
    ensures multiset(a[1..]) == multiset(b[1..])
  {
    assert a == [a[0]] + a[1..] && b == [b[0]] + b[1..];
    assert multiset(a[1..]) == multiset(a) - multiset{a[0]};
    assert multiset(b[1..]) == multiset(b) - multiset{b[0]};
  }

  /** So the sorted form forgets exactly the order. */
  lemma SortIsCanonical<T(!new)>(a: seq<T>, b: seq<T>, le: (T, T) -> bool)
    requires TotalOrder(le)
    ensures Sort(a, le) == Sort(b, le) <==> multiset(a) == multiset(b)
  {
    SortKeeps(a, le);
    SortKeeps(b, le);
    SortSorts(a, le);
    SortSorts(b, le);
    if multiset(a) == multiset(b) { SortedIsUnique(Sort(a, le), Sort(b, le), le); }
  }

  // ----- lexicographic order -----

  /** Element by element, by rank, a prefix before its extensions. */
  predicate SeqLe<T>(a: seq<T>, b: seq<T>, rank: T -> int) {
    |a| == 0 || (|b| > 0 && (rank(a[0]) < rank(b[0]) || (rank(a[0]) == rank(b[0]) && SeqLe(a[1..], b[1..], rank))))
  }

  ghost predicate Ranked<T(!new)>(rank: T -> int) {
    forall x: T, y: T :: rank(x) == rank(y) ==> x == y
  }

  lemma {:induction false} SeqLeTotal<T(!new)>(a: seq<T>, b: seq<T>, rank: T -> int)
    requires Ranked(rank)
    ensures SeqLe(a, b, rank) || SeqLe(b, a, rank)
    ensures SeqLe(a, b, rank) && SeqLe(b, a, rank) ==> a == b
  {
    if a != [] && b != [] {
      SeqLeTotal(a[1..], b[1..], rank);
      assert a == [a[0]] + a[1..] && b == [b[0]] + b[1..];
    }
  }

  lemma {:induction false} SeqLeTransitive<T>(a: seq<T>, b: seq<T>, c: seq<T>, rank: T -> int)
    requires SeqLe(a, b, rank) && SeqLe(b, c, rank)
    ensures SeqLe(a, c, rank)
  {
    if a != [] && rank(a[0]) == rank(b[0]) == rank(c[0]) { SeqLeTransitive(a[1..], b[1..], c[1..], rank); }
  }

  lemma SeqOrder<T(!new)>(rank: T -> int, le: (seq<T>, seq<T>) -> bool)
    requires Ranked(rank) && forall a, b :: le(a, b) == SeqLe(a, b, rank)
    ensures TotalOrder(le)
  {
    forall a: seq<T>, b: seq<T> ensures le(a, a) && (le(a, b) || le(b, a)) && (le(a, b) && le(b, a) ==> a == b) {
      SeqLeTotal(a, b, rank);
      SeqLeTotal(a, a, rank);
    }
    forall a: seq<T>, b: seq<T>, c: seq<T> | le(a, b) && le(b, c) ensures le(a, c) { SeqLeTransitive(a, b, c, rank); }
  }

  /** The two agree before `k`. */
  ghost predicate DiffersAt<T>(a: seq<T>, b: seq<T>, k: nat) { k < |a| && k < |b| && a[..k] == b[..k] }

  /** The first is a start of the second, or smaller where they first differ. */
  ghost predicate SeqBefore<T(!new)>(a: seq<T>, b: seq<T>, rank: T -> int) {
    a < b || exists k: nat :: DiffersAt(a, b, k) && rank(a[k]) < rank(b[k])
  }

  lemma {:induction false} SeqOrderIs<T(!new)>(a: seq<T>, b: seq<T>, rank: T -> int)
    requires Ranked(rank)
    ensures SeqLe(a, b, rank) <==> a == b || SeqBefore(a, b, rank)
  {
    if a == [] {
    } else if b == [] {
      assert !(a < b);
    } else if a[0] != b[0] {
      if rank(a[0]) < rank(b[0]) { assert DiffersAt(a, b, 0); }
      forall k: nat | k > 0 ensures !DiffersAt(a, b, k) {
        if k <= |a| && k <= |b| { assert a[..k][0] == a[0] && b[..k][0] == b[0]; }
      }
      if |a| <= |b| { assert b[..|a|][0] == b[0]; }
    } else {
      SeqOrderIs(a[1..], b[1..], rank);
      assert a == [a[0]] + a[1..] && b == [b[0]] + b[1..];
      BeforeLater(a, b, rank);
    }
  }

  lemma BeforeLater<T(!new)>(a: seq<T>, b: seq<T>, rank: T -> int)
    requires a != [] && b != [] && a[0] == b[0]
    ensures SeqBefore(a, b, rank) <==> SeqBefore(a[1..], b[1..], rank)
  {
    if SeqBefore(a[1..], b[1..], rank) {
      if !(a[1..] < b[1..]) {
        var k: nat :| DiffersAt(a[1..], b[1..], k) && rank(a[1..][k]) < rank(b[1..][k]);
        assert a[..k + 1] == [a[0]] + a[1..][..k] && b[..k + 1] == [b[0]] + b[1..][..k];
        assert DiffersAt(a, b, k + 1);
      } else {
        assert a == [a[0]] + a[1..] && b == [b[0]] + b[1..];
      }
    }
    if SeqBefore(a, b, rank) {
      if !(a < b) {
        var k: nat :| DiffersAt(a, b, k) && rank(a[k]) < rank(b[k]);
        assert a[1..][..k - 1] == a[..k][1..] && b[1..][..k - 1] == b[..k][1..];
        assert DiffersAt(a[1..], b[1..], k - 1);
      } else {
        assert b[1..][..|a| - 1] == b[..|a|][1..];
      }
    }
  }

  /** Text, by code point. */
  function CharRank(c: char): int { c as int }

  predicate TextLe(a: string, b: string) { SeqLe(a, b, CharRank) }

  lemma TextOrder()
    ensures TotalOrder(TextLe)
  {
    SeqOrder(CharRank, TextLe);
  }

  // ----- lists without repetition -----

  ghost predicate Distinct<T>(s: seq<T>) {
    forall i, j :: 0 <= i < j < |s| ==> s[i] != s[j]
  }

  lemma {:induction false} DistinctCount<T>(s: seq<T>, x: T)
    requires Distinct(s)
    ensures multiset(s)[x] == if x in s then 1 else 0
  {
    if s != [] {
      assert s == s[..|s| - 1] + [s[|s| - 1]];
      DistinctCount(s[..|s| - 1], x);
      assert s[|s| - 1] !in s[..|s| - 1];
    }
  }

  /** Two lists of the same things, each once, are one another's permutations. */
  lemma SameElements<T(!new)>(a: seq<T>, b: seq<T>)
    requires Distinct(a) && Distinct(b) && forall x :: x in a <==> x in b
    ensures multiset(a) == multiset(b)
  {
    forall x ensures multiset(a)[x] == multiset(b)[x] {
      DistinctCount(a, x);
      DistinctCount(b, x);
    }
  }

  /** A permutation of distinct things repeats none of them. */
  lemma SameCounts<T>(a: seq<T>, b: seq<T>)
    requires Distinct(a) && multiset(a) == multiset(b)
    ensures Distinct(b)
  {
    forall i, j | 0 <= i < j < |b| ensures b[i] != b[j] {
      assert b == b[..j] + [b[j]] + b[j + 1..];
      assert multiset(b) == multiset(b[..j]) + multiset{b[j]} + multiset(b[j + 1..]);
      assert b[i] in b[..j];
      DistinctCount(a, b[j]);
    }
  }
}
