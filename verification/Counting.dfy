/** Counting the elements of a list that satisfy a test, and gathering what they give. */
module Counting {

  function CountOf<T>(s: seq<T>, p: T -> bool): nat {
    if s == [] then 0 else CountOf(s[..|s| - 1], p) + if p(s[|s| - 1]) then 1 else 0
  }

  lemma {:induction false} CountAppend<T>(a: seq<T>, b: seq<T>, p: T -> bool)
    ensures CountOf(a + b, p) == CountOf(a, p) + CountOf(b, p)
  {
    if b == [] {
      assert a + b == a;
    } else {
      assert (a + b)[..|a + b| - 1] == a + b[..|b| - 1];
      CountAppend(a, b[..|b| - 1], p);
    }
  }

  lemma CountSnoc<T>(s: seq<T>, x: T, p: T -> bool)
    ensures CountOf(s + [x], p) == CountOf(s, p) + if p(x) then 1 else 0
  {
    assert (s + [x])[..|s|] == s;
  }

  lemma DropOne<T>(rest: seq<T>, l: seq<T>, r: seq<T>, x: T)
    requires multiset(rest + [x]) == multiset(l + [x] + r)
    ensures multiset(rest) == multiset(l + r)
  {
    var m := multiset{x};
    assert multiset(rest + [x]) == multiset(rest) + m;
    assert multiset(l + [x] + r) == multiset(l) + m + multiset(r) == multiset(l + r) + m;
    assert multiset(rest) == (multiset(rest) + m) - m;
    assert multiset(l + r) == (multiset(l + r) + m) - m;
  }

  /** A count forgets the order. */
  lemma {:induction false} CountPermuted<T>(a: seq<T>, b: seq<T>, p: T -> bool)
    requires multiset(a) == multiset(b)
    ensures CountOf(a, p) == CountOf(b, p)
  {
    assert |a| == |multiset(a)| == |multiset(b)| == |b|;
    if a != [] {
      var x, rest := a[|a| - 1], a[..|a| - 1];
      assert a == rest + [x];
      assert x in multiset(b);
      var k :| 0 <= k < |b| && b[k] == x;
      var l, r := b[..k], b[k + 1..];
      assert b == l + [x] + r;
      DropOne(rest, l, r, x);
      CountPermuted(rest, l + r, p);
      CountAppend(l, r, p);
      CountAppend(l + [x], r, p);
      CountAppend(l, [x], p);
    }
  }

  lemma {:induction false} CountSame<T(!new)>(s: seq<T>, p: T -> bool, q: T -> bool)
    requires forall x :: x in s ==> p(x) == q(x)
    ensures CountOf(s, p) == CountOf(s, q)
  {
    if s != [] {
      assert s[|s| - 1] in s && forall x :: x in s[..|s| - 1] ==> x in s;
      CountSame(s[..|s| - 1], p, q);
    }
  }

  lemma {:induction false} CountNone<T(!new)>(s: seq<T>, p: T -> bool)
    requires forall x :: x in s ==> !p(x)
    ensures CountOf(s, p) == 0
  {
    if s != [] {
      assert s[|s| - 1] in s && forall x :: x in s[..|s| - 1] ==> x in s;
      CountNone(s[..|s| - 1], p);
    }
  }

  lemma {:induction false} CountAtMost<T(!new)>(s: seq<T>, p: T -> bool, q: T -> bool)
    requires forall x :: x in s && p(x) ==> q(x)
    ensures CountOf(s, p) <= CountOf(s, q)
  {
    if s != [] {
      assert s[|s| - 1] in s && forall x :: x in s[..|s| - 1] ==> x in s;
      CountAtMost(s[..|s| - 1], p, q);
    }
  }

  lemma {:induction false} CountComplement<T(!new)>(s: seq<T>, p: T -> bool, q: T -> bool)
    requires forall x :: x in s ==> p(x) == !q(x)
    ensures CountOf(s, p) + CountOf(s, q) == |s|
  {
    if s != [] {
      assert s[|s| - 1] in s && forall x :: x in s[..|s| - 1] ==> x in s;
      CountComplement(s[..|s| - 1], p, q);
    }
  }

  lemma {:induction false} CountEither<T(!new)>(s: seq<T>, p: T -> bool, q: T -> bool, r: T -> bool)
    requires forall x :: x in s && p(x) ==> q(x) || r(x)
    ensures CountOf(s, p) <= CountOf(s, q) + CountOf(s, r)
  {
    if s != [] {
      assert s[|s| - 1] in s && forall x :: x in s[..|s| - 1] ==> x in s;
      CountEither(s[..|s| - 1], p, q, r);
    }
  }

  // ----- distributions -----

  function Is<T>(f: T -> int, r: int): T -> bool { (x: T) => f(x) == r }

  /** How many elements have a value in `lo..hi`, value by value. */
  function Spread<T>(s: seq<T>, f: T -> int, hi: nat): nat {
    if hi == 0 then 0 else Spread(s, f, hi - 1) + CountOf(s, Is(f, hi))
  }

  /** The same, each weighed by its value. */
  function Weighted<T>(s: seq<T>, f: T -> int, hi: nat): nat {
    if hi == 0 then 0 else Weighted(s, f, hi - 1) + hi * CountOf(s, Is(f, hi))
  }

  function Sum<T>(s: seq<T>, f: T -> int): int {
    if s == [] then 0 else Sum(s[..|s| - 1], f) + f(s[|s| - 1])
  }

  lemma {:induction false} SumSame<T(!new)>(s: seq<T>, f: T -> int, g: T -> int)
    requires forall x :: x in s ==> f(x) == g(x)
    ensures Sum(s, f) == Sum(s, g)
  {
    if s != [] {
      assert s[|s| - 1] in s && forall x :: x in s[..|s| - 1] ==> x in s;
      SumSame(s[..|s| - 1], f, g);
    }
  }

  lemma {:induction false} SpreadOfOneMore<T>(s: seq<T>, x: T, f: T -> int, hi: nat)
    ensures Spread(s + [x], f, hi) == Spread(s, f, hi) + if 1 <= f(x) <= hi then 1 else 0
    ensures Weighted(s + [x], f, hi) == Weighted(s, f, hi) + if 1 <= f(x) <= hi then f(x) else 0
  {
    assert (s + [x])[..|s|] == s;
    if hi > 0 {
      SpreadOfOneMore(s, x, f, hi - 1);
      WeighOne(hi, CountOf(s, Is(f, hi)), f(x));
    }
  }

  lemma WeighOne(hi: nat, n: nat, v: int)
    ensures hi * (n + if v == hi then 1 else 0) == hi * n + if v == hi then v else 0
  {
  }

  /** Values from 1 to `hi` are all counted once, and the weighted count is their sum. */
  lemma {:induction false} SpreadIsAll<T(!new)>(s: seq<T>, f: T -> int, hi: nat)
    requires forall x :: x in s ==> 1 <= f(x) <= hi
    ensures Spread(s, f, hi) == |s| && Weighted(s, f, hi) == Sum(s, f)
  {
    if s == [] {
      SpreadOfNone(s, f, hi);
    } else {
      var rest, x := s[..|s| - 1], s[|s| - 1];
      assert s == rest + [x] && x in s && forall y :: y in rest ==> y in s;
      SpreadIsAll(rest, f, hi);
      SpreadOfOneMore(rest, x, f, hi);
    }
  }

  lemma {:induction false} SpreadOfNone<T>(s: seq<T>, f: T -> int, hi: nat)
    requires s == []
    ensures Spread(s, f, hi) == 0 && Weighted(s, f, hi) == 0
  {
    if hi > 0 { SpreadOfNone(s, f, hi - 1); }
  }

  lemma {:induction false} WeightedSame<T>(s: seq<T>, f: T -> int, g: T -> int, hi: nat)
    requires forall r :: CountOf(s, Is(f, r)) == CountOf(s, Is(g, r))
    ensures Weighted(s, f, hi) == Weighted(s, g, hi)
  {
    if hi > 0 { WeightedSame(s, f, g, hi - 1); }
  }

  lemma {:induction false} SumCompare<T(!new)>(s: seq<T>, f: T -> int, g: T -> int)
    requires forall x :: x in s ==> f(x) >= g(x)
    ensures Sum(s, f) >= Sum(s, g)
    ensures Sum(s, f) == Sum(s, g) <==> forall x :: x in s ==> f(x) == g(x)
  {
    if s != [] {
      var rest, x := s[..|s| - 1], s[|s| - 1];
      assert s == rest + [x] && x in s && forall y :: y in rest ==> y in s;
      SumCompare(rest, f, g);
      assert forall y :: y in s ==> y in rest || y == x;
    }
  }

  /** One reading of a list's elements never below another has the same distribution exactly
      when the two agree on every element. */
  lemma SameSpreadIff<T(!new)>(s: seq<T>, f: T -> int, g: T -> int, hi: nat)
    requires forall x :: x in s ==> 1 <= g(x) <= f(x) <= hi
    ensures (forall r :: CountOf(s, Is(f, r)) == CountOf(s, Is(g, r))) <==> forall x :: x in s ==> f(x) == g(x)
  {
    if forall r :: CountOf(s, Is(f, r)) == CountOf(s, Is(g, r)) {
      WeightedSame(s, f, g, hi);
      SpreadIsAll(s, f, hi);
      SpreadIsAll(s, g, hi);
      SumCompare(s, f, g);
    } else {
      if forall x :: x in s ==> f(x) == g(x) {
        forall r ensures CountOf(s, Is(f, r)) == CountOf(s, Is(g, r)) { CountSame(s, Is(f, r), Is(g, r)); }
      }
    }
  }

  // ----- lists made piece by piece -----

  function Gathered<A, B>(s: seq<A>, f: A -> seq<B>): seq<B> {
    if s == [] then [] else Gathered(s[..|s| - 1], f) + f(s[|s| - 1])
  }

  lemma {:induction false} GatheredSame<A, B>(s: seq<A>, t: seq<A>, f: A -> seq<B>)
    requires |s| == |t| && forall k :: 0 <= k < |s| ==> f(s[k]) == f(t[k])
    ensures Gathered(s, f) == Gathered(t, f)
  {
    if s != [] { GatheredSame(s[..|s| - 1], t[..|t| - 1], f); }
  }

  lemma {:induction false} GatheredNone<A, B>(s: seq<A>, f: A -> seq<B>)
    requires forall k :: 0 <= k < |s| ==> f(s[k]) == []
    ensures Gathered(s, f) == []
  {
    if s != [] { GatheredNone(s[..|s| - 1], f); }
  }

  lemma GatheredOne<A, B>(x: A, f: A -> seq<B>)
    ensures Gathered([x], f) == f(x)
  {
    assert [x][..0] == [] && Gathered<A, B>([], f) + f(x) == f(x);
  }

  lemma {:induction false} GatheredAppend<A, B>(s: seq<A>, t: seq<A>, f: A -> seq<B>)
    ensures Gathered(s + t, f) == Gathered(s, f) + Gathered(t, f)
  {
    if t == [] {
      assert s + t == s;
    } else {
      assert (s + t)[..|s + t| - 1] == s + t[..|t| - 1];
      GatheredAppend(s, t[..|t| - 1], f);
    }
  }

  lemma {:induction false} GatheredEmpty<A, B>(s: seq<A>, f: A -> seq<B>)
    ensures Gathered(s, f) == [] <==> forall k :: 0 <= k < |s| ==> f(s[k]) == []
  {
    if s != [] { GatheredEmpty(s[..|s| - 1], f); }
  }

  lemma {:induction false} GatheredHas<A, B>(s: seq<A>, f: A -> seq<B>, k: nat, x: B)
    requires k < |s| && x in f(s[k])
    ensures x in Gathered(s, f)
  {
    if k < |s| - 1 { GatheredHas(s[..|s| - 1], f, k, x); }
  }

  lemma {:induction false} GatheredFrom<A, B>(s: seq<A>, f: A -> seq<B>, x: B) returns (k: nat)
    requires x in Gathered(s, f)
    ensures k < |s| && x in f(s[k])
  {
    var n := |s| - 1;
    if x in f(s[n]) { k := n; } else { k := GatheredFrom(s[..n], f, x); }
  }

  lemma {:induction false} GatheredAlike<A, B, C>(s: seq<A>, t: seq<B>, f: A -> seq<C>, g: B -> seq<C>)
    requires |s| == |t| && forall k :: 0 <= k < |s| ==> f(s[k]) == g(t[k])
    ensures Gathered(s, f) == Gathered(t, g)
  {
    if s != [] { GatheredAlike(s[..|s| - 1], t[..|t| - 1], f, g); }
  }
}
