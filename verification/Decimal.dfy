/** `str(int)`, `int(str)` and the first/last-separator splits the citation grammar uses. */
module Decimal {

  predicate IsDigit(c: char) { '0' <= c <= '9' }

  predicate IsDigits(s: string) { s != "" && forall i :: 0 <= i < |s| ==> IsDigit(s[i]) }

  /** What `int()` accepts here: digits, with an optional minus sign. */
  predicate IsInt(s: string) { IsDigits(s) || (s != "" && s[0] == '-' && IsDigits(s[1..])) }

  function DigitChar(k: nat): char
    requires k < 10
  { '0' + k as char }

  function NatStr(n: nat): string {
    if n < 10 then [DigitChar(n)] else NatStr(n / 10) + [DigitChar(n % 10)]
  }

  function DigitValue(c: char): nat
    requires IsDigit(c)
  { c as int - '0' as int }

  function IntStr(z: int): string { if z < 0 then "-" + NatStr(-z) else NatStr(z) }

  function ParseNat(s: string): nat
    requires forall i :: 0 <= i < |s| ==> IsDigit(s[i])
  {
    if s == "" then 0
    else 10 * ParseNat(s[..|s| - 1]) + DigitValue(s[|s| - 1])
  }

  function ParseInt(s: string): int
    requires IsInt(s)
  { if IsDigits(s) then ParseNat(s) else 0 - ParseNat(s[1..]) }

  lemma {:induction false} NatStrParses(n: nat)
    ensures IsDigits(NatStr(n)) && ParseNat(NatStr(n)) == n
  {
    if n >= 10 {
      NatStrParses(n / 10);
      var s := NatStr(n);
      assert s[..|s| - 1] == NatStr(n / 10) && s[|s| - 1] == DigitChar(n % 10);
    }
  }

  /** `int(str(z)) == z`. */
  lemma IntStrParses(z: int)
    ensures IsInt(IntStr(z)) && ParseInt(IntStr(z)) == z
  {
    NatStrParses(if z < 0 then -z else z);
    if z < 0 {
      assert !IsDigit('-');
      assert IntStr(z)[1..] == NatStr(-z);
    }
  }

  // ----- s.split(c, 1) and s.rsplit(c, 1) -----

  function Before(s: string, c: char): string {
    if s == "" || s[0] == c then "" else [s[0]] + Before(s[1..], c)
  }

  function After(s: string, c: char): string {
    if s == "" then "" else if s[0] == c then s[1..] else After(s[1..], c)
  }

  function RBefore(s: string, c: char): string {
    if s == "" then "" else if s[|s| - 1] == c then s[..|s| - 1] else RBefore(s[..|s| - 1], c)
  }

  function RAfter(s: string, c: char): string {
    if s == "" || s[|s| - 1] == c then "" else RAfter(s[..|s| - 1], c) + [s[|s| - 1]]
  }

  lemma {:induction false} FirstSplit(a: string, c: char, x: string)
    requires c !in a
    ensures Before(a + [c] + x, c) == a && After(a + [c] + x, c) == x
  {
    var t := a + [c] + x;
    if a == "" {
      assert t[1..] == x;
    } else {
      assert t[1..] == a[1..] + [c] + x;
      FirstSplit(a[1..], c, x);
    }
  }

  lemma {:induction false} LastSplit(x: string, c: char, b: string)
    requires c !in b
    ensures RBefore(x + [c] + b, c) == x && RAfter(x + [c] + b, c) == b
  {
    var t := x + [c] + b;
    if b == "" {
      assert t[..|t| - 1] == x;
    } else {
      var b' := b[..|b| - 1];
      assert t[..|t| - 1] == x + [c] + b';
      LastSplit(x, c, b');
    }
  }

  lemma {:induction false} FirstParts(s: string, c: char)
    requires c in s
    ensures s == Before(s, c) + [c] + After(s, c) && c !in Before(s, c)
  {
    if s[0] != c {
      assert s == [s[0]] + s[1..];
      FirstParts(s[1..], c);
    } else {
      assert s == [c] + s[1..];
    }
  }

  lemma {:induction false} LastParts(s: string, c: char)
    requires c in s
    ensures s == RBefore(s, c) + [c] + RAfter(s, c) && c !in RAfter(s, c)
  {
    var k := |s| - 1;
    assert s == s[..k] + [s[k]];
    if s[k] != c { LastParts(s[..k], c); }
  }

  lemma {:induction false} NoSplit(s: string, c: char)
    requires c !in s
    ensures Before(s, c) == s
  {
    if s != "" { NoSplit(s[1..], c); }
  }
}
