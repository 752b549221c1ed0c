/**
 * The PHP string and array built-ins the newsletter code relies on: strtolower, trim/rtrim with a
 * character list, mb_substr from offset 0, str_replace with an empty replacement, str_contains-style
 * substring search and array_unique. Strings are sequences of characters; multi-byte handling is
 * not modelled (mb_* functions count characters, which is what a sequence index does).
 */
module Builtins {

  /** The characters PHP's trim() strips when no character list is given: " \t\n\r\0\x0B". */
  const Whitespace: set<char> := {' ', '\t', '\n', '\r', '\0', '\U{000B}'}

  predicate IsUpperAscii(c: char) {
    'A' <= c <= 'Z'
  }

  predicate IsLowerCase(s: string) {
    forall i :: 0 <= i < |s| ==> !IsUpperAscii(s[i])
  }

  function LowerChar(c: char): char {
    if IsUpperAscii(c) then (c as int + 32) as char else c
  }

  /** strtolower: byte-wise ASCII lower-casing (locale-insensitive since PHP 8.2). */
  function StrToLower(s: string): (r: string)
    ensures |r| == |s|
    ensures IsLowerCase(r)
    ensures forall i :: 0 <= i < |s| && !IsUpperAscii(s[i]) ==> r[i] == s[i]
    ensures forall i :: 0 <= i < |s| && IsUpperAscii(s[i]) ==> r[i] as int == s[i] as int + 32
    ensures IsLowerCase(s) ==> r == s
  {
    seq(|s|, i requires 0 <= i < |s| => LowerChar(s[i]))
  }

  /** ltrim(s, cs) */
  function TrimLeft(s: string, cs: set<char>): (r: string)
    ensures |r| <= |s|
    ensures forall i :: 0 <= i < |s| - |r| ==> s[i] in cs
    ensures r != [] ==> r[0] !in cs
    decreases |s|
  {
    if s != [] && s[0] in cs then TrimLeft(s[1..], cs) else s
  }

  /** rtrim(s, cs) */
  function TrimRight(s: string, cs: set<char>): (r: string)
    ensures |r| <= |s|
    ensures forall i :: |r| <= i < |s| ==> s[i] in cs
    ensures r != [] ==> r[|r| - 1] !in cs
    decreases |s|
  {
    if s != [] && s[|s| - 1] in cs then TrimRight(s[..|s| - 1], cs) else s
  }

  /** trim(s, cs): the longest infix of s that neither starts nor ends with a character of cs. */
  function Trim(s: string, cs: set<char>): (r: string)
    ensures |r| <= |s|
    ensures r != [] ==> r[0] !in cs && r[|r| - 1] !in cs
    ensures exists a :: StrippedAround(s, r, a, cs)
  {
    var left := TrimLeft(s, cs);
    TrimBothEnds(s, cs);
    TrimRightIsPrefix(left, cs);
    TrimRight(left, cs)
  }

  /** ltrim then rtrim leaves an infix with only stripped characters around it. */
  lemma TrimBothEnds(s: string, cs: set<char>)
    ensures StrippedAround(s, TrimRight(TrimLeft(s, cs), cs), |s| - |TrimLeft(s, cs)|, cs)
  {
    var left := TrimLeft(s, cs);
    TrimLeftIsSuffix(s, cs);
    TrimRightIsPrefix(left, cs);
    var a := |s| - |left|;
    var r := TrimRight(left, cs);
    assert r == s[a..a + |r|];
    assert forall i :: a + |r| <= i < |s| ==> s[i] == left[i - a];
  }

  /** r occurs in s at offset a, and everything before and after it is a character of cs. */
  predicate StrippedAround(s: string, r: string, a: int, cs: set<char>) {
    && 0 <= a <= |s| - |r| && r == s[a..a + |r|]
    && (forall i :: 0 <= i < a ==> s[i] in cs)
    && (forall i :: a + |r| <= i < |s| ==> s[i] in cs)
  }

  /** A string that neither starts nor ends with a stripped character comes back from trim() unchanged. */
  lemma TrimOfTrimmed(s: string, cs: set<char>)
    requires s != [] && s[0] !in cs && s[|s| - 1] !in cs
    ensures Trim(s, cs) == s
  {
    assert TrimLeft(s, cs) == s;
  }

  /** ltrim removes a prefix: what it returns is a suffix of its argument. */
  lemma {:induction false} TrimLeftIsSuffix(s: string, cs: set<char>)
    ensures TrimLeft(s, cs) == s[|s| - |TrimLeft(s, cs)|..]
    decreases |s|
  {
    if s != [] && s[0] in cs {
      TrimLeftIsSuffix(s[1..], cs);
    }
  }

  /** rtrim removes a suffix: what it returns is a prefix of its argument. */
  lemma {:induction false} TrimRightIsPrefix(s: string, cs: set<char>)
    ensures TrimRight(s, cs) == s[..|TrimRight(s, cs)|]
    decreases |s|
  {
    if s != [] && s[|s| - 1] in cs {
      TrimRightIsPrefix(s[..|s| - 1], cs);
    }
  }

  /** trim() returns a contiguous piece of its argument. */
  lemma TrimIsInfix(s: string, cs: set<char>)
    ensures IsInfix(Trim(s, cs), s)
  {
    var left := TrimLeft(s, cs);
    TrimLeftIsSuffix(s, cs);
    TrimRightIsPrefix(left, cs);
    assert OccursAt(s, Trim(s, cs), |s| - |left|);
  }

  /** trim(s) with PHP's default character list. */
  function TrimSpace(s: string): string {
    Trim(s, Whitespace)
  }

  lemma {:induction false} TrimLeftEmptyIff(s: string, cs: set<char>)
    ensures TrimLeft(s, cs) == [] <==> forall i :: 0 <= i < |s| ==> s[i] in cs
    decreases |s|
  {
    if s != [] && s[0] in cs {
      TrimLeftEmptyIff(s[1..], cs);
      if forall i :: 0 <= i < |s[1..]| ==> s[1..][i] in cs {
        forall i | 0 <= i < |s| ensures s[i] in cs {
          if i > 0 { assert s[i] == s[1..][i - 1]; }
        }
      }
    }
  }

  /** trim() yields the empty string exactly when every character is one of those it strips. */
  lemma TrimEmptyIff(s: string, cs: set<char>)
    ensures Trim(s, cs) == [] <==> forall i :: 0 <= i < |s| ==> s[i] in cs
  {
    TrimLeftEmptyIff(s, cs);
    var left := TrimLeft(s, cs);
    if left != [] {
      assert left[0] !in cs;
    }
  }

  /** p occurs in s starting at index i. */
  predicate OccursAt(s: string, p: string, i: nat) {
    i + |p| <= |s| && s[i..i + |p|] == p
  }

  /** mb_substr(s, 0, n): the first at most n characters. */
  function Truncate(s: string, n: nat): (r: string)
    ensures |r| == if |s| <= n then |s| else n
    ensures r == s[..|r|]
  {
    if |s| <= n then s else s[..n]
  }

  /** r is a contiguous piece of s. */
  ghost predicate IsInfix(r: string, s: string) {
    exists k: nat :: OccursAt(s, r, k)
  }

  /** The SQL pattern '%sub%' stripped of its wildcard semantics: a plain substring test. */
  predicate Contains(s: string, sub: string) {
    exists i: nat :: i + |sub| <= |s| && OccursAt(s, sub, i)
  }

  /**
   * str_replace(p, '', s): every occurrence of p found scanning from the left, non-overlapping,
   * is deleted. An empty search string leaves the subject unchanged (PHP 8).
   */
  function RemoveAll(s: string, p: string): (r: string)
    ensures |r| <= |s|
    decreases |s|
  {
    if p == [] || |s| < |p| then s
    else if s[..|p|] == p then RemoveAll(s[|p|..], p)
    else [s[0]] + RemoveAll(s[1..], p)
  }

  /** A string in which the search string never occurs comes back from str_replace unchanged. */
  lemma {:induction false} RemoveAllWithoutOccurrence(s: string, p: string)
    requires forall i: nat :: i < |s| ==> !OccursAt(s, p, i)
    ensures RemoveAll(s, p) == s
    decreases |s|
  {
    if p != [] && |s| >= |p| {
      assert !OccursAt(s, p, 0);
      assert s[..|p|] != p;
      forall i: nat | i < |s[1..]| ensures !OccursAt(s[1..], p, i) {
        assert !OccursAt(s, p, i + 1);
        if i + |p| <= |s[1..]| {
          assert s[1..][i..i + |p|] == s[i + 1..i + 1 + |p|];
        }
      }
      RemoveAllWithoutOccurrence(s[1..], p);
    }
  }

  /** A leading occurrence of the search string is deleted and the scan resumes after it. */
  lemma RemoveAllLeading(p: string, rest: string)
    requires p != []
    ensures RemoveAll(p + rest, p) == RemoveAll(rest, p)
  {
    assert (p + rest)[..|p|] == p;
    assert (p + rest)[|p|..] == rest;
  }

  predicate Distinct<T(==)>(xs: seq<T>) {
    forall i, j :: 0 <= i < j < |xs| ==> xs[i] != xs[j]
  }

  /** The position of the first occurrence of x in xs. */
  function FirstIndex<T(==)>(xs: seq<T>, x: T): (k: nat)
    requires x in xs
    ensures k < |xs| && xs[k] == x
    ensures forall i :: 0 <= i < k ==> xs[i] != x
  {
    if xs[0] == x then 0 else 1 + FirstIndex(xs[1..], x)
  }

  /**
   * array_unique followed by iteration in key order: the first occurrence of every value, in the
   * order of those first occurrences.
   */
  function ArrayUnique<T(==,!new)>(xs: seq<T>): (r: seq<T>)
    ensures |r| <= |xs|
    ensures forall x :: x in r <==> x in xs
    ensures Distinct(r)
    decreases |xs|
  {
    if xs == [] then []
    else
      var rest := ArrayUnique(xs[..|xs| - 1]);
      if xs[|xs| - 1] in rest then rest else rest + [xs[|xs| - 1]]
  }

  lemma {:induction false} FirstIndexOfPrefix<T>(xs: seq<T>, n: nat, x: T)
    requires n <= |xs| && x in xs[..n]
    ensures FirstIndex(xs, x) == FirstIndex(xs[..n], x)
    decreases n
  {
    assert xs[..n][0] == xs[0];
    if xs[0] != x {
      assert xs[1..][..n - 1] == xs[..n][1..];
      FirstIndexOfPrefix(xs[1..], n - 1, x);
    }
  }

  /** array_unique keeps values in the order of their first occurrence. */
  lemma {:induction false} ArrayUniqueKeepsFirstSeenOrder<T(!new)>(xs: seq<T>)
    ensures forall i, j :: 0 <= i < j < |ArrayUnique(xs)| ==>
      FirstIndex(xs, ArrayUnique(xs)[i]) < FirstIndex(xs, ArrayUnique(xs)[j])
    decreases |xs|
  {
    if xs != [] {
      var init := xs[..|xs| - 1];
      var last := xs[|xs| - 1];
      var rest := ArrayUnique(init);
      ArrayUniqueKeepsFirstSeenOrder(init);
      var r := ArrayUnique(xs);
      assert r == if last in rest then rest else rest + [last];
      forall i, j | 0 <= i < j < |r| ensures FirstIndex(xs, r[i]) < FirstIndex(xs, r[j]) {
        FirstSeenPair(xs, init, last, rest, r, i, j);
      }
    }
  }

  lemma FirstSeenPair<T>(xs: seq<T>, init: seq<T>, last: T, rest: seq<T>, r: seq<T>, i: nat, j: nat)
    requires xs != [] && init == xs[..|xs| - 1] && last == xs[|xs| - 1]
    requires forall k :: 0 <= k < |rest| ==> rest[k] in init
    requires last in init ==> last in rest
    requires r == if last in rest then rest else rest + [last]
    requires forall a, b :: 0 <= a < b < |rest| ==> FirstIndex(init, rest[a]) < FirstIndex(init, rest[b])
    requires i < j < |r|
    ensures FirstIndex(xs, r[i]) < FirstIndex(xs, r[j])
  {
    var x := rest[i];
    assert r[i] == x && x in init;
    FirstIndexOfPrefix(xs, |xs| - 1, x);
    assert FirstIndex(xs, r[i]) == FirstIndex(init, x);
    if j < |rest| {
      var y := rest[j];
      assert r[j] == y && y in init;
      FirstIndexOfPrefix(xs, |xs| - 1, y);
      assert FirstIndex(xs, r[j]) == FirstIndex(init, y);
      assert FirstIndex(init, rest[i]) < FirstIndex(init, rest[j]);
    } else {
      assert last !in init && r[j] == last;
      FirstIndexOfLast(xs);
      assert FirstIndex(init, x) < |init| == |xs| - 1;
    }
  }

  /** A value that does not occur before the end of a sequence has its first index there. */
  lemma FirstIndexOfLast<T>(xs: seq<T>)
    requires xs != [] && xs[|xs| - 1] !in xs[..|xs| - 1]
    ensures FirstIndex(xs, xs[|xs| - 1]) == |xs| - 1
  {
  }

  /** A sequence without duplicates comes back from array_unique unchanged. */
  lemma {:induction false} ArrayUniqueOfDistinct<T(!new)>(xs: seq<T>)
    requires Distinct(xs)
    ensures ArrayUnique(xs) == xs
    decreases |xs|
  {
    if xs != [] {
      var init := xs[..|xs| - 1];
      assert Distinct(init);
      ArrayUniqueOfDistinct(init);
      assert xs[|xs| - 1] !in init;
      assert init + [xs[|xs| - 1]] == xs;
    }
  }
}
