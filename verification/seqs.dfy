/** Sequence operations the pages use through JavaScript's array methods:
    `filter`, `indexOf`/`includes`, and `Array.from(new Set(...))`. */
module Seqs {

  /** Position of the first occurrence of `x` in `s`. */
  function IndexOf<T(==,!new)>(s: seq<T>, x: T): (i: nat)
    requires x in s
    ensures i < |s| && s[i] == x
    ensures x !in s[..i]
  {
    if s[0] == x then 0 else 1 + IndexOf(s[1..], x)
  }

  /** The first `x` of `a + [x] + b` is the one after `a` when `a` has none. */
  lemma IndexOfAfter<T(!new)>(a: seq<T>, x: T, b: seq<T>)
    requires x !in a
    ensures x in a + [x] + b && IndexOf(a + [x] + b, x) == |a|
  {
    var s := a + [x] + b;
    assert s[|a|] == x;
    assert s[..|a|] == a;
  }

  /** No value occurs twice. */
  predicate NoDup<T(==,!new)>(s: seq<T>) {
    forall i, j :: 0 <= i < j < |s| ==> s[i] != s[j]
  }

  /** `r` is what remains of `s` after deleting some of its elements:
      every step either keeps the head of `s` or drops it. */
  predicate IsSubsequence<T(==,!new)>(r: seq<T>, s: seq<T>)
    decreases |s|
  {
    if |s| == 0 then |r| == 0
    else (|r| > 0 && r[0] == s[0] && IsSubsequence(r[1..], s[1..]))
         || IsSubsequence(r, s[1..])
  }

  /** `Array.prototype.filter`: the elements of `s` satisfying `p`, in order. */
  function Keep<T(==,!new)>(s: seq<T>, p: T -> bool): (r: seq<T>)
    ensures |r| <= |s|
    ensures forall x :: x in r <==> x in s && p(x)
  {
    if |s| == 0 then []
    else
      var rest := Keep(s[1..], p);
      assert s == [s[0]] + s[1..];
      if p(s[0]) then [s[0]] + rest else rest
  }

  /** A filter only deletes: its result is a subsequence of its input. */
  lemma {:induction false} KeepIsSubsequence<T(!new)>(s: seq<T>, p: T -> bool)
    ensures IsSubsequence(Keep(s, p), s)
    decreases |s|
  {
    if |s| > 0 {
      KeepIsSubsequence(s[1..], p);
      var rest := Keep(s[1..], p);
      if p(s[0]) {
        assert ([s[0]] + rest)[1..] == rest;
      }
    }
  }

  /** A filter keeps every copy of a passing value and no copy of a failing one. */
  lemma {:induction false} KeepCount<T(!new)>(s: seq<T>, p: T -> bool, x: T)
    ensures multiset(Keep(s, p))[x] == if p(x) then multiset(s)[x] else 0
    decreases |s|
  {
    if |s| > 0 {
      KeepCount(s[1..], p, x);
      var rest := Keep(s[1..], p);
      assert s == [s[0]] + s[1..];
      assert multiset(s) == multiset{s[0]} + multiset(s[1..]);
      if p(s[0]) {
        assert multiset(Keep(s, p)) == multiset{s[0]} + multiset(rest);
      } else {
        assert Keep(s, p) == rest;
      }
    }
  }

  /** Filtering distributes over concatenation. */
  lemma {:induction false} KeepAppend<T(!new)>(a: seq<T>, b: seq<T>, p: T -> bool)
    ensures Keep(a + b, p) == Keep(a, p) + Keep(b, p)
    decreases |a|
  {
    if |a| > 0 {
      var ab := a + b;
      assert ab[0] == a[0] && ab[1..] == a[1..] + b;
      KeepAppend(a[1..], b, p);
      var head := if p(a[0]) then [a[0]] else [];
      assert Keep(ab, p) == head + Keep(a[1..] + b, p);
      assert Keep(a, p) == head + Keep(a[1..], p);
      assert head + (Keep(a[1..], p) + Keep(b, p)) == (head + Keep(a[1..], p)) + Keep(b, p);
    } else {
      assert a + b == b;
    }
  }

  /** A filter that every element passes returns its input unchanged. */
  lemma {:induction false} KeepAll<T(!new)>(s: seq<T>, p: T -> bool)
    requires forall i :: 0 <= i < |s| ==> p(s[i])
    ensures Keep(s, p) == s
    decreases |s|
  {
    if |s| > 0 {
      KeepAll(s[1..], p);
    }
  }

  /** `Array.from(new Set(s))`: each value once, at its first occurrence. */
  function Distinct<T(==,!new)>(s: seq<T>): (r: seq<T>)
    ensures NoDup(r)
    ensures forall x :: x in r <==> x in s
    decreases |s|
  {
    if |s| == 0 then []
    else
      var init := s[..|s| - 1];
      var d := Distinct(init);
      assert s == init + [s[|s| - 1]];
      if s[|s| - 1] in d then d else d + [s[|s| - 1]]
  }

  /** The first occurrence in a prefix is the first occurrence in the whole. */
  lemma {:induction false} IndexOfPrefix<T(!new)>(s: seq<T>, n: nat, x: T)
    requires n <= |s| && x in s[..n]
    ensures IndexOf(s, x) == IndexOf(s[..n], x)
    decreases n
  {
    if s[0] != x {
      assert s[..n][1..] == s[1..][..n - 1];
      IndexOfPrefix(s[1..], n - 1, x);
    }
  }

  /** `Distinct` lists values in the order of their first occurrences. */
  lemma {:induction false} DistinctFirstOccurrenceOrder<T(!new)>(s: seq<T>)
    ensures forall i, j :: 0 <= i < j < |Distinct(s)| ==>
              IndexOf(s, Distinct(s)[i]) < IndexOf(s, Distinct(s)[j])
    decreases |s|
  {
    if |s| > 0 {
      var init := s[..|s| - 1];
      var last := s[|s| - 1];
      var d := Distinct(init);
      DistinctFirstOccurrenceOrder(init);
      assert s[..|s| - 1] == init;
      forall x | x in init
        ensures IndexOf(s, x) == IndexOf(init, x) < |s| - 1
      {
        IndexOfPrefix(s, |s| - 1, x);
      }
      if last !in d {
        assert last !in init;
        assert IndexOf(s, last) == |s| - 1;
      }
    }
  }
}
