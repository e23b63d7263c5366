/** A stable sort by an integer key, the behaviour `Array.prototype.sort`
    guarantees (it is stable since ECMAScript 2019) for a comparator that
    returns `key(a) - key(b)`. */
module Sorting {
  import opened Seqs

  predicate SortedByKey<T>(s: seq<T>, key: T -> int) {
    forall i, j :: 0 <= i < j < |s| ==> key(s[i]) <= key(s[j])
  }

  /** The elements of `s` whose key is `k`, in their order in `s`. */
  function WithKey<T(==,!new)>(s: seq<T>, key: T -> int, k: int): seq<T> {
    Keep(s, x => key(x) == k)
  }

  /** Places `a` after every element of `sorted` whose key is not larger. */
  function Insert<T>(sorted: seq<T>, a: T, key: T -> int): seq<T>
    decreases |sorted|
  {
    if |sorted| == 0 || key(sorted[|sorted| - 1]) <= key(a) then sorted + [a]
    else Insert(sorted[..|sorted| - 1], a, key) + [sorted[|sorted| - 1]]
  }

  /** Insertion sort, inserting the elements in their input order. */
  function InsertionSort<T>(s: seq<T>, key: T -> int): seq<T>
    decreases |s|
  {
    if |s| == 0 then [] else Insert(InsertionSort(s[..|s| - 1], key), s[|s| - 1], key)
  }

  /** Inserting keeps every element of the input and adds `a`. */
  lemma {:induction false} InsertPermutes<T>(sorted: seq<T>, a: T, key: T -> int)
    ensures multiset(Insert(sorted, a, key)) == multiset(sorted) + multiset{a}
    decreases |sorted|
  {
    if |sorted| > 0 && key(sorted[|sorted| - 1]) > key(a) {
      var init := sorted[..|sorted| - 1];
      assert sorted == init + [sorted[|sorted| - 1]];
      InsertPermutes(init, a, key);
    }
  }

  /** A bound on every key of the input and on `a` bounds every key of the
      result. */
  lemma {:induction false} InsertBounded<T>(sorted: seq<T>, a: T, key: T -> int, b: int)
    requires forall i :: 0 <= i < |sorted| ==> key(sorted[i]) <= b
    requires key(a) <= b
    ensures forall i :: 0 <= i < |Insert(sorted, a, key)| ==> key(Insert(sorted, a, key)[i]) <= b
    decreases |sorted|
  {
    if |sorted| > 0 && key(sorted[|sorted| - 1]) > key(a) {
      InsertBounded(sorted[..|sorted| - 1], a, key, b);
    }
  }

  /** Inserting into a sorted sequence gives a sorted sequence. */
  lemma {:induction false} InsertSorted<T>(sorted: seq<T>, a: T, key: T -> int)
    requires SortedByKey(sorted, key)
    ensures SortedByKey(Insert(sorted, a, key), key)
    decreases |sorted|
  {
    if |sorted| == 0 || key(sorted[|sorted| - 1]) <= key(a) {
      var r := sorted + [a];
      forall i, j | 0 <= i < j < |r|
        ensures key(r[i]) <= key(r[j])
      {
        if j == |r| - 1 && i < |sorted| - 1 {
          assert key(sorted[i]) <= key(sorted[|sorted| - 1]);
        }
      }
    } else {
      var init := sorted[..|sorted| - 1];
      var last := sorted[|sorted| - 1];
      InsertSorted(init, a, key);
      InsertBounded(init, a, key, key(last));
      var r := Insert(init, a, key);
      assert Insert(sorted, a, key) == r + [last];
    }
  }

  lemma SingletonWithKey<T(!new)>(a: T, key: T -> int, k: int)
    ensures WithKey([a], key, k) == if key(a) == k then [a] else []
  {
    assert [a][1..] == [];
  }

  lemma {:induction false} InsertStable<T(!new)>(sorted: seq<T>, a: T, key: T -> int, k: int)
    ensures WithKey(Insert(sorted, a, key), key, k) == WithKey(sorted, key, k) + WithKey([a], key, k)
    decreases |sorted|
  {
    var p := (x: T) => key(x) == k;
    if |sorted| == 0 || key(sorted[|sorted| - 1]) <= key(a) {
      KeepAppend(sorted, [a], p);
    } else {
      var init := sorted[..|sorted| - 1];
      var last := sorted[|sorted| - 1];
      assert sorted == init + [last];
      InsertStable(init, a, key, k);
      KeepAppend(Insert(init, a, key), [last], p);
      KeepAppend(init, [last], p);
      SingletonWithKey(a, key, k);
      SingletonWithKey(last, key, k);
    }
  }

  /** The sort returns a permutation of its input, sorted by key, in which
      elements with equal keys keep their input order. */
  lemma {:induction false} InsertionSortCorrect<T(!new)>(s: seq<T>, key: T -> int)
    ensures SortedByKey(InsertionSort(s, key), key)
    ensures multiset(InsertionSort(s, key)) == multiset(s)
    ensures forall k :: WithKey(InsertionSort(s, key), key, k) == WithKey(s, key, k)
    decreases |s|
  {
    if |s| > 0 {
      var init := s[..|s| - 1];
      var last := s[|s| - 1];
      assert s == init + [last];
      InsertionSortCorrect(init, key);
      InsertSorted(InsertionSort(init, key), last, key);
      InsertPermutes(InsertionSort(init, key), last, key);
      forall k
        ensures WithKey(InsertionSort(s, key), key, k) == WithKey(s, key, k)
      {
        InsertStable(InsertionSort(init, key), last, key, k);
        KeepAppend(init, [last], (x: T) => key(x) == k);
      }
    }
  }
}
