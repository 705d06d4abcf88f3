/** An insertion sort over a total preorder, the model of pandas'
    `sort_values`: the result is a sorted permutation of the input (the
    order it leaves among equal keys is not stated). */
module Sorting {
  import opened Seqs

  ghost predicate Total<T(!new)>(le: (T, T) -> bool) {
    forall a, b :: le(a, b) || le(b, a)
  }

  ghost predicate Transitive<T(!new)>(le: (T, T) -> bool) {
    forall a, b, c :: le(a, b) && le(b, c) ==> le(a, c)
  }

  ghost predicate Sorted<T>(xs: seq<T>, le: (T, T) -> bool) {
    forall i, j :: 0 <= i < j < |xs| ==> le(xs[i], xs[j])
  }

  /** Insert `x` after every element that sorts no later than it. */
  function Insert<T>(x: T, xs: seq<T>, le: (T, T) -> bool): (r: seq<T>)
    ensures multiset(r) == multiset(xs) + multiset{x}
    ensures |r| == |xs| + 1
    decreases |xs|
  {
    if xs == [] then [x]
    else
      var n := |xs| - 1;
      if le(xs[n], x) then xs + [x]
      else
        assert xs == xs[..n] + [xs[n]];
        Insert(x, xs[..n], le) + [xs[n]]
  }

  /** Inserting keeps a sorted sequence sorted. */
  lemma {:induction false} InsertSorted<T(!new)>(x: T, xs: seq<T>, le: (T, T) -> bool)
    requires Total(le) && Transitive(le)
    requires Sorted(xs, le)
    ensures Sorted(Insert(x, xs, le), le)
    decreases |xs|
  {
    if xs != [] {
      var n := |xs| - 1;
      var last := xs[n];
      if !le(last, x) {
        assert le(x, last);
        assert Sorted(xs[..n], le);
        InsertSorted(x, xs[..n], le);
        var init := Insert(x, xs[..n], le);
        forall i | 0 <= i < |init|
          ensures le(init[i], last)
        {
          assert init[i] in multiset(xs[..n]) + multiset{x};
          if init[i] != x {
            assert init[i] in xs[..n];
          }
        }
      }
    }
  }

  /** Insertion sort: a permutation of its input. */
  function Sort<T>(xs: seq<T>, le: (T, T) -> bool): (r: seq<T>)
    ensures multiset(r) == multiset(xs)
    ensures |r| == |xs|
    decreases |xs|
  {
    if xs == [] then []
    else
      var n := |xs| - 1;
      assert xs == xs[..n] + [xs[n]];
      Insert(xs[n], Sort(xs[..n], le), le)
  }

  /** The sort's result is in ascending order. */
  lemma {:induction false} SortSorted<T(!new)>(xs: seq<T>, le: (T, T) -> bool)
    requires Total(le) && Transitive(le)
    ensures Sorted(Sort(xs, le), le)
    decreases |xs|
  {
    if xs != [] {
      var n := |xs| - 1;
      SortSorted(xs[..n], le);
      InsertSorted(xs[n], Sort(xs[..n], le), le);
    }
  }

  /** In a sorted sequence, the first element with a given key sorts no
      later than any element with that key: the survivor of first-occurrence
      de-duplication after a sort is a least element of its key. */
  lemma FirstOccurrenceLeast<T(!new), K>(xs: seq<T>, key: T -> K, le: (T, T) -> bool, r: seq<T>)
    requires Sorted(xs, le) && Total(le)
    requires FirstOccurrences(r, xs, key)
    ensures forall i, j :: 0 <= i < |r| && 0 <= j < |xs| && key(xs[j]) == key(r[i]) ==> le(r[i], xs[j])
  {
    var idx := FirstPositions(xs, key);
    forall i, j | 0 <= i < |r| && 0 <= j < |xs| && key(xs[j]) == key(r[i])
      ensures le(r[i], xs[j])
    {
      var p := idx[i];
      assert r[i] == xs[p] && p in idx;
      assert FirstOfKey(xs, key, p);
      assert p <= j;
      TotalReflexive(le, xs[j]);
    }
  }

  /** `FirstOccurrenceLeast` for one survivor and one element of `xs`. */
  lemma FirstOccurrenceLeastAt<T(!new), K>(xs: seq<T>, key: T -> K, le: (T, T) -> bool, r: seq<T>, i: nat, y: T)
    requires Sorted(xs, le) && Total(le)
    requires FirstOccurrences(r, xs, key)
    requires i < |r| && y in xs && key(y) == key(r[i])
    ensures le(r[i], y)
  {
    FirstOccurrenceLeast(xs, key, le, r);
    var j :| 0 <= j < |xs| && xs[j] == y;
  }

  /** A total relation relates every element to itself. */
  lemma TotalReflexive<T(!new)>(le: (T, T) -> bool, x: T)
    requires Total(le)
    ensures le(x, x)
  {
    assert le(x, x) || le(x, x);
  }

  /** Dropping elements keeps the order of the rest. */
  lemma {:induction false} SortedSubsequence<T>(sub: seq<T>, xs: seq<T>, le: (T, T) -> bool)
    requires IsSubsequence(sub, xs) && Sorted(xs, le)
    ensures Sorted(sub, le)
    decreases |xs|
  {
    if sub != [] && xs != [] {
      var n := |xs| - 1;
      var m := |sub| - 1;
      assert Sorted(xs[..n], le);
      if sub[m] == xs[n] && IsSubsequence(sub[..m], xs[..n]) {
        SortedSubsequence(sub[..m], xs[..n], le);
        SubsequenceMembers(sub[..m], xs[..n]);
        forall i | 0 <= i < m
          ensures le(sub[i], sub[m])
        {
          assert sub[i] == sub[..m][i];
          assert sub[i] in xs[..n];
          var k :| 0 <= k < n && xs[..n][k] == sub[i];
          assert xs[k] == sub[i];
        }
        forall i, j | 0 <= i < j < |sub|
          ensures le(sub[i], sub[j])
        {
          if j < m {
            assert sub[i] == sub[..m][i] && sub[j] == sub[..m][j];
          }
        }
      } else {
        SortedSubsequence(sub, xs[..n], le);
      }
    }
  }
}
