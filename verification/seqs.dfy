/** First-occurrence de-duplication, the one sequence operation the scraper
    applies in three places: `Series.unique()` on stage input keys, the
    `seen`-set loop over (URL, name, crew) triples, and
    `DataFrame.drop_duplicates(subset=...)` on the royals; and the search
    for the first element (or position) with a property. */
module Seqs {
  import opened Base

  /** The index of the first element of `xs` that satisfies `p`, if any. */
  function FirstIndex<T>(xs: seq<T>, p: T -> bool): (r: Option<nat>)
    ensures r.Some? ==> r.value < |xs| && p(xs[r.value])
    ensures r.Some? ==> forall j :: 0 <= j < r.value ==> !p(xs[j])
    ensures r.None? <==> forall j :: 0 <= j < |xs| ==> !p(xs[j])
    decreases |xs|
  {
    if xs == [] then None
    else if p(xs[0]) then Some(0)
    else
      match FirstIndex(xs[1..], p)
      case None =>
        assert forall j :: 1 <= j < |xs| ==> xs[j] == xs[1..][j - 1];
        None
      case Some(i) =>
        assert forall j :: 1 <= j < i + 1 ==> xs[j] == xs[1..][j - 1];
        Some(i + 1)
  }

  /** What `f` gives the last element of `xs` it does not map to `None`: a
      loop in which every accepted element overwrites the result. */
  function LastSome<T, U>(xs: seq<T>, f: T -> Option<U>): Option<U>
    decreases |xs|
  {
    if xs == [] then None
    else
      var n := |xs| - 1;
      if f(xs[n]).Some? then f(xs[n]) else LastSome(xs[..n], f)
  }

  /** The last accepted element decides the result. */
  lemma {:induction false} LastSomeAt<T, U>(xs: seq<T>, f: T -> Option<U>, i: nat)
    requires i < |xs| && f(xs[i]).Some?
    requires forall j :: i < j < |xs| ==> f(xs[j]).None?
    ensures LastSome(xs, f) == f(xs[i])
    decreases |xs|
  {
    var n := |xs| - 1;
    if i < n {
      var init := xs[..n];
      assert forall j :: i <= j < n ==> init[j] == xs[j];
      LastSomeAt(init, f, i);
    }
  }

  /** With no accepted element there is no result. */
  lemma {:induction false} LastSomeNone<T, U>(xs: seq<T>, f: T -> Option<U>)
    requires forall j :: 0 <= j < |xs| ==> f(xs[j]).None?
    ensures LastSome(xs, f).None?
    decreases |xs|
  {
    if xs != [] {
      var n := |xs| - 1;
      assert forall j :: 0 <= j < n ==> xs[..n][j] == xs[j];
      LastSomeNone(xs[..n], f);
    }
  }

  /** The least position in `[from, n)` that satisfies `ok`, if any. */
  function LeastFrom(n: nat, ok: nat -> bool, from: nat): (r: Option<nat>)
    ensures r.Some? ==> from <= r.value < n && ok(r.value)
    ensures r.Some? ==> forall p :: from <= p < r.value ==> !ok(p)
    ensures r.None? ==> forall p :: from <= p < n ==> !ok(p)
    decreases n - from
  {
    if from >= n then None
    else if ok(from) then Some(from)
    else LeastFrom(n, ok, from + 1)
  }

  /** The values `f` gives the elements of `xs`, in order, skipping the
      elements it maps to `None`. */
  function FilterMap<T, U>(xs: seq<T>, f: T -> Option<U>): (r: seq<U>)
    ensures |r| <= |xs|
    decreases |xs|
  {
    if xs == [] then []
    else
      var n := |xs| - 1;
      FilterMap(xs[..n], f) + (if f(xs[n]).Some? then [f(xs[n]).value] else [])
  }

  /** Every element `f` keeps has its value in the result. */
  lemma {:induction false} FilterMapComplete<T, U>(xs: seq<T>, f: T -> Option<U>)
    ensures forall j :: 0 <= j < |xs| && f(xs[j]).Some? ==> f(xs[j]).value in FilterMap(xs, f)
    decreases |xs|
  {
    if xs != [] {
      var n := |xs| - 1;
      FilterMapComplete(xs[..n], f);
      assert forall j :: 0 <= j < n ==> xs[..n][j] == xs[j];
    }
  }

  /** Every value in the result is what `f` gives some element. */
  lemma {:induction false} FilterMapSound<T, U>(xs: seq<T>, f: T -> Option<U>)
    ensures forall y :: y in FilterMap(xs, f) ==> exists j :: 0 <= j < |xs| && f(xs[j]) == Some(y)
    decreases |xs|
  {
    if xs != [] {
      var n := |xs| - 1;
      FilterMapSound(xs[..n], f);
      forall y | y in FilterMap(xs, f)
        ensures exists j :: 0 <= j < |xs| && f(xs[j]) == Some(y)
      {
        if y in FilterMap(xs[..n], f) {
          var j :| 0 <= j < n && f(xs[..n][j]) == Some(y);
          assert xs[..n][j] == xs[j];
        } else {
          assert f(xs[n]) == Some(y);
        }
      }
    }
  }

  /** When `f` keeps nothing the result is empty. */
  lemma {:induction false} FilterMapNone<T, U>(xs: seq<T>, f: T -> Option<U>)
    requires forall j :: 0 <= j < |xs| ==> f(xs[j]).None?
    ensures FilterMap(xs, f) == []
    decreases |xs|
  {
    if xs != [] {
      var n := |xs| - 1;
      assert forall j :: 0 <= j < n ==> xs[..n][j] == xs[j];
      FilterMapNone(xs[..n], f);
    }
  }

  /** `idx` is strictly increasing and every entry is below `n`: positions
      of a sequence of length `n`, in order. */
  ghost predicate PositionsBelow(idx: seq<nat>, n: nat) {
    && (forall j :: 0 <= j < |idx| ==> idx[j] < n)
    && (forall j, k :: 0 <= j < k < |idx| ==> idx[j] < idx[k])
  }

  /** The positions `i` where `f(xs[i])` is a value, in increasing order. */
  ghost function KeptPositions<T, U>(xs: seq<T>, f: T -> Option<U>): seq<nat>
    decreases |xs|
  {
    if xs == [] then []
    else
      var n := |xs| - 1;
      KeptPositions(xs[..n], f) + (if f(xs[n]).Some? then [n] else [])
  }

  /** `r` lists, in order, the values `f` gives the elements of `xs`,
      exactly one per element that `f` keeps. */
  ghost predicate FilteredBy<T, U>(r: seq<U>, xs: seq<T>, f: T -> Option<U>) {
    var idx := KeptPositions(xs, f);
    && |idx| == |r| && PositionsBelow(idx, |xs|)
    && (forall j :: 0 <= j < |idx| ==> f(xs[idx[j]]) == Some(r[j]))
    && (forall i :: 0 <= i < |xs| ==> (i in idx <==> f(xs[i]).Some?))
  }

  /** `FilterMap` keeps order and multiplicity: its j-th value comes from
      the j-th element that `f` keeps. */
  lemma {:induction false} FilterMapInOrder<T, U>(xs: seq<T>, f: T -> Option<U>)
    ensures FilteredBy(FilterMap(xs, f), xs, f)
    decreases |xs|
  {
    if xs != [] {
      var n := |xs| - 1;
      var p := xs[..n];
      FilterMapInOrder(p, f);
      var idx0 := KeptPositions(p, f);
      var idx := KeptPositions(xs, f);
      var r0 := FilterMap(p, f);
      var r := FilterMap(xs, f);
      assert idx == idx0 + (if f(xs[n]).Some? then [n] else []);
      assert r == r0 + (if f(xs[n]).Some? then [f(xs[n]).value] else []);
      forall j | 0 <= j < |idx|
        ensures idx[j] < |xs| && f(xs[idx[j]]) == Some(r[j])
      {
        if j < |idx0| {
          assert idx[j] == idx0[j] && r[j] == r0[j];
          assert p[idx0[j]] == xs[idx0[j]];
        }
      }
      forall i | 0 <= i < |xs|
        ensures i in idx <==> f(xs[i]).Some?
      {
        if i < n {
          assert p[i] == xs[i];
          assert i in idx <==> i in idx0;
        }
      }
    }
  }

  /** When `f` keeps every element the result has one value per element,
      position for position. */
  lemma {:induction false} FilterMapAll<T, U>(xs: seq<T>, f: T -> Option<U>)
    requires forall j :: 0 <= j < |xs| ==> f(xs[j]).Some?
    ensures |FilterMap(xs, f)| == |xs|
    ensures forall j :: 0 <= j < |xs| ==> f(xs[j]) == Some(FilterMap(xs, f)[j])
    decreases |xs|
  {
    if xs != [] {
      var n := |xs| - 1;
      var p := xs[..n];
      assert forall j :: 0 <= j < n ==> p[j] == xs[j];
      FilterMapAll(p, f);
      assert FilterMap(xs, f) == FilterMap(p, f) + [f(xs[n]).value];
    }
  }

  /** The sequences `f` gives the elements of `xs`, concatenated in order:
      a loop that appends each element's output. */
  function FlatMap<T, U>(xs: seq<T>, f: T -> seq<U>): seq<U>
    decreases |xs|
  {
    if xs == [] then [] else FlatMap(xs[..|xs| - 1], f) + f(xs[|xs| - 1])
  }

  /** The loop over two runs is the loop over the first, then the second. */
  lemma {:induction false} FlatMapAppend<T, U>(a: seq<T>, b: seq<T>, f: T -> seq<U>)
    ensures FlatMap(a + b, f) == FlatMap(a, f) + FlatMap(b, f)
    decreases |b|
  {
    if b == [] {
      assert a + b == a;
    } else {
      var n := |b| - 1;
      FlatMapAppend(a, b[..n], f);
      assert (a + b)[..|a + b| - 1] == a + b[..n];
      assert (a + b)[|a + b| - 1] == b[n];
    }
  }

  /** The loop over one element is that element's output. */
  lemma FlatMapSingle<T, U>(x: T, f: T -> seq<U>)
    ensures FlatMap([x], f) == f(x)
  {
    assert [x][..0] == [];
  }

  /** A property every output element has holds of the whole result. */
  lemma {:induction false} FlatMapEvery<T, U>(xs: seq<T>, f: T -> seq<U>, p: U -> bool)
    requires forall j, k :: 0 <= j < |xs| && 0 <= k < |f(xs[j])| ==> p(f(xs[j])[k])
    ensures forall i :: 0 <= i < |FlatMap(xs, f)| ==> p(FlatMap(xs, f)[i])
    decreases |xs|
  {
    if xs != [] {
      var n := |xs| - 1;
      assert forall j :: 0 <= j < n ==> xs[..n][j] == xs[j];
      FlatMapEvery(xs[..n], f, p);
      var init := FlatMap(xs[..n], f);
      forall i | 0 <= i < |FlatMap(xs, f)|
        ensures p(FlatMap(xs, f)[i])
      {
        if i >= |init| {
          assert FlatMap(xs, f)[i] == f(xs[n])[i - |init|];
        }
      }
    }
  }

  /** When every element gives at most one output, there are at most as
      many outputs as elements. */
  lemma {:induction false} FlatMapShort<T, U>(xs: seq<T>, f: T -> seq<U>)
    requires forall j :: 0 <= j < |xs| ==> |f(xs[j])| <= 1
    ensures |FlatMap(xs, f)| <= |xs|
    decreases |xs|
  {
    if xs != [] {
      var n := |xs| - 1;
      assert forall j :: 0 <= j < n ==> xs[..n][j] == xs[j];
      FlatMapShort(xs[..n], f);
    }
  }

  /** `sub` is `xs` with some elements left out, order kept. */
  predicate IsSubsequence<T(==)>(sub: seq<T>, xs: seq<T>)
    decreases |xs|
  {
    if sub == [] then true
    else if xs == [] then false
    else
      || (sub[|sub| - 1] == xs[|xs| - 1] && IsSubsequence(sub[..|sub| - 1], xs[..|xs| - 1]))
      || IsSubsequence(sub, xs[..|xs| - 1])
  }

  lemma {:induction false} SubsequenceMembers<T>(sub: seq<T>, xs: seq<T>)
    requires IsSubsequence(sub, xs)
    ensures forall x :: x in sub ==> x in xs
    decreases |xs|
  {
    if sub != [] && xs != [] {
      var n := |xs| - 1;
      if sub[|sub| - 1] == xs[n] && IsSubsequence(sub[..|sub| - 1], xs[..n]) {
        SubsequenceMembers(sub[..|sub| - 1], xs[..n]);
        assert sub == sub[..|sub| - 1] + [sub[|sub| - 1]];
      } else {
        SubsequenceMembers(sub, xs[..n]);
      }
      assert xs == xs[..n] + [xs[n]];
    }
  }

  lemma SubsequenceExtend<T>(sub: seq<T>, xs: seq<T>, x: T)
    requires IsSubsequence(sub, xs)
    ensures IsSubsequence(sub, xs + [x])
    ensures IsSubsequence(sub + [x], xs + [x])
  {
    assert (xs + [x])[..|xs|] == xs;
    assert (sub + [x])[..|sub|] == sub;
  }

  /** The elements of `xs` that satisfy `p`, in order. */
  function Filter<T(==)>(xs: seq<T>, p: T -> bool): (r: seq<T>)
    ensures forall i :: 0 <= i < |r| ==> p(r[i])
    ensures IsSubsequence(r, xs)
    decreases |xs|
  {
    if xs == [] then []
    else
      var n := |xs| - 1;
      var init := Filter(xs[..n], p);
      SubsequenceExtend(init, xs[..n], xs[n]);
      assert xs[..n] + [xs[n]] == xs;
      if p(xs[n]) then init + [xs[n]] else init
  }

  /** Every element that satisfies `p` is kept. */
  lemma {:induction false} FilterComplete<T>(xs: seq<T>, p: T -> bool)
    ensures forall i :: 0 <= i < |xs| && p(xs[i]) ==> xs[i] in Filter(xs, p)
    decreases |xs|
  {
    if xs != [] {
      var n := |xs| - 1;
      FilterComplete(xs[..n], p);
      assert forall i :: 0 <= i < n ==> xs[..n][i] == xs[i];
    }
  }

  /** `p` as the option-valued map `FilterMap` takes: keep the element
      itself when `p` holds. */
  function KeepIf<T>(p: T -> bool): T -> Option<T> {
    x => if p(x) then Some(x) else None
  }

  /** `Filter` is `FilterMap` with `KeepIf`. */
  lemma {:induction false} FilterIsFilterMap<T>(xs: seq<T>, p: T -> bool)
    ensures Filter(xs, p) == FilterMap(xs, KeepIf(p))
    decreases |xs|
  {
    if xs != [] {
      FilterIsFilterMap(xs[..|xs| - 1], p);
    }
  }

  /** `Filter` keeps order and multiplicity: its j-th element is the j-th
      element of `xs` that satisfies `p`, and every such element has its
      own place. */
  lemma FilterInOrder<T>(xs: seq<T>, p: T -> bool)
    ensures FilteredBy(Filter(xs, p), xs, KeepIf(p))
  {
    FilterIsFilterMap(xs, p);
    FilterMapInOrder(xs, KeepIf(p));
  }

  /** Each value occurs in the result exactly as often as in `xs` when it
      satisfies `p`, and not at all otherwise. */
  lemma {:induction false} FilterCount<T>(xs: seq<T>, p: T -> bool)
    ensures forall x :: multiset(Filter(xs, p))[x] == if p(x) then multiset(xs)[x] else 0
    decreases |xs|
  {
    if xs != [] {
      var n := |xs| - 1;
      FilterCount(xs[..n], p);
      assert xs == xs[..n] + [xs[n]];
    }
  }

  lemma {:induction false} SubsequenceRefl<T>(xs: seq<T>)
    ensures IsSubsequence(xs, xs)
    decreases |xs|
  {
    if xs != [] {
      SubsequenceRefl(xs[..|xs| - 1]);
    }
  }

  /** The identity, as a key: `DedupBy(xs, Id)` keeps first occurrences of values. */
  function Id<T>(x: T): T { x }

  /** The keys of the elements of `xs`. */
  function KeysOf<T(==), K>(xs: seq<T>, key: T -> K): set<K> {
    set x | x in xs :: key(x)
  }

  /** Keep the first element for each key, dropping every later element with
      a key already seen; order is kept. */
  function DedupBy<T(==), K(==)>(xs: seq<T>, key: T -> K): (r: seq<T>)
    ensures IsSubsequence(r, xs)
    ensures KeysOf(r, key) == KeysOf(xs, key)
    decreases |xs|
  {
    if xs == [] then []
    else
      var n := |xs| - 1;
      var init := DedupBy(xs[..n], key);
      SubsequenceExtend(init, xs[..n], xs[n]);
      assert xs[..n] + [xs[n]] == xs;
      assert KeysOf(xs, key) == KeysOf(xs[..n], key) + {key(xs[n])};
      if key(xs[n]) in KeysOf(xs[..n], key) then init
      else
        assert KeysOf(init + [xs[n]], key) == KeysOf(init, key) + {key(xs[n])};
        init + [xs[n]]
  }

  /** No two elements of `xs` share a key. */
  ghost predicate KeysDistinct<T, K>(xs: seq<T>, key: T -> K) {
    forall i, j :: 0 <= i < j < |xs| ==> key(xs[i]) != key(xs[j])
  }

  /** `xs[i]` is the first element of `xs` with its key. */
  ghost predicate FirstOfKey<T, K>(xs: seq<T>, key: T -> K, i: nat)
    requires i < |xs|
  {
    forall j :: 0 <= j < i ==> key(xs[j]) != key(xs[i])
  }

  /** The positions where `xs` shows a key for the first time, in order. */
  ghost function FirstPositions<T, K>(xs: seq<T>, key: T -> K): seq<nat>
    decreases |xs|
  {
    if xs == [] then []
    else
      var n := |xs| - 1;
      FirstPositions(xs[..n], key) + (if FirstOfKey(xs, key, n) then [n] else [])
  }

  /** `r` is the first occurrences of `xs`, in order: `r[j]` is the element
      at the j-th position where `xs` shows a key for the first time. */
  ghost predicate FirstOccurrences<T, K>(r: seq<T>, xs: seq<T>, key: T -> K) {
    var idx := FirstPositions(xs, key);
    && |idx| == |r| && PositionsBelow(idx, |xs|)
    && (forall j :: 0 <= j < |idx| ==> r[j] == xs[idx[j]])
    && (forall i :: 0 <= i < |xs| ==> (i in idx <==> FirstOfKey(xs, key, i)))
  }

  /** A key is among those of a prefix exactly when an earlier element has it. */
  lemma KeysOfPrefix<T, K>(xs: seq<T>, key: T -> K, n: nat)
    requires n < |xs|
    ensures key(xs[n]) in KeysOf(xs[..n], key) <==> !FirstOfKey(xs, key, n)
  {
    var p := xs[..n];
    if key(xs[n]) in KeysOf(p, key) {
      var x :| x in p && key(x) == key(xs[n]);
      var j :| 0 <= j < n && p[j] == x;
      assert key(xs[j]) == key(xs[n]);
    }
    if !FirstOfKey(xs, key, n) {
      var j :| 0 <= j < n && key(xs[j]) == key(xs[n]);
      assert p[j] == xs[j];
      assert p[j] in p;
    }
  }

  /** `DedupBy` is exactly the first occurrences of `xs`, in order. */
  lemma {:induction false} DedupByInOrder<T, K>(xs: seq<T>, key: T -> K)
    ensures FirstOccurrences(DedupBy(xs, key), xs, key)
    decreases |xs|
  {
    if xs != [] {
      var n := |xs| - 1;
      var p := xs[..n];
      DedupByInOrder(p, key);
      KeysOfPrefix(xs, key, n);
      var idx0 := FirstPositions(p, key);
      var idx := FirstPositions(xs, key);
      var r0 := DedupBy(p, key);
      var r := DedupBy(xs, key);
      assert idx == idx0 + (if FirstOfKey(xs, key, n) then [n] else []);
      assert r == r0 + (if FirstOfKey(xs, key, n) then [xs[n]] else []);
      forall j | 0 <= j < |idx|
        ensures idx[j] < |xs| && r[j] == xs[idx[j]]
      {
        if j < |idx0| {
          assert idx[j] == idx0[j] && r[j] == r0[j];
          assert p[idx0[j]] == xs[idx0[j]];
        }
      }
      forall i | 0 <= i < |xs|
        ensures i in idx <==> FirstOfKey(xs, key, i)
      {
        if i < n {
          FirstOfKeyPrefix(xs, key, n, i);
          assert i in idx <==> i in idx0;
        }
      }
    }
  }

  /** The result of `DedupBy` has distinct keys, and every element that is the
      first of its key is kept. */
  lemma DedupByFirstOccurrences<T, K>(xs: seq<T>, key: T -> K)
    ensures KeysDistinct(DedupBy(xs, key), key)
    ensures forall i :: 0 <= i < |xs| && FirstOfKey(xs, key, i) ==> xs[i] in DedupBy(xs, key)
  {
    var r, idx := DedupBy(xs, key), FirstPositions(xs, key);
    DedupByInOrder(xs, key);
    forall a, b | 0 <= a < b < |r|
      ensures key(r[a]) != key(r[b])
    {
      assert idx[a] < idx[b] && FirstOfKey(xs, key, idx[b]) by {
        assert idx[b] in idx;
      }
    }
    forall i | 0 <= i < |xs| && FirstOfKey(xs, key, i)
      ensures xs[i] in r
    {
      var j :| 0 <= j < |idx| && idx[j] == i;
    }
  }

  /** Whether an element is the first of its key depends only on what comes
      before it. */
  lemma FirstOfKeyPrefix<T, K>(xs: seq<T>, key: T -> K, n: nat, i: nat)
    requires i < n <= |xs|
    ensures FirstOfKey(xs, key, i) <==> FirstOfKey(xs[..n], key, i)
  {
    assert forall j :: 0 <= j <= i ==> xs[..n][j] == xs[j];
  }

  /** De-duplication is idempotent. */
  lemma {:induction false} DedupByIdempotent<T, K>(xs: seq<T>, key: T -> K)
    requires KeysDistinct(xs, key)
    ensures DedupBy(xs, key) == xs
    decreases |xs|
  {
    if xs != [] {
      var n := |xs| - 1;
      assert KeysDistinct(xs[..n], key);
      DedupByIdempotent(xs[..n], key);
      assert xs[..n] + [xs[n]] == xs;
    }
  }

  /** With the identity as key: the result holds exactly the values of `xs`,
      each once. */
  lemma DedupByIdMembers<T>(xs: seq<T>)
    ensures forall x :: x in DedupBy(xs, Id) <==> x in xs
    ensures forall i, j :: 0 <= i < j < |DedupBy(xs, Id)| ==> DedupBy(xs, Id)[i] != DedupBy(xs, Id)[j]
  {
    var r := DedupBy(xs, Id);
    DedupByFirstOccurrences(xs, Id);
    SubsequenceMembers(r, xs);
    forall x | x in xs
      ensures x in r
    {
      assert Id(x) in KeysOf(xs, Id);
    }
    forall i, j | 0 <= i < j < |r|
      ensures r[i] != r[j]
    {
      assert Id(r[i]) != Id(r[j]);
    }
  }
}
