/** Ascending sorting of heights (numpy's `sort`), index sorting (numpy's
    `argsort`, whose default algorithm is not stable) and the generator's
    `sort` helper, which returns both. */
module Sorting {
  import opened Permutations

  /** Heights are real numbers; only their order matters here. */
  type Height = real

  predicate Sorted(s: seq<Height>) {
    forall a, b :: 0 <= a < b < |s| ==> s[a] <= s[b]
  }

  /** Listing `v` in the order of the indices `p` gives an ascending
      sequence. */
  predicate SortedBy(v: seq<Height>, p: seq<nat>) {
    InBounds(p, |v|) && forall a, b :: 0 <= a < b < |p| ==> v[p[a]] <= v[p[b]]
  }

  /** `p` is one of the results `argsort(v)` may return: a permutation of
      the positions of `v` that lists them by ascending value. Equal values
      may come in either order, since the default sort is not stable. */
  predicate IsArgsort(v: seq<Height>, p: seq<nat>) {
    IsPermutation(p, |v|) && SortedBy(v, p)
  }

  /** A lower bound of an ascending sequence can be put in front of it. */
  lemma SortedCons(x: Height, s: seq<Height>)
    requires Sorted(s) && forall k :: 0 <= k < |s| ==> x <= s[k]
    ensures Sorted([x] + s)
  {
    var r := [x] + s;
    forall a, b | 0 <= a < b < |r|
      ensures r[a] <= r[b]
    {
      if a > 0 {
        assert r[a] == s[a - 1] && r[b] == s[b - 1];
      }
    }
  }

  /** An index whose value bounds the others from below can be put in
      front of them. */
  lemma SortedByCons(v: seq<Height>, i: nat, p: seq<nat>)
    requires i < |v| && SortedBy(v, p)
    requires forall k :: 0 <= k < |p| ==> v[i] <= v[p[k]]
    ensures SortedBy(v, [i] + p)
  {
    var r := [i] + p;
    forall a, b | 0 <= a < b < |r|
      ensures v[r[a]] <= v[r[b]]
    {
      if a > 0 {
        assert r[a] == p[a - 1] && r[b] == p[b - 1];
      }
    }
  }

  /** The head of an ascending sequence is a lower bound for the rest. */
  lemma HeadIsLeastValue(s: seq<Height>, y: Height)
    requires Sorted(s) && |s| > 0 && y in s[1..]
    ensures s[0] <= y
  {
    var j :| 0 <= j < |s[1..]| && s[1..][j] == y;
    assert s[j + 1] == y;
  }

  /** `x` inserted into the ascending sequence `s` before the first element
      that is not smaller. */
  function Insert(x: Height, s: seq<Height>): (r: seq<Height>)
    requires Sorted(s)
    ensures |r| == |s| + 1
    ensures Sorted(r)
    ensures multiset(r) == multiset(s) + multiset{x}
    decreases |s|
  {
    if |s| == 0 || x <= s[0] then
      SortedCons(x, s);
      [x] + s
    else
      var rest := Insert(x, s[1..]);
      assert s == [s[0]] + s[1..];
      forall k | 0 <= k < |rest|
        ensures s[0] <= rest[k]
      {
        assert rest[k] in multiset(rest);
        if rest[k] != x {
          HeadIsLeastValue(s, rest[k]);
        }
      }
      SortedCons(s[0], rest);
      [s[0]] + rest
  }

  /** numpy's `sort`: the elements of `s` in ascending order. */
  function Sort(s: seq<Height>): (r: seq<Height>)
    ensures |r| == |s|
    ensures Sorted(r)
    ensures multiset(r) == multiset(s)
    decreases |s|
  {
    if |s| == 0 then []
    else
      assert s == [s[0]] + s[1..];
      assert multiset(s) == multiset{s[0]} + multiset(s[1..]);
      Insert(s[0], Sort(s[1..]))
  }

  /** An ascending sequence is determined by its multiset of elements, so
      every sorting algorithm gives the same result. */
  lemma {:induction false} SortedUnique(a: seq<Height>, b: seq<Height>)
    requires Sorted(a) && Sorted(b)
    requires multiset(a) == multiset(b)
    ensures a == b
    decreases |a|
  {
    assert |a| == |multiset(a)| == |multiset(b)| == |b|;
    if |a| > 0 {
      // Each head is a lower bound of the other sequence's elements.
      assert a[0] in multiset(b);
      assert b[0] in multiset(a);
      assert a[0] == b[0];
      assert a == [a[0]] + a[1..];
      assert b == [b[0]] + b[1..];
      assert multiset(a) == multiset{a[0]} + multiset(a[1..]);
      assert multiset(b) == multiset{b[0]} + multiset(b[1..]);
      assert multiset(a[1..]) == multiset(a) - multiset{a[0]};
      assert multiset(b[1..]) == multiset(b) - multiset{b[0]};
      SortedUnique(a[1..], b[1..]);
    }
  }

  /** The first index of `p` is a lower bound for every index in the rest. */
  lemma HeadIsLeast(v: seq<Height>, p: seq<nat>, x: nat)
    requires SortedBy(v, p) && |p| > 0 && x in p[1..]
    ensures x < |v| && v[p[0]] <= v[x]
  {
    var j :| 0 <= j < |p[1..]| && p[1..][j] == x;
    assert p[j + 1] == x;
  }

  /** The index `i` inserted into `p`, which lists positions of `v` by
      ascending value, before the first index whose value is not smaller. */
  function ArgInsert(v: seq<Height>, i: nat, p: seq<nat>): (r: seq<nat>)
    requires i < |v| && SortedBy(v, p)
    ensures |r| == |p| + 1
    ensures SortedBy(v, r)
    ensures multiset(r) == multiset(p) + multiset{i}
    decreases |p|
  {
    if |p| == 0 || v[i] <= v[p[0]] then
      SortedByCons(v, i, p);
      [i] + p
    else
      var rest := ArgInsert(v, i, p[1..]);
      assert p == [p[0]] + p[1..];
      forall k | 0 <= k < |rest|
        ensures rest[k] == i || rest[k] in p[1..]
      {
        assert rest[k] in multiset(rest);
      }
      forall k | 0 <= k < |rest|
        ensures rest[k] < |v| && v[p[0]] <= v[rest[k]]
      {
        if rest[k] != i {
          HeadIsLeast(v, p, rest[k]);
        }
      }
      SortedByCons(v, p[0], rest);
      [p[0]] + rest
  }

  /** Inserting an index that is not yet present keeps the indices
      distinct. */
  lemma {:induction false} ArgInsertDistinct(v: seq<Height>, i: nat, p: seq<nat>)
    requires i < |v| && SortedBy(v, p)
    requires Distinct(p) && i !in p
    ensures Distinct(ArgInsert(v, i, p))
    decreases |p|
  {
    var r := ArgInsert(v, i, p);
    if |p| > 0 && v[i] > v[p[0]] {
      var rest := ArgInsert(v, i, p[1..]);
      ArgInsertDistinct(v, i, p[1..]);
      assert r == [p[0]] + rest;
      forall k | 0 <= k < |rest|
        ensures rest[k] != p[0]
      {
        assert rest[k] in multiset(rest);
        if rest[k] != i {
          var j :| 0 <= j < |p[1..]| && p[1..][j] == rest[k];
          assert p[j + 1] == rest[k];
        }
      }
    }
  }

  /** The positions `0, ..., m - 1` of `v`, listed by ascending value. */
  function ArgsortPrefix(v: seq<Height>, m: nat): (p: seq<nat>)
    requires m <= |v|
    ensures IsPermutation(p, m)
    ensures SortedBy(v, p)
    decreases m
  {
    if m == 0 then []
    else
      var prev := ArgsortPrefix(v, m - 1);
      var p := ArgInsert(v, m - 1, prev);
      ArgInsertDistinct(v, m - 1, prev);
      forall k | 0 <= k < |p|
        ensures p[k] < m
      {
        assert p[k] in multiset(p);
      }
      p
  }

  /** One admissible result of numpy's `argsort(v)`. */
  function Argsort(v: seq<Height>): (p: seq<nat>)
    ensures IsArgsort(v, p)
  {
    ArgsortPrefix(v, |v|)
  }

  /** Whichever order `argsort` gives equal values, reading `v` through it
      yields the same ascending sequence, `Sort(v)`. */
  lemma ArgsortGathersSorted(v: seq<Height>, p: seq<nat>)
    requires IsArgsort(v, p)
    ensures Gather(v, p) == Sort(v)
  {
    GatherPermutationMultiset(v, p);
    SortedUnique(Gather(v, p), Sort(v));
  }

  /** The generator's `sort(elements)` helper on a one-dimensional array:
      `argsort` the elements, and return them read through those indices
      together with the indices. */
  function SortWithIndices(elements: seq<Height>): (r: (seq<Height>, seq<nat>))
    ensures IsArgsort(elements, r.1)
    ensures |r.0| == |elements|
    ensures forall k :: 0 <= k < |elements| ==> r.0[k] == elements[r.1[k]]
    ensures r.0 == Sort(elements)
  {
    var indices := Argsort(elements);
    ArgsortGathersSorted(elements, indices);
    (Gather(elements, indices), indices)
  }
}
