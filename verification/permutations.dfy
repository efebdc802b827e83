/** Index permutations as numpy produces them with `argsort`, and gathering
    a sequence through an index sequence (numpy's `elements[indices]`). */
module Permutations {

  /** No index occurs twice. */
  predicate Distinct(p: seq<nat>) {
    forall a, b :: 0 <= a < b < |p| ==> p[a] != p[b]
  }

  /** Every index is a position of a sequence of length `n`. */
  predicate InBounds(p: seq<nat>, n: nat) {
    forall k :: 0 <= k < |p| ==> p[k] < n
  }

  /** `p` lists each of `0, ..., n - 1` exactly once. */
  predicate IsPermutation(p: seq<nat>, n: nat) {
    |p| == n && InBounds(p, n) && Distinct(p)
  }

  /** `0, 1, ..., n - 1`: numpy's `arange(n)`. */
  function Iota(n: nat): (s: seq<nat>)
    ensures |s| == n
  {
    seq(n, k => k)
  }

  /** numpy's fancy indexing `s[p]`: the elements of `s` at the positions
      listed in `p`, in the order of `p`. */
  function Gather<T>(s: seq<T>, p: seq<nat>): (r: seq<T>)
    requires InBounds(p, |s|)
    ensures |r| == |p|
    ensures forall k :: 0 <= k < |p| ==> r[k] == s[p[k]]
  {
    seq(|p|, k requires 0 <= k < |p| => s[p[k]])
  }

  /** The indices of `p` other than its last, renumbered to skip the
      position `p[|p| - 1]`. */
  function DropLast(p: seq<nat>): (p': seq<nat>)
    requires |p| > 0
    ensures |p'| == |p| - 1
  {
    var last := p[|p| - 1];
    seq(|p| - 1, k requires 0 <= k < |p| - 1 => if p[k] <= last then p[k] else p[k] - 1)
  }

  lemma DropLastIsPermutation(p: seq<nat>, n: nat)
    requires n > 0 && IsPermutation(p, n)
    ensures IsPermutation(DropLast(p), n - 1)
  {
    var last, p' := p[n - 1], DropLast(p);
    assert forall k :: 0 <= k < n - 1 ==> p[k] != last;
    forall a, b | 0 <= a < b < n - 1
      ensures p'[a] != p'[b]
    {
      assert p[a] != p[b];
    }
  }

  /** Gathering through the renumbered indices from the sequence without
      the last picked element gives all but the last gathered element. */
  lemma GatherDropLast<T>(s: seq<T>, p: seq<nat>)
    requires |s| > 0 && IsPermutation(p, |s|)
    ensures InBounds(DropLast(p), |s| - 1)
    ensures Gather(s[..p[|s| - 1]] + s[p[|s| - 1] + 1..], DropLast(p)) == Gather(s, p)[..|s| - 1]
  {
    var n, last := |s|, p[|s| - 1];
    DropLastIsPermutation(p, n);
    var s' := s[..last] + s[last + 1..];
    var g, g' := Gather(s, p), Gather(s', DropLast(p));
    forall k | 0 <= k < n - 1
      ensures g'[k] == g[k]
    {
      assert p[k] != last;
    }
  }

  /** Gathering through a permutation rearranges the elements without
      losing or duplicating any. */
  lemma {:induction false} GatherPermutationMultiset<T>(s: seq<T>, p: seq<nat>)
    requires IsPermutation(p, |s|)
    ensures multiset(Gather(s, p)) == multiset(s)
    decreases |s|
  {
    var n := |s|;
    if n > 0 {
      // Remove the element the last index picks, and renumber the
      // remaining indices so that they point into the shortened sequence.
      var last := p[n - 1];
      var s' := s[..last] + s[last + 1..];
      DropLastIsPermutation(p, n);
      GatherPermutationMultiset(s', DropLast(p));
      GatherDropLast(s, p);
      var g := Gather(s, p);
      assert g == g[..n - 1] + [s[last]];
      assert multiset(g) == multiset(s') + multiset{s[last]};
      assert s == s[..last] + [s[last]] + s[last + 1..];
    }
  }

  /** A permutation of `0, ..., n - 1` contains every one of those indices. */
  lemma PermutationCovers(p: seq<nat>, n: nat)
    requires IsPermutation(p, n)
    ensures forall i :: 0 <= i < n ==> i in p
  {
    var iota := Iota(n);
    GatherPermutationMultiset(iota, p);
    assert Gather(iota, p) == p;
    forall i | 0 <= i < n
      ensures i in p
    {
      assert iota[i] == i;
      assert i in multiset(iota);
    }
  }

  /** The position at which `x` occurs in `p`. */
  function IndexOf(p: seq<nat>, x: nat): (k: nat)
    requires x in p
    ensures k < |p| && p[k] == x
  {
    if p[0] == x then 0 else 1 + IndexOf(p[1..], x)
  }

  /** The inverse of a permutation: `Inverse(p, n)[i]` is the place of `i`
      in `p`. */
  function Inverse(p: seq<nat>, n: nat): (q: seq<nat>)
    requires IsPermutation(p, n)
    ensures IsPermutation(q, n)
    ensures forall k :: 0 <= k < n ==> q[p[k]] == k
    ensures forall i :: 0 <= i < n ==> p[q[i]] == i
  {
    PermutationCovers(p, n);
    seq(n, i requires 0 <= i < n => IndexOf(p, i))
  }
}
