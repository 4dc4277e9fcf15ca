/**
 Index permutations: the order in which a random-order traversal of the
 queue visits the slots of its backing store.
 */
module Permutations {

  /** The indices 0, 1, ..., n-1 in increasing order. */
  function Iota(n: nat): seq<int> {
    seq(n, k => k)
  }

  /** `p` lists indices below `n` and holds, as a multiset, exactly 0..n-1:
      every index below `n` occurs in `p` once. */
  ghost predicate IsPermutation(p: seq<int>, n: nat) {
    && (forall k :: 0 <= k < |p| ==> 0 <= p[k] < n)
    && multiset(p) == multiset(Iota(n))
  }

  /** `s` with the entries at `i` and `j` exchanged (`std::swap`). */
  function Swap<X>(s: seq<X>, i: nat, j: nat): (r: seq<X>)
    requires i < |s| && j < |s|
    ensures |r| == |s| && r[i] == s[j] && r[j] == s[i]
    ensures forall k :: 0 <= k < |s| && k != i && k != j ==> r[k] == s[k]
    ensures multiset(r) == multiset(s)
  {
    s[i := s[j]][j := s[i]]
  }

  /** The elements of `d` read in the order the indices of `p` give. */
  function Gather<X>(d: seq<X>, p: seq<int>): seq<X>
    requires forall k :: 0 <= k < |p| ==> 0 <= p[k] < |d|
  {
    seq(|p|, k requires 0 <= k < |p| => d[p[k]])
  }

  /** Each index below `n` occurs once among 0..n-1, and no other value does. */
  lemma {:induction false} IotaCount(n: nat, v: nat)
    ensures multiset(Iota(n))[v] == if v < n then 1 else 0
  {
    if n > 0 {
      IotaCount(n - 1, v);
      assert Iota(n) == Iota(n - 1) + [n - 1];
    }
  }

  /** Two equal entries of a sequence give their value a count of at least two. */
  lemma CountAtLeastTwo(p: seq<int>, i: nat, j: nat)
    requires i < j < |p|
    ensures p[i] == p[j] ==> multiset(p)[p[j]] >= 2
  {
    assert p == p[..j] + [p[j]] + p[j + 1..];
    assert p[..j][i] == p[i];
  }

  /** A permutation of 0..n-1 has length n, repeats no index and omits none:
      a walk along it visits every index below n exactly once. */
  lemma PermutationFacts(p: seq<int>, n: nat)
    requires IsPermutation(p, n)
    ensures |p| == n
    ensures forall i, j :: 0 <= i < j < |p| ==> p[i] != p[j]
    ensures forall v: nat :: v < n ==> v in p
  {
    assert |p| == |multiset(p)| == |multiset(Iota(n))| == n;
    forall i, j | 0 <= i < j < |p|
      ensures p[i] != p[j]
    {
      CountAtLeastTwo(p, i, j);
      IotaCount(n, p[j]);
    }
    forall v: nat | v < n
      ensures v in p
    {
      IotaCount(n, v);
      assert v in multiset(p);
    }
  }

  /** Exchanging two entries of a permutation leaves a permutation. */
  lemma SwapPermutation(p: seq<int>, n: nat, i: nat, j: nat)
    requires IsPermutation(p, n) && i < |p| && j < |p|
    ensures IsPermutation(Swap(p, i, j), n)
  {
  }

  /** A list holding, as a multiset, exactly 0..n-1 lists only indices below n. */
  lemma MultisetRange(p: seq<int>, n: nat)
    requires multiset(p) == multiset(Iota(n))
    ensures forall k :: 0 <= k < |p| ==> 0 <= p[k] < n
  {
    forall k | 0 <= k < |p|
      ensures 0 <= p[k] < n
    {
      assert p[k] in multiset(Iota(n));
    }
  }

  /** An element added to both sides of a multiset equation cancels. */
  lemma MultisetCancel<X>(a: multiset<X>, b: multiset<X>, x: X)
    requires a + multiset{x} == b + multiset{x}
    ensures a == b
  {
    assert a == (a + multiset{x}) - multiset{x};
    assert b == (b + multiset{x}) - multiset{x};
  }

  /** A permutation of 0..m whose last entry is m is, without it, a permutation of 0..m-1. */
  lemma DropLast(q: seq<int>, m: nat)
    requires IsPermutation(q, m + 1) && |q| == m + 1 && q[m] == m
    ensures IsPermutation(q[..m], m)
  {
    var rest := q[..m];
    assert multiset(rest) + multiset{m} == multiset(Iota(m)) + multiset{m} by {
      assert q == rest + [m];
      assert Iota(m + 1) == Iota(m) + [m];
    }
    assert multiset(rest) == multiset(Iota(m)) by {
      MultisetCancel(multiset(rest), multiset(Iota(m)), m);
    }
    MultisetRange(rest, m);
  }

  /** Gathering through a swapped index list swaps the gathered elements. */
  lemma GatherSwap<X>(d: seq<X>, p: seq<int>, i: nat, j: nat)
    requires forall k :: 0 <= k < |p| ==> 0 <= p[k] < |d|
    requires i < |p| && j < |p|
    ensures forall k :: 0 <= k < |p| ==> 0 <= Swap(p, i, j)[k] < |d|
    ensures Gather(d, Swap(p, i, j)) == Swap(Gather(d, p), i, j)
  {
  }

  /** Extending the index list by one index appends the element it picks. */
  lemma GatherExtend<X>(d: seq<X>, p: seq<int>, c: nat)
    requires c < |p| && forall k :: 0 <= k < |p| ==> 0 <= p[k] < |d|
    ensures Gather(d, p[..c + 1]) == Gather(d, p[..c]) + [d[p[c]]]
  {
  }

  /** Gathering through a list of indices that ends with the last index of `d`. */
  lemma GatherLast<X>(d: seq<X>, rest: seq<int>)
    requires |d| > 0
    requires forall k :: 0 <= k < |rest| ==> 0 <= rest[k] < |d| - 1
    ensures multiset(Gather(d, rest + [|d| - 1])) == multiset(Gather(d[..|d| - 1], rest)) + multiset{d[|d| - 1]}
    ensures multiset(d) == multiset(d[..|d| - 1]) + multiset{d[|d| - 1]}
  {
    assert d == d[..|d| - 1] + [d[|d| - 1]];
    assert Gather(d, rest + [|d| - 1]) == Gather(d[..|d| - 1], rest) + [d[|d| - 1]];
  }

  /** One step of the induction below: moving the last index of `d` to the end
      of the permutation splits off the last element of `d`. */
  lemma GatherSplitLast<X>(d: seq<X>, p: seq<int>, j: nat)
    requires IsPermutation(p, |d|) && |p| == |d| > 0
    requires j < |p| && p[j] == |d| - 1
    ensures IsPermutation(Swap(p, j, |d| - 1)[..|d| - 1], |d| - 1)
    ensures multiset(Gather(d, p))
         == multiset(Gather(d[..|d| - 1], Swap(p, j, |d| - 1)[..|d| - 1])) + multiset{d[|d| - 1]}
    ensures multiset(d) == multiset(d[..|d| - 1]) + multiset{d[|d| - 1]}
  {
    var m := |d| - 1;
    var q := Swap(p, j, m);
    var rest := q[..m];
    assert IsPermutation(rest, m) by {
      SwapPermutation(p, |d|, j, m);
      DropLast(q, m);
    }
    assert multiset(Gather(d, p)) == multiset(Gather(d, q)) by {
      GatherSwap(d, p, j, m);
    }
    assert multiset(Gather(d, q)) == multiset(Gather(d[..m], rest)) + multiset{d[m]} by {
      assert q == rest + [m];
      GatherLast(d, rest);
    }
    GatherLast(d, rest);
  }

  /** Reading the elements of `d` through a permutation of its indices yields
      every element of `d` as often as `d` holds it. */
  lemma {:induction false} GatherElements<X>(d: seq<X>, p: seq<int>)
    requires IsPermutation(p, |d|)
    ensures multiset(Gather(d, p)) == multiset(d)
    decreases |d|
  {
    if |d| > 0 {
      var m := |d| - 1;
      assert m in p && |p| == |d| by {
        PermutationFacts(p, |d|);
      }
      var j :| 0 <= j < |p| && p[j] == m;
      GatherSplitLast(d, p, j);
      GatherElements(d[..m], Swap(p, j, m)[..m]);
    }
  }
}
