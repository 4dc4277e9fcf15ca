/**
 A randomized queue: a growable store of elements with insertion at the end,
 removal of a randomly chosen element, a non-removing random sample and
 traversal in a freshly shuffled order.

 The pseudorandom generator is not modelled: each random draw is a
 nondeterministic choice (`:|`) within the range the source's distribution
 allows, so every property proved here holds whichever value is drawn.
 */
module RandomizedQueues {
  import opened Permutations

  /** The largest value of the 64-bit `std::size_t`. */
  const SIZE_MAX: nat := 0xFFFF_FFFF_FFFF_FFFF

  /** `n - 1` computed in `std::size_t`: it wraps around to SIZE_MAX at zero. */
  function SizeMinusOne(n: nat): nat {
    if n == 0 then SIZE_MAX else n - 1
  }

  /** A `std::uniform_int_distribution<std::size_t>`, kept as its closed range. */
  datatype Uniform = Uniform(lo: nat, hi: nat) {
    /** Whether a draw from this distribution can yield `i`. */
    predicate Contains(i: nat) {
      lo <= i <= hi
    }
  }

  /** The store after the element at `i` is swapped with the last one and the
      last one is popped off. */
  function SwapRemove<T>(s: seq<T>, i: nat): (r: seq<T>)
    requires i < |s|
    ensures |r| == |s| - 1
  {
    Swap(s, i, |s| - 1)[..|s| - 1]
  }

  /** Swap-and-pop removes exactly the element at `i`, moves the last element
      into the vacated slot and leaves every other slot where it was. */
  lemma SwapRemoveElements<T>(s: seq<T>, i: nat)
    requires i < |s|
    ensures multiset(SwapRemove(s, i)) + multiset{s[i]} == multiset(s)
    ensures multiset(SwapRemove(s, i)) == multiset(s) - multiset{s[i]}
    ensures i < |s| - 1 ==> SwapRemove(s, i)[i] == s[|s| - 1]
    ensures forall k :: 0 <= k < |s| - 1 && k != i ==> SwapRemove(s, i)[k] == s[k]
  {
    var t := Swap(s, i, |s| - 1);
    assert t == SwapRemove(s, i) + [s[i]];
  }

  class RandomizedQueue<T> {
    /** The backing vector `m_data`; the order of its elements carries no meaning. */
    var data: seq<T>
    /** The `mutable distribution` member: the range a random index is drawn from. */
    var distribution: Uniform

    /** The distribution always spans the index range of the current store. */
    ghost predicate Valid()
      reads this
    {
      distribution == GetDistribution()
    }

    /** What the queue holds, regardless of where in the store. */
    ghost function Elements(): multiset<T>
      reads this
    {
      multiset(data)
    }

    /** An empty queue; its distribution is the default one, [0, SIZE_MAX]. */
    constructor ()
      ensures Valid() && data == [] && Elements() == multiset{}
    {
      data := [];
      distribution := Uniform(0, SIZE_MAX);
    }

    /** `size()`: the number of elements the queue holds. */
    function Size(): (n: nat)
      reads this
      ensures n == |Elements()|
    {
      |data|
    }

    /** `empty()`: whether the queue holds no element. */
    function Empty(): (b: bool)
      reads this
      ensures b <==> Size() == 0
      ensures b <==> Elements() == multiset{}
    {
      |data| == 0
    }

    /** `get_distribution()`: the uniform distribution over [0, size() - 1], with
        the subtraction done in `std::size_t`. On a non-empty queue it covers
        exactly the valid indices; on an empty one it wraps to [0, SIZE_MAX]. */
    function GetDistribution(): (d: Uniform)
      reads this
      ensures d.lo == 0
      ensures |data| > 0 ==> forall i: nat :: d.Contains(i) <==> i < |data|
      ensures |data| == 0 ==> d.hi == SIZE_MAX && d.Contains(0)
    {
      Uniform(0, SizeMinusOne(|data|))
    }

    /** `get_random_index()`: a draw from the current distribution. It is a
        valid index exactly when the queue is not empty. */
    method GetRandomIndex() returns (i: nat)
      requires Valid()
      ensures distribution.Contains(i)
      ensures |data| > 0 ==> i < |data|
    {
      i :| distribution.lo <= i <= distribution.hi;
    }

    /** `enqueue(item)`: appends `x` to the store and refreshes the distribution. */
    method Enqueue(x: T)
      requires Valid()
      modifies this
      ensures Valid()
      ensures data == old(data) + [x]
      ensures Elements() == old(Elements()) + multiset{x}
      ensures Size() == old(Size()) + 1
    {
      data := data + [x];
      distribution := GetDistribution();
    }

    /** `sample()`: an element of the queue, chosen at random; the store is not
        changed (the method has no `modifies` clause). */
    method Sample() returns (x: T)
      requires Valid() && |data| > 0
      ensures x in Elements()
    {
      var i := GetRandomIndex();
      x := data[i];
    }

    /** `dequeue()`: swaps a randomly chosen element with the last one, pops it
        off and returns it, then refreshes the distribution. */
    method Dequeue() returns (x: T)
      requires Valid() && |data| > 0
      modifies this
      ensures Valid()
      ensures x in old(Elements())
      ensures Elements() == old(Elements()) - multiset{x}
      ensures Elements() + multiset{x} == old(Elements())
      ensures Size() == old(Size()) - 1
      ensures exists i :: 0 <= i < |old(data)| && x == old(data)[i] && data == SwapRemove(old(data), i)
    {
      ghost var before := data;
      var i := GetRandomIndex();
      var last := |data| - 1;
      data := data[i := data[last]][last := data[i]];
      x := data[last];
      data := data[..last];
      distribution := GetDistribution();
      assert x == before[i] && data == SwapRemove(before, i);
      SwapRemoveElements(before, i);
    }

    /** `begin()`: a fresh random-order iterator at its first position. */
    method Begin() returns (it: RandomIterator<T>)
      ensures fresh(it) && fresh(it.perm)
      ensures it.Valid() && it.store == this && it.n == |data| && it.cursor == 0
    {
      it := new RandomIterator(this, false);
    }

    /** `end()`: a fresh random-order iterator at the sentinel position. */
    method End() returns (it: RandomIterator<T>)
      ensures fresh(it) && fresh(it.perm)
      ensures it.Valid() && it.store == this && it.n == |data| && it.cursor == it.n
    {
      it := new RandomIterator(this, true);
    }
  }

  /** A fresh array holding the indices 0..n-1 in order (`std::iota`). */
  method IndexArray(n: nat) returns (p: array<int>)
    ensures fresh(p) && p[..] == Iota(n)
  {
    p := new int[n](i => i);
  }

  /** Exchanges two entries of a permutation array in place (`std::swap`). */
  method SwapEntries(p: array<int>, n: nat, i: nat, j: nat)
    requires IsPermutation(p[..], n) && i < p.Length && j < p.Length
    modifies p
    ensures p[..] == Swap(old(p[..]), i, j)
    ensures IsPermutation(p[..], n)
  {
    ghost var before := p[..];
    p[i], p[j] := p[j], p[i];
    assert p[..] == Swap(before, i, j);
    SwapPermutation(before, n, i, j);
  }

  /** The permutation array of a fresh iterator over `size` elements: the
      indices 0..size-1 in a random order (a Fisher-Yates shuffle, each swap
      partner drawn at random), followed by the sentinel `size`. */
  method ShuffledIndices(size: nat) returns (p: array<int>)
    ensures fresh(p) && p.Length == size + 1 && p[size] == size
    ensures IsPermutation(p[..size], size)
  {
    p := IndexArray(size + 1);
    var k := size;
    while k > 1
      invariant 0 <= k <= size
      invariant p[size] == size
      invariant IsPermutation(p[..], size + 1)
    {
      var j :| 0 <= j < k;
      SwapEntries(p, size + 1, k - 1, j);
      k := k - 1;
    }
    DropLast(p[..], size);
    assert p[..][..size] == p[..size];
  }

  /** `random_iterator`: a cursor over a random permutation of the store's
      indices, followed by the sentinel slot n that marks the end. */
  class RandomIterator<T> {
    /** The store the iterator reads (the source keeps the store's start). */
    const store: RandomizedQueue<T>
    /** `size()` when the iterator was made. */
    const n: nat
    /** Slots 0..n-1: the visiting order; slot n: the sentinel n. */
    const perm: array<int>
    var cursor: nat

    ghost predicate Valid()
      reads this, perm
    {
      && perm.Length == n + 1
      && perm[n] == n
      && IsPermutation(perm[..n], n)
      && cursor <= n
    }

    /** Snapshots `size()`, shuffles 0..n-1 (Fisher-Yates, each swap partner
        chosen at random) and appends the sentinel; the cursor starts at the
        sentinel when `atEnd` holds and at the first slot otherwise. */
    constructor (store: RandomizedQueue<T>, atEnd: bool)
      ensures this.store == store && n == |store.data|
      ensures Valid() && fresh(perm)
      ensures cursor == if atEnd then n else 0
    {
      var size := |store.data|;
      var p := ShuffledIndices(size);
      this.store := store;
      n := size;
      perm := p;
      cursor := if atEnd then size else 0;
    }

    /** The offset from the store's start that the iterator resolves to. It
        is the sentinel exactly when the cursor has reached the end. */
    function Position(): (r: int)
      reads this, perm
      requires Valid()
      ensures 0 <= r <= n
      ensures r == n <==> cursor == n
    {
      assert cursor < n ==> perm[..n][cursor] == perm[cursor];
      perm[cursor]
    }

    /** Iterator equality: both resolve to the same position of the same store. */
    predicate Equals(other: RandomIterator<T>)
      reads this, perm, other, other.perm
      requires Valid() && other.Valid()
    {
      store == other.store && Position() == other.Position()
    }

    /** `*it`: the element at the current position. */
    method Get() returns (x: T)
      requires Valid() && cursor < n && |store.data| == n
      ensures x == store.data[Position()]
      ensures x in store.Elements()
    {
      x := store.data[perm[cursor]];
    }

    /** `*it = x` through a mutable iterator: overwrites the element at the
        current position and nothing else. */
    method Assign(x: T)
      requires Valid() && cursor < n && |store.data| == n && store.Valid()
      modifies store
      ensures store.Valid()
      ensures store.data == old(store.data)[Position() := x]
    {
      store.data := store.data[perm[cursor] := x];
    }

    /** `++it`: moves the cursor to the next slot of the permutation. */
    method Next()
      requires Valid() && cursor < n
      modifies this`cursor
      ensures Valid() && cursor == old(cursor) + 1
    {
      cursor := cursor + 1;
    }
  }

  /** An iterator equals an end iterator of the same store exactly when its
      cursor has reached the end, although equality compares positions only. */
  lemma EqualsEnd<T>(it: RandomIterator<T>, end: RandomIterator<T>)
    requires it.Valid() && end.Valid()
    requires it.store == end.store && it.n == end.n && end.cursor == end.n
    ensures it.Equals(end) <==> it.cursor == it.n
  {
  }

  /** A range-based `for` over the queue: from `Begin()` while the iterator is
      not equal to `End()`, reading `*it` and advancing. The queue is left as it
      was (the method has no `modifies` clause); every slot of the store is read
      exactly once, so each element comes out as often as the queue holds it. */
  method Traverse<T>(q: RandomizedQueue<T>) returns (visited: seq<T>)
    ensures |visited| == |q.data|
    ensures multiset(visited) == q.Elements()
    ensures exists order :: IsPermutation(order, |q.data|) && visited == Gather(q.data, order)
  {
    var it := q.Begin();
    var end := q.End();
    ghost var order := it.perm[..it.n];
    visited := [];
    while !it.Equals(end)
      invariant it.Valid() && end.Valid()
      invariant it.store == q && end.store == q
      invariant it.n == |q.data| && end.n == |q.data| && end.cursor == end.n
      invariant order == it.perm[..it.n] && IsPermutation(order, |q.data|)
      invariant visited == Gather(q.data, order[..it.cursor])
      decreases it.n - it.cursor
      modifies it
    {
      EqualsEnd(it, end);
      var x := it.Get();
      GatherExtend(q.data, order, it.cursor);
      visited := visited + [x];
      it.Next();
    }
    EqualsEnd(it, end);
    assert order[..it.cursor] == order;
    GatherElements(q.data, order);
  }
}
