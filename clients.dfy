/**
 Callers of the randomized queue that use it only through its interface.
 Each states, for every outcome of the random draws, what a caller can
 rely on.
 */
module Clients {
  import opened RandomizedQueues

  /** Enqueues the elements of `xs` into a new queue: its size is then |xs|,
      and a traversal yields exactly the elements of `xs`. */
  method EnqueueAll<T>(xs: seq<T>) returns (size: nat, visited: seq<T>)
    ensures size == |xs|
    ensures multiset(visited) == multiset(xs)
  {
    var q := new RandomizedQueue<T>();
    var k := 0;
    while k < |xs|
      invariant 0 <= k <= |xs|
      invariant q.Valid() && q.data == xs[..k]
      modifies q
    {
      q.Enqueue(xs[k]);
      assert xs[..k + 1] == xs[..k] + [xs[k]];
      k := k + 1;
    }
    assert xs[..k] == xs;
    size := q.Size();
    visited := Traverse(q);
  }

  /** Dequeuing right after enqueuing `x` into an empty queue returns `x` and
      leaves the queue empty again. */
  method DequeueAfterEnqueue<T>(x: T) returns (y: T, empty: bool)
    ensures y == x
    ensures empty
  {
    var q := new RandomizedQueue<T>();
    q.Enqueue(x);
    y := q.Dequeue();
    empty := q.Empty();
  }

  /** Draws `count` samples from a non-empty queue: each is an element of the
      queue, and the queue is unchanged throughout (no `modifies` clause). */
  method SampleMany<T>(q: RandomizedQueue<T>, count: nat) returns (samples: seq<T>)
    requires q.Valid() && q.Size() > 0
    ensures |samples| == count
    ensures forall s :: s in samples ==> s in q.Elements()
  {
    samples := [];
    while |samples| < count
      invariant |samples| <= count
      invariant forall s :: s in samples ==> s in q.Elements()
    {
      var s := q.Sample();
      samples := samples + [s];
    }
  }

  /** A new queue holding `a`, `b` and `c`. */
  method EnqueueThree<T>(a: T, b: T, c: T) returns (q: RandomizedQueue<T>)
    ensures fresh(q) && q.Valid()
    ensures q.Size() == 3 && q.Elements() == multiset{a, b, c}
  {
    q := new RandomizedQueue<T>();
    q.Enqueue(a);
    q.Enqueue(b);
    q.Enqueue(c);
    assert q.data == [a, b, c];
  }

  /** Enqueue 1, 2, 3; dequeue one of them; enqueue 4; traverse: the sizes
      along the way are 3, 2 and 3, and the traversal yields the four values
      without the one dequeued. */
  method Scenario() returns (s0: nat, removed: int, s1: nat, s2: nat, visited: seq<int>)
    ensures s0 == 3 && s1 == 2 && s2 == 3
    ensures removed in multiset{1, 2, 3}
    ensures multiset(visited) + multiset{removed} == multiset{1, 2, 3, 4}
  {
    var q := EnqueueThree(1, 2, 3);
    ghost var start := q.Elements();
    s0 := q.Size();
    removed := q.Dequeue();
    s1 := q.Size();
    ghost var rest := q.Elements();
    q.Enqueue(4);
    s2 := q.Size();
    visited := Traverse(q);
    ReplaceOne(start, rest, removed, 4, multiset(visited));
  }

  /** Taking `r` out of `m` and putting `x` in gives `v`: then `v` with `r` is `m` with `x`. */
  lemma ReplaceOne<X>(m: multiset<X>, rest: multiset<X>, r: X, x: X, v: multiset<X>)
    requires rest + multiset{r} == m && v == rest + multiset{x}
    ensures v + multiset{r} == m + multiset{x}
  {
  }
}
