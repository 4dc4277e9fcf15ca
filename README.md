# Randomized queue

A model of `randomized_queue<T>`, a generic in-memory container backed by a
single growable vector. It supports:

- `enqueue`, which appends an element;
- `dequeue`, which removes a randomly chosen element and returns it, using
  swap-with-last then pop;
- `sample`, which returns a randomly chosen element without removing it;
- `empty` and `size`;
- traversal through `begin()`/`end()` in a freshly shuffled order each time.

Files:

- `randomized_queue.dfy` (module `RandomizedQueues`) holds two classes and
  the `Traverse` method:
  - `RandomizedQueue<T>` has fields `data` (the vector `m_data`) and
    `distribution` (the `mutable` uniform distribution). Its ghost view
    `Elements()` is the multiset of stored elements, because the order in
    the store means nothing.
  - `RandomIterator<T>` holds a back-reference to the store, the size `n`
    fixed at creation, a permutation array of length `n + 1` and a cursor.
    Slot `n` of the array is the sentinel `n`, which the end iterator
    points at.
  - `Traverse` is the range-based `for` a caller writes over `begin()`/`end()`.
- `permutations.dfy` (module `Permutations`) defines index permutations and
  proves two facts about them:
  - a permutation visits every index exactly once;
  - reading a sequence through a permutation yields its multiset.
- `clients.dfy` (module `Clients`) holds callers that use only the public
  interface. They check the testable behaviour: sizes after enqueues,
  dequeue right after one enqueue, repeated sampling, and the
  enqueue 1, 2, 3 / dequeue / enqueue 4 / traverse scenario.

Randomness is a nondeterministic choice (`:|`) within the range the source
allows:

- a draw of `get_random_index()` is any value of the current
  distribution's range;
- a Fisher-Yates swap partner is any index up to the current position.

Every contract holds whatever those choices turn out to be.

The header declares the members. Their bodies are in
`randomized_queue.tpp`, which is not part of this model. So the bodies here
follow the declared interface and usual container behaviour:

- `get_distribution()` yields `[0, size() - 1]`, computed in `std::size_t`.
  On an empty queue that wraps to `[0, SIZE_MAX]`, which is also the
  default-constructed distribution.
- `enqueue` and `dequeue` refresh the distribution after changing the store.
- `dequeue` swaps the drawn element with the last one and pops it.
- An iterator shuffles `0..n-1` and appends the sentinel `n`.
- Two iterators are equal when they resolve to the same offset of the same
  store. The cursor is not compared.

## Model

| member | source | states |
|---|---|---|
| `RandomizedQueues.RandomizedQueue.constructor` | include/randomized_queue.h:14 | a new queue is empty, and its default distribution is consistent with the empty store |
| `RandomizedQueues.RandomizedQueue.Size` | include/randomized_queue.h:25 | `size()` is the number of elements held (the cardinality of the multiset) |
| `RandomizedQueues.RandomizedQueue.Empty` | include/randomized_queue.h:24 | `empty()` holds exactly when `size() == 0`, exactly when nothing is held |
| `RandomizedQueues.RandomizedQueue.GetDistribution` | include/randomized_queue.h:33 | on a non-empty queue the distribution can yield exactly the valid indices; on an empty one, `size() - 1` wraps and the range is `[0, SIZE_MAX]` |
| `RandomizedQueues.RandomizedQueue.GetRandomIndex` | include/randomized_queue.h:34-37 | the index lies in the distribution's range and is a valid index whenever the queue is non-empty |
| `RandomizedQueues.RandomizedQueue.Enqueue` | include/randomized_queue.h:27-28 | the store becomes the old store with `x` appended, the multiset gains exactly `x`, the size grows by one, and the distribution tracks the new size |
| `RandomizedQueues.RandomizedQueue.Sample` | include/randomized_queue.h:29 | on a non-empty queue the result is an element of the queue; like `const`, the method may change nothing |
| `RandomizedQueues.RandomizedQueue.Dequeue` | include/randomized_queue.h:30 | on a non-empty queue, returns an element that was held; the new multiset is the old one minus it; size drops by one; the new store is the old one after swap-with-last-and-pop at some index |
| `RandomizedQueues.SwapRemove` | include/randomized_queue.h:30 | swap-with-last-and-pop shortens the store by one |
| `RandomizedQueues.SwapRemoveElements` | include/randomized_queue.h:30 | swap-with-last-and-pop removes exactly the chosen element (multiset), moves the last element into its slot and leaves every other slot as it was |
| `RandomizedQueues.RandomizedQueue.Begin` | include/randomized_queue.h:17 | `begin()` is a fresh iterator over this store, with `n = size()` and the cursor at the first slot |
| `RandomizedQueues.RandomizedQueue.End` | include/randomized_queue.h:18 | `end()` is a fresh iterator over this store, with `n = size()` and the cursor at the sentinel slot `n` |
| `RandomizedQueues.RandomIterator.constructor` | include/randomized_queue.h:7-8 | the iterator snapshots `n = size()`, holds a permutation of `0..n-1` followed by the sentinel `n`, and starts at slot 0 or at the sentinel |
| `RandomizedQueues.IndexArray` | include/randomized_queue.h:17-18 | the permutation array starts as the indices in order |
| `RandomizedQueues.SwapEntries` | include/randomized_queue.h:17-18 | one shuffle step exchanges two entries and keeps a permutation a permutation |
| `RandomizedQueues.ShuffledIndices` | include/randomized_queue.h:17-18 | after the Fisher-Yates shuffle, slots `0..n-1` are a permutation of the indices and slot `n` holds the sentinel |
| `RandomizedQueues.RandomIterator.Position` | include/randomized_queue.h:7-8 | the offset an iterator resolves to is at most `n`, and equals the sentinel `n` exactly when the cursor is at the end |
| `RandomizedQueues.RandomIterator.Get` | include/randomized_queue.h:10-11 | `*it` is the store element at the iterator's position, hence an element of the queue |
| `RandomizedQueues.RandomIterator.Assign` | include/randomized_queue.h:10 | writing through a mutable iterator replaces exactly the element at its position and keeps the queue consistent |
| `RandomizedQueues.RandomIterator.Next` | include/randomized_queue.h:7-8 | `++it` advances the cursor by one and keeps the iterator valid |
| `RandomizedQueues.EqualsEnd` | include/randomized_queue.h:17-18 | although equality compares only positions, an iterator equals an `end()` of the same store exactly when its cursor is at the end |
| `RandomizedQueues.Traverse` | include/randomized_queue.h:17-22 | a loop from `begin()` until it equals `end()` ends, reads every slot exactly once in permutation order, yields the queue's multiset and leaves the queue unchanged |
| `Permutations.PermutationFacts` | include/randomized_queue.h:17-18 | a permutation of `0..n-1` has length `n`, repeats no index and omits none |
| `Permutations.SwapPermutation` | include/randomized_queue.h:17-18 | exchanging two entries of a permutation leaves a permutation |
| `Permutations.GatherElements` | include/randomized_queue.h:17-18 | reading a store through a permutation of its indices yields each element as often as the store holds it |
| `Clients.EnqueueAll` | include/randomized_queue.h:25-28 | after `k` enqueues into a new queue, `size()` is `k` and a traversal yields exactly the enqueued elements |
| `Clients.DequeueAfterEnqueue` | include/randomized_queue.h:24-30 | `dequeue()` right after `enqueue(x)` on an empty queue returns `x` and empties the queue |
| `Clients.SampleMany` | include/randomized_queue.h:29 | any number of `sample()` calls on a non-empty queue each return an element of the queue and leave the queue unchanged |
| `Clients.Scenario` | include/randomized_queue.h:17-30 | enqueue 1, 2, 3 gives size 3; dequeue returns one of them and gives size 2; enqueue 4 gives size 3; a traversal yields the remaining three values |

## Left out

- The body file `randomized_queue.tpp` is not part of this model. The
  behaviour listed above is what the model assumes for it.
- The Mersenne Twister generator seeded from `std::random_device`
  (include/randomized_queue.h:36) is not modelled. Neither is the
  statistical uniformity of `dequeue`, `sample` and the shuffle. Both are
  foreign library behaviour that cannot be verified; every draw is a
  nondeterministic choice within its range.
- The move constructor (include/randomized_queue.h:15) is not modelled.
  Ownership transfer has no counterpart in a model whose store is a value.
- The copy and move overloads of `enqueue` are one method: over values they
  behave alike.
- The `const` iterator variants are not separate members. Those are
  `begin() const`, `end() const`, `cbegin` and `cend`
  (include/randomized_queue.h:19-22). Each builds the same iterator as
  `Begin`/`End`, minus the write-through of `Assign`. The conversion from
  mutable to const iterator is type plumbing.
- Iterator invalidation by reallocation is modelled only in part.
  Dereferencing requires the store's size to still equal `n`. So the model
  would accept an old iterator after an enqueue followed by a dequeue, which
  the source leaves undefined.
- Allocation failure while the vector grows is not modelled, and neither is
  the cap of `SIZE_MAX` elements. Sizes are unbounded.
- Address-based equality of iterators over different stores is reduced to
  comparing the store and the offset.
- Two non-end iterators with different permutations can compare equal
  mid-traversal, because equality compares only positions; the model keeps
  that behaviour. Only comparison against `end()` is proved to act like a
  cursor comparison.
- `Sample`, `Traverse`, `SampleMany`: "the queue is unchanged" is stated by
  their having no `modifies` clause (Dafny then forbids any change), not by
  an explicit `ensures`.
- src/subset.cpp is not modelled. It copies the first `k` lines of a stream
  and never uses the queue.
