/** The in-place min-heap of bucket indices behind `assignWeightedPartitions`. */
module PartitionHeap {
  import opened Makespan

  /** A test file, by its repository-relative path. */
  datatype TestFile = TestFile(path: string)

  /** A partition under construction. */
  class Bucket {
    var sum: real
    var files: seq<TestFile>

    constructor ()
      ensures sum == 0.0 && files == []
    {
      sum, files := 0.0, [];
    }

    ghost function HeapKey(): Key
      reads this
    {
      Key(sum, |files|)
    }
  }

  ghost function Keys(buckets: seq<Bucket>): (keys: seq<Key>)
    reads buckets
    ensures |keys| == |buckets|
    ensures forall b :: 0 <= b < |buckets| ==> keys[b] == buckets[b].HeapKey()
  {
    seq(|buckets|, b requires 0 <= b < |buckets| reads buckets => buckets[b].HeapKey())
  }

  /** `heap` lists each of the indices 0..n once. */
  ghost predicate Permutation(heap: seq<nat>, n: nat) {
    && |heap| == n
    && (forall i :: 0 <= i < n ==> heap[i] < n)
    && (forall i, j :: 0 <= i < j < n ==> heap[i] != heap[j])
    && (forall b :: 0 <= b < n ==> b in heap)
  }

  ghost predicate InOrder(keys: seq<Key>, heap: seq<nat>, parent: nat, child: nat)
    requires Permutation(heap, |keys|) && parent < |heap| && child < |heap|
  {
    !KeyLess(keys[heap[child]], keys[heap[parent]])
  }

  function Parent(child: nat): nat
    requires child >= 1
  {
    (child - 1) / 2
  }

  lemma Children(c: nat)
    requires c >= 1
    ensures c == 2 * Parent(c) + 1 || c == 2 * Parent(c) + 2
  {
  }

  /** Every position is at least its parent. */
  ghost predicate HeapOrdered(keys: seq<Key>, heap: seq<nat>)
    requires Permutation(heap, |keys|)
  {
    forall c :: 1 <= c < |heap| ==> InOrder(keys, heap, Parent(c), c)
  }

  /** Heap order, except that position `hole` may be above its children. */
  ghost predicate HeapOrderedExcept(keys: seq<Key>, heap: seq<nat>, hole: nat)
    requires Permutation(heap, |keys|)
  {
    && (forall c :: 1 <= c < |heap| && Parent(c) != hole ==> InOrder(keys, heap, Parent(c), c))
    && (forall c :: 1 <= c < |heap| && Parent(c) == hole && 1 <= hole ==> InOrder(keys, heap, Parent(hole), c))
  }

  /** The children of `hole` are no lighter than the bucket at position `p`. */
  ghost predicate BelowChildren(keys: seq<Key>, heap: seq<nat>, hole: nat, p: nat)
    requires Permutation(heap, |keys|) && p < |heap|
  {
    forall c :: 1 <= c < |heap| && Parent(c) == hole ==> InOrder(keys, heap, p, c)
  }

  /** The root of an ordered heap is a lightest bucket. */
  lemma {:induction false} RootIsLeast(keys: seq<Key>, heap: seq<nat>, i: nat)
    requires Permutation(heap, |keys|) && HeapOrdered(keys, heap) && i < |heap|
    ensures !KeyLess(keys[heap[i]], keys[heap[0]])
  {
    if i > 0 {
      RootIsLeast(keys, heap, Parent(i));
      assert InOrder(keys, heap, Parent(i), i);
    }
  }

  lemma SwapKeepsPermutation(heap: seq<nat>, n: nat, i: nat, j: nat)
    requires Permutation(heap, n) && i < n && j < n
    ensures Permutation(heap[i := heap[j]][j := heap[i]], n)
  {
    var swapped := heap[i := heap[j]][j := heap[i]];
    forall b | 0 <= b < n ensures b in swapped {
      assert b in heap;
      var k :| 0 <= k < |heap| && heap[k] == b;
      assert swapped[if k == i then j else if k == j then i else k] == b;
    }
  }

  /** Exchanging the hole with its smaller child moves the hole down. */
  lemma SwapMovesHole(keys: seq<Key>, heap: seq<nat>, hole: nat, child: nat)
    requires Permutation(heap, |keys|) && HeapOrderedExcept(keys, heap, hole)
    requires 1 <= child < |heap| && Parent(child) == hole && hole < child
    requires KeyLess(keys[heap[child]], keys[heap[hole]])
    requires BelowChildren(keys, heap, hole, child)
    ensures var swapped := heap[hole := heap[child]][child := heap[hole]];
            Permutation(swapped, |keys|) && HeapOrderedExcept(keys, swapped, child)
  {
    var swapped := heap[hole := heap[child]][child := heap[hole]];
    SwapKeepsPermutation(heap, |keys|, hole, child);
    forall c | 1 <= c < |heap| && Parent(c) != child ensures InOrder(keys, swapped, Parent(c), c) {
      if c == hole {
        assert InOrder(keys, heap, Parent(hole), child);
      } else if Parent(c) == hole {
        assert InOrder(keys, heap, child, c);
      } else {
        assert InOrder(keys, heap, Parent(c), c);
      }
    }
    forall c | 1 <= c < |heap| && Parent(c) == child ensures InOrder(keys, swapped, Parent(child), c) {
      assert InOrder(keys, heap, Parent(c), c);
    }
  }

  /** A hole that is no heavier than its children closes. */
  lemma HoleCloses(keys: seq<Key>, heap: seq<nat>, hole: nat)
    requires Permutation(heap, |keys|) && HeapOrderedExcept(keys, heap, hole)
    requires hole < |heap| && BelowChildren(keys, heap, hole, hole)
    ensures HeapOrdered(keys, heap)
  {
    forall c | 1 <= c < |heap| ensures InOrder(keys, heap, Parent(c), c) {
      if Parent(c) == hole {
        assert InOrder(keys, heap, hole, c);
      }
    }
  }

  /** `null` beyond the end of the heap. */
  function BucketAt(buckets: seq<Bucket>, heap: array<nat>, index: nat): Bucket?
    reads heap
  {
    if index < heap.Length && heap[index] < |buckets| then buckets[heap[index]] else null
  }

  /** The lighter bucket is less; of two equally heavy ones, that with fewer files; an absent bucket is never less. */
  predicate BucketLess(left: Bucket?, right: Bucket?)
    reads left, right
  {
    if left == null || right == null then left != null
    else if left.sum != right.sum then left.sum < right.sum
    else |left.files| < |right.files|
  }

  /** The position of the lightest bucket among `index` and its children; `index` itself on a tie. */
  method LightestPosition(buckets: seq<Bucket>, heap: array<nat>, index: nat) returns (smallest: nat)
    requires Permutation(heap[..], |buckets|) && index < heap.Length
    ensures smallest < heap.Length
    ensures BelowChildren(Keys(buckets), heap[..], index, smallest)
    ensures smallest != index ==>
              && smallest > index && Parent(smallest) == index
              && KeyLess(Keys(buckets)[heap[smallest]], Keys(buckets)[heap[index]])
  {
    var size := heap.Length;
    var left, right := 2 * index + 1, 2 * index + 2;
    smallest := index;
    var smallestBucket := BucketAt(buckets, heap, index);
    var leftBucket := if left < size then BucketAt(buckets, heap, left) else null;
    var rightBucket := if right < size then BucketAt(buckets, heap, right) else null;
    if leftBucket != null && smallestBucket != null && BucketLess(leftBucket, smallestBucket) {
      smallest, smallestBucket := left, leftBucket;
    }
    if rightBucket != null && smallestBucket != null && BucketLess(rightBucket, smallestBucket) {
      smallest := right;
    }
    forall c | 1 <= c < size && Parent(c) == index ensures InOrder(Keys(buckets), heap[..], smallest, c) {
      Children(c);
    }
  }

  /** Restore the heap order after the bucket at `start` grew heavier. */
  method SiftDown(buckets: seq<Bucket>, heap: array<nat>, start: nat)
    requires Permutation(heap[..], |buckets|) && start < heap.Length
    requires HeapOrderedExcept(Keys(buckets), heap[..], start)
    modifies heap
    ensures Permutation(heap[..], |buckets|)
    ensures HeapOrdered(Keys(buckets), heap[..])
  {
    var index := start;
    ghost var keys := Keys(buckets);
    while true
      invariant index < heap.Length && keys == Keys(buckets)
      invariant Permutation(heap[..], |buckets|) && HeapOrderedExcept(keys, heap[..], index)
      decreases heap.Length - index
    {
      var smallest := LightestPosition(buckets, heap, index);
      if smallest == index {
        HoleCloses(keys, heap[..], index);
        return;
      }
      ghost var before := heap[..];
      heap[index], heap[smallest] := heap[smallest], heap[index];
      assert heap[..] == before[index := before[smallest]][smallest := before[index]];
      SwapMovesHole(keys, before, index, smallest);
      index := smallest;
    }
  }
}
