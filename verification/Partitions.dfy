/**
 Weighted assignment of test files to coverage partitions: the longest-processing-time
 loop over the bucket heap, and what it promises about the partitions it returns.
 */
module Partitions {
  import opened Makespan
  import opened Outcomes
  import opened PartitionHeap
  import opened Sorting

  /** Weight of a file with no recorded duration. */
  const UNKNOWN_FILE_WEIGHT := 1.0

  datatype Weighted = Weighted(file: TestFile, weight: real)

  datatype AssignmentError = HeapIndexOutOfBounds

  function WeightOf(weights: map<TestFile, real>, file: TestFile): real {
    if file in weights then weights[file] else UNKNOWN_FILE_WEIGHT
  }

  function Weigh(files: seq<TestFile>, weights: map<TestFile, real>): (weighted: seq<Weighted>)
    ensures |weighted| == |files|
  {
    seq(|files|, i requires 0 <= i < |files| => Weighted(files[i], WeightOf(weights, files[i])))
  }

  /** Heavier first; equal weights by name, in the collation order `nameAtMost`. */
  predicate HeavierFirst(nameAtMost: (TestFile, TestFile) -> bool, x: Weighted, y: Weighted) {
    x.weight > y.weight || (x.weight == y.weight && nameAtMost(x.file, y.file))
  }

  function PlacementOrder(files: seq<TestFile>, weights: map<TestFile, real>, nameAtMost: (TestFile, TestFile) -> bool)
    : (order: seq<Weighted>)
    ensures |order| == |files|
  {
    SortPermutes(Weigh(files, weights), (x, y) => HeavierFirst(nameAtMost, x, y));
    StableSort(Weigh(files, weights), (x, y) => HeavierFirst(nameAtMost, x, y))
  }

  function Names(order: seq<Weighted>): (names: seq<TestFile>)
    ensures |names| == |order|
  {
    seq(|order|, i requires 0 <= i < |order| => order[i].file)
  }

  function Weights(order: seq<Weighted>): (ws: seq<real>)
    ensures |ws| == |order|
  {
    seq(|order|, i requires 0 <= i < |order| => order[i].weight)
  }

  /** What a partition is expected to take: the recorded duration of each file, and one where none is recorded. */
  function PartitionWeight(files: seq<TestFile>, weights: map<TestFile, real>): real {
    if files == [] then 0.0
    else PartitionWeight(files[..|files| - 1], weights) + WeightOf(weights, files[|files| - 1])
  }

  /** The files that assignment `a` puts into bucket `b`, in placement order. */
  ghost function FilesOf(names: seq<TestFile>, a: Assignment, b: nat): seq<TestFile>
    requires |names| == |a|
  {
    if names == [] then []
    else
      var n := |names| - 1;
      FilesOf(names[..n], a[..n], b) + (if a[n] == b then [names[n]] else [])
  }

  /** `buckets` come from placing the heaviest remaining file into a lightest bucket, over and over. */
  ghost predicate PlacedBy(order: seq<Weighted>, picks: Assignment, buckets: seq<seq<TestFile>>) {
    && |picks| == |order|
    && Greedy(Weights(order), picks, |buckets|)
    && forall b :: 0 <= b < |buckets| ==> buckets[b] == FilesOf(Names(order), picks, b)
  }

  ghost predicate LongestFirst(files: seq<TestFile>, weights: map<TestFile, real>,
                               nameAtMost: (TestFile, TestFile) -> bool, buckets: seq<seq<TestFile>>) {
    exists picks :: PlacedBy(PlacementOrder(files, weights, nameAtMost), picks, buckets)
  }

  // ---------------------------------------------------------------- the loop over the heap

  ghost predicate Distinct(buckets: seq<Bucket>) {
    forall b, c :: 0 <= b < c < |buckets| ==> buckets[b] != buckets[c]
  }

  /** The buckets hold what the picks so far put into them. */
  ghost predicate Holds(buckets: seq<Bucket>, order: seq<Weighted>, picks: Assignment)
    requires |picks| == |order|
    reads buckets
  {
    forall b :: 0 <= b < |buckets| ==>
      && buckets[b].sum == LoadOf(Weights(order), picks, b)
      && buckets[b].files == FilesOf(Names(order), picks, b)
  }

  lemma {:induction false} CountIsLength(names: seq<TestFile>, a: Assignment, b: nat)
    requires |names| == |a|
    ensures |FilesOf(names, a, b)| == CountOf(a, b)
  {
    if names != [] {
      CountIsLength(names[..|a| - 1], a[..|a| - 1], b);
    }
  }

  /** While the heap is in order, its root is a lightest bucket. */
  lemma RootIsLightest(buckets: seq<Bucket>, heap: seq<nat>, order: seq<Weighted>, picks: Assignment)
    requires |picks| == |order| && Holds(buckets, order, picks)
    requires Permutation(heap, |buckets|) && HeapOrdered(Keys(buckets), heap) && heap != []
    ensures Lightest(Weights(order), picks, |buckets|, heap[0])
  {
    var keys := Keys(buckets);
    forall c | 0 <= c < |buckets|
      ensures !KeyLess(KeyOf(Weights(order), picks, c), KeyOf(Weights(order), picks, heap[0]))
    {
      assert c in heap;
      var i :| 0 <= i < |heap| && heap[i] == c;
      RootIsLeast(keys, heap, i);
      CountIsLength(Names(order), picks, c);
      CountIsLength(Names(order), picks, heap[0]);
    }
  }

  /** Growing the bucket at the root leaves a heap whose only hole is the root. */
  lemma RootBecomesHole(before: seq<Key>, after: seq<Key>, heap: seq<nat>)
    requires |before| == |after| && heap != [] && Permutation(heap, |before|) && HeapOrdered(before, heap)
    requires forall b :: 0 <= b < |before| && b != heap[0] ==> after[b] == before[b]
    ensures HeapOrderedExcept(after, heap, 0)
  {
    forall c | 1 <= c < |heap| && Parent(c) != 0 ensures InOrder(after, heap, Parent(c), c) {
      assert InOrder(before, heap, Parent(c), c);
    }
  }

  method EmptyBuckets(partitions: nat) returns (buckets: seq<Bucket>)
    ensures |buckets| == partitions && Distinct(buckets)
    ensures forall b :: 0 <= b < partitions ==> fresh(buckets[b]) && buckets[b].sum == 0.0 && buckets[b].files == []
  {
    buckets := [];
    while |buckets| < partitions
      invariant |buckets| <= partitions && Distinct(buckets)
      invariant forall b :: 0 <= b < |buckets| ==> fresh(buckets[b]) && buckets[b].sum == 0.0 && buckets[b].files == []
    {
      var bucket := new Bucket();
      buckets := buckets + [bucket];
    }
  }

  lemma OrderSnoc(placed: seq<Weighted>, item: Weighted)
    ensures Weights(placed + [item]) == Weights(placed) + [item.weight]
    ensures Names(placed + [item]) == Names(placed) + [item.file]
  {
  }

  lemma HoldsSnoc(buckets: seq<Bucket>, placed: seq<Weighted>, picks: Assignment, item: Weighted, pick: nat)
    requires |picks| == |placed| && pick < |buckets|
    requires forall b :: 0 <= b < |buckets| ==>
      && buckets[b].sum == LoadOf(Weights(placed), picks, b) + (if b == pick then item.weight else 0.0)
      && buckets[b].files == FilesOf(Names(placed), picks, b) + (if b == pick then [item.file] else [])
    ensures Holds(buckets, placed + [item], picks + [pick])
  {
    OrderSnoc(placed, item);
    var ws, names, a := Weights(placed) + [item.weight], Names(placed) + [item.file], picks + [pick];
    assert ws[..|placed|] == Weights(placed) && names[..|placed|] == Names(placed) && a[..|placed|] == picks;
  }

  /** One round of the loop: the file goes to the root's bucket and the heap is restored. */
  method Place(buckets: seq<Bucket>, heap: array<nat>, item: Weighted,
               ghost placed: seq<Weighted>, ghost picks: Assignment)
    returns (ghost pick: nat)
    requires heap.Length == |buckets| > 0 && Distinct(buckets)
    requires |picks| == |placed| && Holds(buckets, placed, picks) && Greedy(Weights(placed), picks, |buckets|)
    requires Permutation(heap[..], |buckets|) && HeapOrdered(Keys(buckets), heap[..])
    modifies heap, buckets
    ensures Greedy(Weights(placed + [item]), picks + [pick], |buckets|)
    ensures Holds(buckets, placed + [item], picks + [pick])
    ensures Permutation(heap[..], |buckets|) && HeapOrdered(Keys(buckets), heap[..])
  {
    ghost var keys := Keys(buckets);
    RootIsLightest(buckets, heap[..], placed, picks);
    var top := heap[0];
    pick := top;
    var bucket := buckets[top];
    bucket.sum := bucket.sum + item.weight;
    bucket.files := bucket.files + [item.file];
    RootBecomesHole(keys, Keys(buckets), heap[..]);
    HoldsSnoc(buckets, placed, picks, item, top);
    GreedySnoc(placed, picks, |buckets|, item, top);
    SiftDown(buckets, heap, 0);
  }

  lemma GreedySnoc(placed: seq<Weighted>, picks: Assignment, m: nat, item: Weighted, pick: nat)
    requires |picks| == |placed| && Greedy(Weights(placed), picks, m) && Lightest(Weights(placed), picks, m, pick)
    ensures Greedy(Weights(placed + [item]), picks + [pick], m)
  {
    OrderSnoc(placed, item);
    var ws, a := Weights(placed) + [item.weight], picks + [pick];
    assert ws[..|placed|] == Weights(placed) && a[..|placed|] == picks;
  }

  lemma FreshHeap(keys: seq<Key>, heap: seq<nat>)
    requires |heap| == |keys| && forall i :: 0 <= i < |heap| ==> heap[i] == i
    requires forall i :: 0 <= i < |keys| ==> keys[i] == Key(0.0, 0)
    ensures Permutation(heap, |keys|) && HeapOrdered(keys, heap)
  {
    forall b | 0 <= b < |heap| ensures b in heap {
      assert heap[b] == b;
    }
  }

  method FileLists(buckets: seq<Bucket>) returns (lists: seq<seq<TestFile>>)
    ensures |lists| == |buckets| && forall b :: 0 <= b < |buckets| ==> lists[b] == buckets[b].files
  {
    lists := seq(|buckets|, b requires 0 <= b < |buckets| reads buckets => buckets[b].files);
  }

  /** Empty buckets, under a heap of their indices. */
  method StartHeap(partitions: nat) returns (buckets: seq<Bucket>, heap: array<nat>)
    ensures |buckets| == partitions == heap.Length && fresh(buckets) && fresh(heap)
    ensures Distinct(buckets) && Holds(buckets, [], [])
    ensures Permutation(heap[..], partitions) && HeapOrdered(Keys(buckets), heap[..])
  {
    buckets := EmptyBuckets(partitions);
    heap := new nat[partitions](i => i);
    FreshHeap(Keys(buckets), heap[..]);
  }

  /** Place every file of `order`, heaviest first. */
  method PlaceAll(order: seq<Weighted>, partitions: nat) returns (buckets: seq<Bucket>, ghost picks: Assignment)
    requires partitions > 0
    ensures |buckets| == partitions && |picks| == |order|
    ensures Holds(buckets, order, picks) && Greedy(Weights(order), picks, partitions)
  {
    var heap;
    buckets, heap := StartHeap(partitions);
    picks := [];
    ghost var placed: seq<Weighted> := [];
    var n := 0;
    while n < |order|
      invariant n == |placed| == |picks| <= |order| && placed == order[..n]
      invariant heap.Length == partitions == |buckets|
      invariant Distinct(buckets) && fresh(buckets) && fresh(heap)
      invariant Holds(buckets, placed, picks) && Greedy(Weights(placed), picks, partitions)
      invariant Permutation(heap[..], partitions) && HeapOrdered(Keys(buckets), heap[..])
    {
      ghost var pick := Place(buckets, heap, order[n], placed, picks);
      placed, picks := placed + [order[n]], picks + [pick];
      n := n + 1;
    }
    assert placed == order;
  }

  method AssignWeightedPartitions(files: seq<TestFile>, weights: map<TestFile, real>, partitions: nat,
                                  nameAtMost: (TestFile, TestFile) -> bool)
    returns (r: Result<seq<seq<TestFile>>, AssignmentError>)
    ensures r.Failure? <==> files != [] && partitions == 0
    ensures r.Success? ==> |r.value| == partitions && LongestFirst(files, weights, nameAtMost, r.value)
  {
    ghost var picks: Assignment := [];
    var order := PlacementOrder(files, weights, nameAtMost);
    if files == [] {
      var lists: seq<seq<TestFile>> := seq(partitions, _ => []);
      assert PlacedBy(order, picks, lists);
      return Success(lists);
    }
    if partitions == 0 {
      return Failure(HeapIndexOutOfBounds);
    }
    var buckets;
    buckets, picks := PlaceAll(order, partitions);
    var lists := FileLists(buckets);
    assert PlacedBy(order, picks, lists);
    return Success(lists);
  }

  // ---------------------------------------------------------------- conservation

  /** All the files of some partitions, with repetitions. */
  ghost function FilesIn(buckets: seq<seq<TestFile>>): multiset<TestFile> {
    if buckets == [] then multiset{}
    else FilesIn(buckets[..|buckets| - 1]) + multiset(buckets[|buckets| - 1])
  }

  /** One for each listing of `f`: the weights whose loads count that file. */
  ghost function Listings(names: seq<TestFile>, f: TestFile): (ones: seq<real>)
    ensures |ones| == |names|
  {
    seq(|names|, i requires 0 <= i < |names| => if names[i] == f then 1.0 else 0.0)
  }

  lemma {:induction false} ListingsTotal(names: seq<TestFile>, f: TestFile)
    ensures Total(Listings(names, f)) == multiset(names)[f] as real
  {
    if names != [] {
      var n := |names| - 1;
      ListingsTotal(names[..n], f);
      assert Listings(names, f)[..n] == Listings(names[..n], f);
      assert names == names[..n] + [names[n]];
    }
  }

  lemma {:induction false} ListingsOf(names: seq<TestFile>, a: Assignment, b: nat, f: TestFile)
    requires |names| == |a|
    ensures multiset(FilesOf(names, a, b))[f] as real == LoadOf(Listings(names, f), a, b)
  {
    if names != [] {
      var n := |names| - 1;
      ListingsOf(names[..n], a[..n], b, f);
      assert Listings(names, f)[..n] == Listings(names[..n], f);
    }
  }

  lemma {:induction false} ListingsIn(names: seq<TestFile>, a: Assignment, buckets: seq<seq<TestFile>>, f: TestFile)
    requires |names| == |a|
    requires forall b :: 0 <= b < |buckets| ==> buckets[b] == FilesOf(names, a, b)
    ensures FilesIn(buckets)[f] as real == LoadsUpTo(Listings(names, f), a, |buckets|)
  {
    if buckets != [] {
      ListingsIn(names, a, buckets[..|buckets| - 1], f);
      ListingsOf(names, a, |buckets| - 1, f);
    }
  }

  lemma NamesOfSnoc(order: seq<Weighted>, x: Weighted)
    ensures multiset(Names(order + [x])) == multiset(Names(order)) + multiset{x.file}
  {
    assert Names(order + [x]) == Names(order) + [x.file];
  }

  lemma {:induction false} NamesOfInsert(order: seq<Weighted>, x: Weighted, atMost: (Weighted, Weighted) -> bool)
    ensures multiset(Names(Insert(order, x, atMost))) == multiset(Names(order)) + multiset{x.file}
  {
    if order == [] || atMost(order[|order| - 1], x) {
      NamesOfSnoc(order, x);
    } else {
      var n := |order| - 1;
      NamesOfInsert(order[..n], x, atMost);
      assert order == order[..n] + [order[n]];
      NamesOfSnoc(order[..n], order[n]);
      NamesOfSnoc(Insert(order[..n], x, atMost), order[n]);
    }
  }

  lemma {:induction false} NamesOfSort(order: seq<Weighted>, atMost: (Weighted, Weighted) -> bool)
    ensures multiset(Names(StableSort(order, atMost))) == multiset(Names(order))
  {
    if order != [] {
      var n := |order| - 1;
      NamesOfSort(order[..n], atMost);
      assert order == order[..n] + [order[n]];
      SortSnoc(order[..n], order[n], atMost);
      NamesOfInsert(StableSort(order[..n], atMost), order[n], atMost);
      NamesOfSnoc(order[..n], order[n]);
    }
  }

  lemma OrderConserves(files: seq<TestFile>, weights: map<TestFile, real>, nameAtMost: (TestFile, TestFile) -> bool)
    ensures multiset(Names(PlacementOrder(files, weights, nameAtMost))) == multiset(files)
    ensures var order := PlacementOrder(files, weights, nameAtMost);
            forall i :: 0 <= i < |order| ==> order[i].weight == WeightOf(weights, order[i].file)
  {
    var order := PlacementOrder(files, weights, nameAtMost);
    SortPermutes(Weigh(files, weights), (x, y) => HeavierFirst(nameAtMost, x, y));
    NamesOfSort(Weigh(files, weights), (x, y) => HeavierFirst(nameAtMost, x, y));
    assert Names(Weigh(files, weights)) == files;
    forall i | 0 <= i < |order| ensures order[i].weight == WeightOf(weights, order[i].file) {
      assert order[i] in multiset(Weigh(files, weights));
    }
  }

  /** Every file lands in exactly one partition, as often as it was listed. */
  lemma AssignmentConserves(files: seq<TestFile>, weights: map<TestFile, real>,
                            nameAtMost: (TestFile, TestFile) -> bool, buckets: seq<seq<TestFile>>)
    requires LongestFirst(files, weights, nameAtMost, buckets)
    ensures FilesIn(buckets) == multiset(files)
  {
    var order := PlacementOrder(files, weights, nameAtMost);
    var picks :| PlacedBy(order, picks, buckets);
    GreedyInto(Weights(order), picks, |buckets|);
    forall f: TestFile ensures FilesIn(buckets)[f] == multiset(Names(order))[f] {
      ListingsIn(Names(order), picks, buckets, f);
      LoadsTotal(Listings(Names(order), f), picks, |buckets|);
      ListingsTotal(Names(order), f);
    }
    OrderConserves(files, weights, nameAtMost);
  }

  // ---------------------------------------------------------------- quality of the split

  lemma OrderDescends(files: seq<TestFile>, weights: map<TestFile, real>, nameAtMost: (TestFile, TestFile) -> bool)
    requires TotalPreorder(nameAtMost)
    ensures Descending(Weights(PlacementOrder(files, weights, nameAtMost)))
  {
    var atMost := (x, y) => HeavierFirst(nameAtMost, x, y);
    assert TotalPreorder(atMost);
    SortSorts(Weigh(files, weights), atMost);
    var order := PlacementOrder(files, weights, nameAtMost);
    assert SortedBy(order, atMost);
    forall i, j | 0 <= i < j < |order| ensures Weights(order)[i] >= Weights(order)[j] {
      assert atMost(order[i], order[j]);
    }
  }

  lemma {:induction false} WeightOfConcat(fs: seq<TestFile>, gs: seq<TestFile>, weights: map<TestFile, real>)
    ensures PartitionWeight(fs + gs, weights) == PartitionWeight(fs, weights) + PartitionWeight(gs, weights)
  {
    if gs == [] {
      assert fs + gs == fs;
    } else {
      var n := |gs| - 1;
      WeightOfConcat(fs, gs[..n], weights);
      assert (fs + gs)[..|fs + gs| - 1] == fs + gs[..n];
    }
  }

  lemma WeightWithout(fs: seq<TestFile>, i: nat, weights: map<TestFile, real>)
    requires i < |fs|
    ensures PartitionWeight(fs, weights) ==
            PartitionWeight(fs[..i] + fs[i + 1..], weights) + WeightOf(weights, fs[i])
  {
    var front := fs[..i + 1];
    assert fs == front + fs[i + 1..] && front[..i] == fs[..i];
    WeightOfConcat(front, fs[i + 1..], weights);
    WeightOfConcat(fs[..i], fs[i + 1..], weights);
  }

  lemma WeightSnoc(fs: seq<TestFile>, file: TestFile, weights: map<TestFile, real>)
    ensures PartitionWeight(fs + [file], weights) == PartitionWeight(fs, weights) + WeightOf(weights, file)
  {
    assert (fs + [file])[..|fs|] == fs;
  }

  lemma {:induction false} WeightIsLoad(order: seq<Weighted>, weights: map<TestFile, real>, a: Assignment, b: nat)
    requires |a| == |order|
    requires forall i :: 0 <= i < |order| ==> order[i].weight == WeightOf(weights, order[i].file)
    ensures PartitionWeight(FilesOf(Names(order), a, b), weights) == LoadOf(Weights(order), a, b)
  {
    if order != [] {
      var n := |order| - 1;
      WeightIsLoad(order[..n], weights, a[..n], b);
      assert Names(order)[..n] == Names(order[..n]) && Weights(order)[..n] == Weights(order[..n]);
      var rest := FilesOf(Names(order[..n]), a[..n], b);
      WeightSnoc(rest, order[n].file, weights);
      assert FilesOf(Names(order), a, b) == if a[n] == b then rest + [order[n].file] else rest;
    }
  }

  lemma TakeOut(fs: seq<TestFile>, i: nat)
    requires i < |fs|
    ensures multiset(fs) == multiset(fs[..i] + fs[i + 1..]) + multiset{fs[i]}
  {
    assert fs == fs[..i] + [fs[i]] + fs[i + 1..];
  }

  /** `rest` is `other` without one listing of `file`. */
  ghost predicate Without(other: seq<seq<TestFile>>, file: TestFile, rest: seq<seq<TestFile>>) {
    forall f :: FilesIn(other)[f] == FilesIn(rest)[f] + (if f == file then 1 else 0)
  }

  lemma WithoutInLast(front: seq<seq<TestFile>>, last: seq<TestFile>, i: nat)
    requires i < |last|
    ensures Without(front + [last], last[i], front + [last[..i] + last[i + 1..]])
  {
    TakeOut(last, i);
    assert (front + [last])[..|front|] == front;
    assert (front + [last[..i] + last[i + 1..]])[..|front|] == front;
  }

  lemma WithoutInFront(front: seq<seq<TestFile>>, last: seq<TestFile>, file: TestFile, rest: seq<seq<TestFile>>)
    requires Without(front, file, rest)
    ensures Without(front + [last], file, rest + [last])
  {
    assert (front + [last])[..|front|] == front;
    assert (rest + [last])[..|rest|] == rest;
  }

  /** Taking one occurrence of a file out of a split. */
  lemma {:induction false} RemoveOne(other: seq<seq<TestFile>>, file: TestFile)
    returns (b: nat, i: nat, rest: seq<seq<TestFile>>)
    requires file in FilesIn(other)
    ensures b < |other| && i < |other[b]| && other[b][i] == file
    ensures rest == other[b := other[b][..i] + other[b][i + 1..]]
    ensures Without(other, file, rest)
  {
    var n := |other| - 1;
    assert other == other[..n] + [other[n]];
    if file in other[n] {
      b := n;
      i :| 0 <= i < |other[n]| && other[n][i] == file;
      rest := other[..n] + [other[n][..i] + other[n][i + 1..]];
      WithoutInLast(other[..n], other[n], i);
    } else {
      var front;
      b, i, front := RemoveOne(other[..n], file);
      rest := front + [other[n]];
      WithoutInFront(other[..n], other[n], file, front);
    }
  }

  /** Any other split of the same files is an assignment of the same weights. */
  lemma {:induction false} CompetitorAssignment(
    order: seq<Weighted>, weights: map<TestFile, real>, other: seq<seq<TestFile>>)
    returns (o: Assignment)
    requires forall i :: 0 <= i < |order| ==> order[i].weight == WeightOf(weights, order[i].file)
    requires forall f :: FilesIn(other)[f] == multiset(Names(order))[f]
    ensures |o| == |order| && Into(o, |other|)
    ensures forall b :: 0 <= b < |other| ==> LoadOf(Weights(order), o, b) == PartitionWeight(other[b], weights)
  {
    if order == [] {
      o := [];
      forall b | 0 <= b < |other| ensures other[b] == [] {
        NothingIn(other, b);
      }
    } else {
      var n := |order| - 1;
      var file := order[n].file;
      assert Names(order) == Names(order[..n]) + [file];
      assert multiset(Names(order))[file] > 0;
      var b, i, rest := RemoveOne(other, file);
      var front := CompetitorAssignment(order[..n], weights, rest);
      o := AssignLast(order, weights, other, b, i, front);
    }
  }

  /** Put the file taken out of `other[b]` back. */
  lemma AssignLast(order: seq<Weighted>, weights: map<TestFile, real>, other: seq<seq<TestFile>>,
                   b: nat, i: nat, front: Assignment)
    returns (o: Assignment)
    requires |order| == |front| + 1 && Into(front, |other|) && b < |other| && i < |other[b]|
    requires order[|front|] == Weighted(other[b][i], WeightOf(weights, other[b][i]))
    requires var rest := other[b := other[b][..i] + other[b][i + 1..]];
             forall c :: 0 <= c < |other| ==>
               LoadOf(Weights(order[..|front|]), front, c) == PartitionWeight(rest[c], weights)
    ensures |o| == |order| && Into(o, |other|)
    ensures forall c :: 0 <= c < |other| ==> LoadOf(Weights(order), o, c) == PartitionWeight(other[c], weights)
  {
    o := front + [b];
    var n := |front|;
    assert o[..n] == front && Weights(order)[..n] == Weights(order[..n]);
    WeightWithout(other[b], i, weights);
  }

  lemma {:induction false} NothingIn(other: seq<seq<TestFile>>, b: nat)
    requires b < |other| && forall f :: FilesIn(other)[f] == 0
    ensures other[b] == []
  {
    var n := |other| - 1;
    assert FilesIn(other) == multiset{};
    assert multiset(other[n]) <= FilesIn(other);
    assert |multiset(other[n])| == |other[n]|;
    if b < n {
      NothingIn(other[..n], b);
    }
  }

  /** `load` is at most 4/3 - 1/(3m) times `t`, and so at most 2 - 1/m times `t`. */
  ghost predicate WithinFourThirds(m: nat, load: real, t: real) {
    && 3.0 * m as real * load <= (4.0 * m as real - 1.0) * t
    && m as real * load <= (2.0 * m as real - 1.0) * t
  }

  lemma PartitionWithinBound(order: seq<Weighted>, weights: map<TestFile, real>, picks: Assignment,
                             buckets: seq<seq<TestFile>>, other: seq<seq<TestFile>>, t: real, b: nat)
    requires PlacedBy(order, picks, buckets) && b < |buckets|
    requires Descending(Weights(order)) && NonNegative(Weights(order))
    requires forall i :: 0 <= i < |order| ==> order[i].weight == WeightOf(weights, order[i].file)
    requires |other| == |buckets| && FilesIn(other) == multiset(Names(order))
    requires forall b :: 0 <= b < |other| ==> PartitionWeight(other[b], weights) <= t
    ensures WithinFourThirds(|buckets|, PartitionWeight(buckets[b], weights), t)
  {
    var o := CompetitorAssignment(order, weights, other);
    LoadNonNegative(Weights(order), o, b);
    LongestFirstBound(Weights(order), picks, |buckets|, o, t);
    WeightIsLoad(order, weights, picks, b);
    ProductBounds(|buckets|, PartitionWeight(buckets[b], weights), t);
  }

  /**
   The promise of longest-processing-time scheduling, for durations that are not negative:
   when some other split of the same files into as many partitions stays within `t`, no
   partition exceeds `t` by more than a third (less the share 1/(3m)).
   */
  lemma WithinFourThirdsOfAnySplit(files: seq<TestFile>, weights: map<TestFile, real>,
                                   nameAtMost: (TestFile, TestFile) -> bool, buckets: seq<seq<TestFile>>,
                                   other: seq<seq<TestFile>>, t: real, b: nat)
    requires TotalPreorder(nameAtMost) && LongestFirst(files, weights, nameAtMost, buckets)
    requires forall file :: file in files ==> WeightOf(weights, file) >= 0.0
    requires |other| == |buckets| && FilesIn(other) == multiset(files)
    requires forall c :: 0 <= c < |other| ==> PartitionWeight(other[c], weights) <= t
    requires b < |buckets|
    ensures WithinFourThirds(|buckets|, PartitionWeight(buckets[b], weights), t)
  {
    var order := PlacementOrder(files, weights, nameAtMost);
    var picks :| PlacedBy(order, picks, buckets);
    OrderConserves(files, weights, nameAtMost);
    OrderDescends(files, weights, nameAtMost);
    OrderNonNegative(files, weights, nameAtMost);
    PartitionWithinBound(order, weights, picks, buckets, other, t, b);
  }

  lemma {:induction false} PaddedFiles(first: seq<TestFile>, n: nat)
    ensures FilesIn([first] + seq(n, _ => [])) == multiset(first)
  {
    var padded := [first] + seq(n, _ => []);
    if n == 0 {
      assert padded[..0] == [];
    } else {
      PaddedFiles(first, n - 1);
      assert padded[..n] == [first] + seq(n - 1, _ => []);
    }
  }

  /** A file of weight `x` is placed before one of weight `-x`, and apart from it. */
  lemma PairPlacedApart(
    f: TestFile, g: TestFile, x: real, nameAtMost: (TestFile, TestFile) -> bool, buckets: seq<seq<TestFile>>)
    returns (b: nat)
    requires f != g && x > 0.0 && |buckets| >= 2
    requires LongestFirst([f, g], map[f := x, g := -x], nameAtMost, buckets)
    ensures b < |buckets| && buckets[b] == [f]
  {
    var weights := map[f := x, g := -x];
    var heavier := (v, w) => HeavierFirst(nameAtMost, v, w);
    var first, second := Weighted(f, x), Weighted(g, -x);
    var order := PlacementOrder([f, g], weights, nameAtMost);
    assert Weigh([f, g], weights) == [first] + [second];
    SortSnoc([first], second, heavier);
    SortSnoc([], first, heavier);
    assert [] + [first] == [first] && order == [first, second];
    var picks :| PlacedBy(order, picks, buckets);
    assert Weights(order) == [x, -x];
    PairPickedApart(x, picks, |buckets|);
    b := picks[0];
    assert Names(order) == [f, g] && picks == [picks[0], picks[1]];
    assert [f, g][..1] == [f] && picks[..1] == [b] && [f][..0] == [] && [b][..0] == [];
    assert FilesOf([f], [b], b) == [f];
  }

  lemma PairPickedApart(x: real, picks: Assignment, m: nat)
    requires x > 0.0 && m >= 2 && |picks| == 2 && Greedy([x, -x], picks, m)
    ensures picks[0] < m && picks[1] != picks[0]
  {
    var front := picks[..1];
    assert [x, -x][..1] == [x];
    var other := if picks[0] == 0 then 1 else 0;
    assert [x][..0] == [] && front[..0] == [];
    assert LoadOf([x], front, picks[0]) == x && LoadOf([x], front, other) == 0.0;
    assert Lightest([x], front, m, picks[1]);
    assert KeyLess(KeyOf([x], front, other), KeyOf([x], front, picks[0]));
  }

  /**
   Every pair of weights `x` and `-x` breaks the bound, for every number of partitions from two
   on: some partition weighs `x`, while putting both files together leaves none above zero.
   */
  lemma NegativePairBreaksBound(f: TestFile, g: TestFile, x: real, nameAtMost: (TestFile, TestFile) -> bool,
                                buckets: seq<seq<TestFile>>)
    returns (other: seq<seq<TestFile>>, b: nat)
    requires f != g && x > 0.0 && |buckets| >= 2
    requires LongestFirst([f, g], map[f := x, g := -x], nameAtMost, buckets)
    ensures |other| == |buckets| && FilesIn(other) == multiset([f, g])
    ensures forall c :: 0 <= c < |other| ==> PartitionWeight(other[c], map[f := x, g := -x]) <= 0.0
    ensures b < |buckets| && PartitionWeight(buckets[b], map[f := x, g := -x]) == x
    ensures !WithinFourThirds(|buckets|, x, 0.0)
  {
    var weights := map[f := x, g := -x];
    b := PairPlacedApart(f, g, x, nameAtMost, buckets);
    PairWeighs(f, g, x);
    other := [[f, g]] + seq(|buckets| - 1, _ => []);
    PaddedFiles([f, g], |buckets| - 1);
    forall c | 0 <= c < |other| ensures PartitionWeight(other[c], weights) <= 0.0 {
      assert c > 0 ==> other[c] == [];
    }
    PositiveProduct(|buckets| as real, x);
  }

  lemma PairWeighs(f: TestFile, g: TestFile, x: real)
    requires f != g
    ensures var weights := map[f := x, g := -x];
            PartitionWeight([f], weights) == x && PartitionWeight([f, g], weights) == 0.0
  {
    var weights := map[f := x, g := -x];
    assert [f][..0] == [] && PartitionWeight([f][..0], weights) == 0.0;
    assert WeightOf(weights, f) == x && WeightOf(weights, g) == -x;
    assert PartitionWeight([f], weights) == x;
    assert [f, g][..1] == [f] && [f, g][1] == g;
  }

  lemma PositiveProduct(m: real, x: real)
    requires m > 0.0 && x > 0.0
    ensures m * x > 0.0
  {
  }

  lemma ProductBounds(m: nat, load: real, t: real)
    requires m >= 1 && t >= 0.0 && WithinBound(m, load, t)
    ensures WithinFourThirds(m, load, t)
  {
    BoundInProducts(m, load, t);
    TwiceFromFourThirds(m as real, load, t);
  }

  lemma TwiceFromFourThirds(m: real, load: real, t: real)
    requires m >= 1.0 && t >= 0.0 && 3.0 * m * load <= (4.0 * m - 1.0) * t
    ensures m * load <= (2.0 * m - 1.0) * t
  {
    assert (m - 1.0) * t >= 0.0;
  }

  lemma OrderNonNegative(files: seq<TestFile>, weights: map<TestFile, real>, nameAtMost: (TestFile, TestFile) -> bool)
    requires forall file :: file in files ==> WeightOf(weights, file) >= 0.0
    ensures NonNegative(Weights(PlacementOrder(files, weights, nameAtMost)))
  {
    var order := PlacementOrder(files, weights, nameAtMost);
    OrderConserves(files, weights, nameAtMost);
    forall i | 0 <= i < |order| ensures order[i].weight >= 0.0 {
      assert Names(order)[i] in multiset(files);
    }
  }

  /** Heavier files are placed first, and equally heavy ones in the order of their names. */
  lemma PlacedInOrder(files: seq<TestFile>, weights: map<TestFile, real>, nameAtMost: (TestFile, TestFile) -> bool,
                      i: nat, j: nat)
    requires TotalPreorder(nameAtMost) && i < j < |files|
    ensures var order := PlacementOrder(files, weights, nameAtMost);
            || order[i].weight > order[j].weight
            || (order[i].weight == order[j].weight && nameAtMost(order[i].file, order[j].file))
  {
    var atMost := (x, y) => HeavierFirst(nameAtMost, x, y);
    assert TotalPreorder(atMost);
    SortSorts(Weigh(files, weights), atMost);
    var order := PlacementOrder(files, weights, nameAtMost);
    assert SortedBy(order, atMost) && atMost(order[i], order[j]);
  }

  /** Where nothing is recorded, a partition weighs as many as it has files. */
  lemma {:induction false} UnrecordedCounts(files: seq<TestFile>, weights: map<TestFile, real>)
    requires forall file :: file in files ==> file !in weights
    ensures PartitionWeight(files, weights) == |files| as real
  {
    if files != [] {
      UnrecordedCounts(files[..|files| - 1], weights);
    }
  }

  /** Where all files are recorded, a partition weighs the sum of their durations, one after the other. */
  lemma RecordedAdds(files: seq<TestFile>, file: TestFile, weights: map<TestFile, real>)
    requires file in weights
    ensures PartitionWeight([], weights) == 0.0
    ensures PartitionWeight(files + [file], weights) == PartitionWeight(files, weights) + weights[file]
  {
    assert (files + [file])[..|files|] == files;
  }

  /** Equally heavy files are spread evenly over the partitions: by count, also when their durations are zero. */
  lemma EqualFilesBalance(files: seq<TestFile>, weights: map<TestFile, real>,
                          nameAtMost: (TestFile, TestFile) -> bool, buckets: seq<seq<TestFile>>, x: real,
                          b: nat, c: nat)
    requires LongestFirst(files, weights, nameAtMost, buckets) && b < |buckets| && c < |buckets|
    requires x >= 0.0 && forall file :: file in files ==> WeightOf(weights, file) == x
    ensures |buckets[b]| <= |buckets[c]| + 1
  {
    var order := PlacementOrder(files, weights, nameAtMost);
    var picks :| PlacedBy(order, picks, buckets);
    OrderConserves(files, weights, nameAtMost);
    forall i | 0 <= i < |order| ensures order[i].weight == x {
      assert Names(order)[i] in multiset(files);
    }
    CountsClose(Weights(order), picks, |buckets|, x, b, c);
    CountIsLength(Names(order), picks, b);
    CountIsLength(Names(order), picks, c);
  }

  /** Any two partitions differ by at most the heaviest file. */
  lemma PartitionsStayClose(files: seq<TestFile>, weights: map<TestFile, real>,
                            nameAtMost: (TestFile, TestFile) -> bool, buckets: seq<seq<TestFile>>,
                            heaviest: real, b: nat, c: nat)
    requires LongestFirst(files, weights, nameAtMost, buckets)
    requires heaviest >= 0.0 && forall file :: file in files ==> 0.0 <= WeightOf(weights, file) <= heaviest
    requires b < |buckets| && c < |buckets|
    ensures PartitionWeight(buckets[b], weights) - PartitionWeight(buckets[c], weights) <= heaviest
  {
    var order := PlacementOrder(files, weights, nameAtMost);
    var picks :| PlacedBy(order, picks, buckets);
    OrderConserves(files, weights, nameAtMost);
    forall i | 0 <= i < |order| ensures 0.0 <= order[i].weight <= heaviest {
      assert Names(order)[i] in multiset(files);
    }
    LoadSpread(Weights(order), picks, |buckets|, heaviest, b, c);
    WeightIsLoad(order, weights, picks, b);
    WeightIsLoad(order, weights, picks, c);
  }

  // ---------------------------------------------------------------- empty partitions

  /** The number of listed files whose weight is not negative. */
  function Timed(files: seq<TestFile>, weights: map<TestFile, real>): (count: nat)
    ensures count <= |files|
  {
    if files == [] then 0
    else
      var n := |files| - 1;
      Timed(files[..n], weights) + (if WeightOf(weights, files[n]) >= 0.0 then 1 else 0)
  }

  ghost function TimedIn(order: seq<Weighted>): nat {
    NonNegatives(Weights(order))
  }

  lemma TimedSnoc(order: seq<Weighted>, x: Weighted)
    ensures TimedIn(order + [x]) == TimedIn(order) + (if x.weight >= 0.0 then 1 else 0)
  {
    OrderSnoc(order, x);
    assert (Weights(order) + [x.weight])[..|order|] == Weights(order);
  }

  lemma {:induction false} TimedOfInsert(order: seq<Weighted>, x: Weighted, atMost: (Weighted, Weighted) -> bool)
    ensures TimedIn(Insert(order, x, atMost)) == TimedIn(order) + (if x.weight >= 0.0 then 1 else 0)
  {
    if order == [] || atMost(order[|order| - 1], x) {
      TimedSnoc(order, x);
    } else {
      var n := |order| - 1;
      TimedOfInsert(order[..n], x, atMost);
      assert order == order[..n] + [order[n]];
      TimedSnoc(order[..n], order[n]);
      TimedSnoc(Insert(order[..n], x, atMost), order[n]);
    }
  }

  lemma {:induction false} TimedOfSort(
    files: seq<TestFile>, weights: map<TestFile, real>, atMost: (Weighted, Weighted) -> bool)
    ensures TimedIn(StableSort(Weigh(files, weights), atMost)) == Timed(files, weights)
  {
    if files != [] {
      var n := |files| - 1;
      var front, last := Weigh(files[..n], weights), Weighted(files[n], WeightOf(weights, files[n]));
      TimedOfSort(files[..n], weights, atMost);
      assert Weigh(files, weights) == front + [last];
      SortSnoc(front, last, atMost);
      TimedOfInsert(StableSort(front, atMost), last, atMost);
    }
  }

  lemma EmptyMeansUnoccupied(order: seq<Weighted>, picks: Assignment, buckets: seq<seq<TestFile>>)
    requires PlacedBy(order, picks, buckets)
    ensures (forall b :: 0 <= b < |buckets| ==> buckets[b] != []) <==> Occupied(picks, |buckets|) == |buckets|
  {
    AllOccupied(picks, |buckets|);
    forall b: nat | b < |buckets| ensures buckets[b] != [] <==> CountOf(picks, b) > 0 {
      CountIsLength(Names(order), picks, b);
    }
    if b: nat :| b < |buckets| && buckets[b] == [] {
      assert CountOf(picks, b) == 0;
    } else {
      assert forall b: nat :: b < |buckets| ==> buckets[b] != [];
      assert AllHold(picks, |buckets|);
    }
  }

  /**
   Exactly when no partition is left empty, for weights of any sign: the files whose weight
   is not negative fill one partition each, and all the others together fill one more.
   */
  lemma NoPartitionEmptyIff(files: seq<TestFile>, weights: map<TestFile, real>,
                            nameAtMost: (TestFile, TestFile) -> bool, buckets: seq<seq<TestFile>>)
    requires TotalPreorder(nameAtMost) && LongestFirst(files, weights, nameAtMost, buckets)
    ensures (forall b :: 0 <= b < |buckets| ==> buckets[b] != []) <==>
            Timed(files, weights) + (if Timed(files, weights) < |files| then 1 else 0) >= |buckets|
  {
    var order, m := PlacementOrder(files, weights, nameAtMost), |buckets|;
    var picks :| PlacedBy(order, picks, buckets);
    OrderDescends(files, weights, nameAtMost);
    TimedOfSort(files, weights, (x, y) => HeavierFirst(nameAtMost, x, y));
    BucketsFilled(Weights(order), picks, m);
    EmptyMeansUnoccupied(order, picks, buckets);
  }

  /** Two files of weight -1 leave one of two partitions empty. */
  lemma NegativesLeaveOneEmpty(f: TestFile, g: TestFile, nameAtMost: (TestFile, TestFile) -> bool,
                               buckets: seq<seq<TestFile>>)
    returns (b: nat)
    requires TotalPreorder(nameAtMost) && |buckets| == 2
    requires LongestFirst([f, g], map[f := -1.0, g := -1.0], nameAtMost, buckets)
    ensures b < 2 && buckets[b] == []
  {
    var weights := map[f := -1.0, g := -1.0];
    assert [f, g][..1] == [f] && [f][..0] == [];
    assert Timed([f, g], weights) == 0;
    NoPartitionEmptyIff([f, g], weights, nameAtMost, buckets);
    b :| b < 2 && buckets[b] == [];
  }

  lemma {:induction false} TimedAll(files: seq<TestFile>, weights: map<TestFile, real>)
    requires forall file :: file in files ==> WeightOf(weights, file) >= 0.0
    ensures Timed(files, weights) == |files|
  {
    if files != [] {
      TimedAll(files[..|files| - 1], weights);
    }
  }

  /** With recorded durations, an empty partition means fewer files than partitions. */
  lemma NoPartitionEmptyForDurations(files: seq<TestFile>, weights: map<TestFile, real>,
                                     nameAtMost: (TestFile, TestFile) -> bool, buckets: seq<seq<TestFile>>)
    requires TotalPreorder(nameAtMost) && LongestFirst(files, weights, nameAtMost, buckets)
    requires forall file :: file in files ==> WeightOf(weights, file) >= 0.0
    ensures (forall b :: 0 <= b < |buckets| ==> buckets[b] != []) <==> |files| >= |buckets|
  {
    NoPartitionEmptyIff(files, weights, nameAtMost, buckets);
    TimedAll(files, weights);
  }
}
