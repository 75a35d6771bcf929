/**
 The weighted partition scheduler: longest file first, always into the bucket at the root of a binary min-heap
 of bucket indices. The heap loop is proved to refine the greedy rule of LoadBalance.
 */
module PartitionScheduler {
  import opened LoadBalance
  import opened Outcomes

  datatype SchedulerError = HeapIndexOutOfBounds

  type Weights = map<string, real>
  /** Locale collation as the sort sees it: the sign of the comparison. */
  type Collation = (string, string) -> int

  /** Recorded duration of a file; a file without one counts as one. */
  function FileWeight(weights: Weights, file: string): real {
    if file in weights then weights[file] else 1.0
  }

  function WeightsOf(weights: Weights, files: seq<string>): (w: seq<real>)
    ensures |w| == |files| && forall i :: 0 <= i < |files| ==> w[i] == FileWeight(weights, files[i])
  {
    seq(|files|, i requires 0 <= i < |files| => FileWeight(weights, files[i]))
  }

  /** Sum of a partition's file weights. */
  function PartitionWeight(files: seq<string>, weights: Weights): real {
    if files == [] then 0.0
    else PartitionWeight(files[..|files| - 1], weights) + FileWeight(weights, files[|files| - 1])
  }

  ghost predicate NonNegativeWeights(weights: Weights) {
    forall f :: f in weights ==> weights[f] >= 0.0
  }

  /** All files of all partitions, with multiplicity. */
  ghost function Contents(parts: seq<seq<string>>): multiset<string> {
    if parts == [] then multiset{} else multiset(parts[0]) + Contents(parts[1..])
  }

  // ---------- Sorting longest first ----------

  predicate Precedes(weights: Weights, collate: Collation, a: string, b: string) {
    || FileWeight(weights, a) > FileWeight(weights, b)
    || (FileWeight(weights, a) == FileWeight(weights, b) && collate(a, b) <= 0)
  }

  /** Stable insertion, as a stable sort places an element that compares equal after the earlier one. */
  function Insert(weights: Weights, collate: Collation, sorted: seq<string>, x: string): (r: seq<string>)
    ensures multiset(r) == multiset(sorted) + multiset{x}
  {
    if sorted == [] then [x]
    else
      var front, last := sorted[..|sorted| - 1], sorted[|sorted| - 1];
      assert sorted == front + [last];
      if Precedes(weights, collate, last, x) then sorted + [x] else Insert(weights, collate, front, x) + [last]
  }

  function LongestFirst(weights: Weights, collate: Collation, files: seq<string>): (r: seq<string>)
    ensures multiset(r) == multiset(files)
  {
    if files == [] then []
    else
      assert files == files[..|files| - 1] + [files[|files| - 1]];
      Insert(weights, collate, LongestFirst(weights, collate, files[..|files| - 1]), files[|files| - 1])
  }

  ghost predicate Descends(weights: Weights, files: seq<string>) {
    forall i, k :: 0 <= i <= k < |files| ==> FileWeight(weights, files[i]) >= FileWeight(weights, files[k])
  }

  lemma DescendsSnoc(weights: Weights, front: seq<string>, last: string)
    ensures Descends(weights, front + [last]) <==>
              Descends(weights, front) && forall f :: f in front ==> FileWeight(weights, f) >= FileWeight(weights, last)
  {
    var s := front + [last];
    if Descends(weights, s) {
      forall i, k | 0 <= i <= k < |front| ensures FileWeight(weights, front[i]) >= FileWeight(weights, front[k]) {
        assert front[i] == s[i] && front[k] == s[k];
      }
      forall f | f in front ensures FileWeight(weights, f) >= FileWeight(weights, last) {
        var i :| 0 <= i < |front| && front[i] == f;
        assert s[i] == f && s[|front|] == last;
      }
    }
  }

  lemma {:induction false} InsertDescends(weights: Weights, collate: Collation, sorted: seq<string>, x: string)
    requires Descends(weights, sorted)
    ensures Descends(weights, Insert(weights, collate, sorted, x))
  {
    if sorted != [] {
      var front, last := sorted[..|sorted| - 1], sorted[|sorted| - 1];
      assert sorted == front + [last];
      DescendsSnoc(weights, front, last);
      if Precedes(weights, collate, last, x) {
        DescendsSnoc(weights, sorted, x);
      } else {
        var r := Insert(weights, collate, front, x);
        InsertDescends(weights, collate, front, x);
        forall f | f in r ensures FileWeight(weights, f) >= FileWeight(weights, last) {
          assert f in multiset(r);
          assert f == x || f in multiset(front);
        }
        DescendsSnoc(weights, r, last);
      }
    }
  }

  lemma {:induction false} LongestFirstDescends(weights: Weights, collate: Collation, files: seq<string>)
    ensures Descends(weights, LongestFirst(weights, collate, files))
  {
    if files != [] {
      var front := files[..|files| - 1];
      LongestFirstDescends(weights, collate, front);
      InsertDescends(weights, collate, LongestFirst(weights, collate, front), files[|files| - 1]);
    }
  }

  // ---------- The heap of bucket indices ----------

  class Bucket {
    var sum: real
    var files: seq<string>

    constructor ()
      ensures sum == 0.0 && files == []
    {
      sum, files := 0.0, [];
    }
  }

  datatype Key = Key(sum: real, count: nat)

  /** Order buckets by total weight, then by file count. */
  predicate Less(left: Key, right: Key) {
    if left.sum != right.sum then left.sum < right.sum else left.count < right.count
  }

  function KeyOf(b: Bucket): Key
    reads b
  {
    Key(b.sum, |b.files|)
  }

  ghost function Keys(buckets: seq<Bucket>): (keys: seq<Key>)
    reads buckets
    ensures |keys| == |buckets| && forall i :: 0 <= i < |buckets| ==> keys[i] == KeyOf(buckets[i])
  {
    seq(|buckets|, i requires 0 <= i < |buckets| reads buckets => KeyOf(buckets[i]))
  }

  ghost predicate Distinct(buckets: seq<Bucket>) {
    forall i, j :: 0 <= i < j < |buckets| ==> buckets[i] != buckets[j]
  }

  function Parent(i: nat): nat
    requires i > 0
  {
    (i - 1) / 2
  }

  /** The heap array lists every bucket index exactly once. */
  ghost predicate IndexPermutation(heap: seq<nat>, m: nat) {
    && |heap| == m
    && (forall i :: 0 <= i < m ==> heap[i] < m)
    && (forall i, k :: 0 <= i < k < m ==> heap[i] != heap[k])
    && (forall j: nat :: j < m ==> j in heap)
  }

  /** Child i of its parent is in heap order. */
  ghost predicate EdgeOrdered(keys: seq<Key>, heap: seq<nat>, i: nat)
    requires 0 < i < |heap| && IndexPermutation(heap, |keys|)
  {
    !Less(keys[heap[i]], keys[heap[Parent(i)]])
  }

  ghost predicate HeapOrdered(keys: seq<Key>, heap: seq<nat>)
    requires IndexPermutation(heap, |keys|)
  {
    forall i :: 0 < i < |heap| ==> EdgeOrdered(keys, heap, i)
  }

  /** Heap order except on the edges below `hole`; its children still respect its parent. */
  ghost predicate HeapExceptBelow(keys: seq<Key>, heap: seq<nat>, hole: nat)
    requires IndexPermutation(heap, |keys|) && hole < |heap|
  {
    && (forall i :: 0 < i < |heap| && Parent(i) != hole ==> EdgeOrdered(keys, heap, i))
    && (forall i :: 0 < i < |heap| && Parent(i) == hole && hole > 0 ==>
                      !Less(keys[heap[i]], keys[heap[Parent(hole)]]))
  }

  /** The position among i and its children that holds the least bucket; i wins ties, then the left child. */
  method LeastOfFamily(buckets: seq<Bucket>, heap: array<nat>, index: nat) returns (smallest: nat)
    requires IndexPermutation(heap[..], |buckets|) && index < heap.Length
    ensures smallest < heap.Length && (smallest == index || (0 < smallest && Parent(smallest) == index))
    ensures forall i :: 0 < i < heap.Length && Parent(i) == index ==>
      !Less(KeyOf(buckets[heap[i]]), KeyOf(buckets[heap[smallest]]))
    ensures smallest != index ==> Less(KeyOf(buckets[heap[smallest]]), KeyOf(buckets[heap[index]]))
  {
    var size := heap.Length;
    var left, right := 2 * index + 1, 2 * index + 2;
    smallest := index;
    if left < size && Less(KeyOf(buckets[heap[left]]), KeyOf(buckets[heap[smallest]])) {
      smallest := left;
    }
    if right < size && Less(KeyOf(buckets[heap[right]]), KeyOf(buckets[heap[smallest]])) {
      smallest := right;
    }
    assert forall i :: 0 < i < size && Parent(i) == index ==> i == left || i == right;
  }

  /** Restore the heap order after the bucket at position `start` grew heavier. */
  method SiftDown(buckets: seq<Bucket>, heap: array<nat>, start: nat)
    requires IndexPermutation(heap[..], |buckets|) && start < heap.Length
    requires HeapExceptBelow(Keys(buckets), heap[..], start)
    modifies heap
    ensures IndexPermutation(heap[..], |buckets|) && HeapOrdered(Keys(buckets), heap[..])
  {
    var index := start;
    ghost var keys := Keys(buckets);
    while true
      invariant index < heap.Length == |buckets| && keys == Keys(buckets)
      invariant IndexPermutation(heap[..], |keys|) && HeapExceptBelow(keys, heap[..], index)
      decreases heap.Length - index
    {
      ghost var before := heap[..];
      var smallest := LeastOfFamily(buckets, heap, index);
      FamilyKeys(buckets, before, index, smallest);
      if smallest == index {
        NoHole(keys, before, index);
        return;
      }
      heap[index], heap[smallest] := heap[smallest], heap[index];
      assert heap[..] == before[index := before[smallest]][smallest := before[index]];
      SwapKeepsIndices(before, heap[..], index, smallest);
      SwapSinksHole(keys, before, heap[..], index, smallest);
      index := smallest;
    }
  }

  lemma FamilyKeys(buckets: seq<Bucket>, heap: seq<nat>, index: nat, smallest: nat)
    requires IndexPermutation(heap, |buckets|) && index < |heap| && smallest < |heap|
    requires forall i :: 0 < i < |heap| && Parent(i) == index ==>
      !Less(KeyOf(buckets[heap[i]]), KeyOf(buckets[heap[smallest]]))
    ensures LeastChild(Keys(buckets), heap, index, smallest)
  {
    var keys := Keys(buckets);
    forall i | 0 < i < |heap| && Parent(i) == index ensures !Less(keys[heap[i]], keys[heap[smallest]]) {
    }
  }

  /** No child of position `index` holds a bucket lighter than the one at position `smallest`. */
  ghost predicate LeastChild(keys: seq<Key>, heap: seq<nat>, index: nat, smallest: nat)
    requires IndexPermutation(heap, |keys|) && smallest < |heap|
  {
    forall i :: 0 < i < |heap| && Parent(i) == index ==> !Less(keys[heap[i]], keys[heap[smallest]])
  }

  lemma NoHole(keys: seq<Key>, heap: seq<nat>, hole: nat)
    requires IndexPermutation(heap, |keys|) && hole < |heap|
    requires HeapExceptBelow(keys, heap, hole) && LeastChild(keys, heap, hole, hole)
    ensures HeapOrdered(keys, heap)
  {
    forall i | 0 < i < |heap| ensures EdgeOrdered(keys, heap, i) {
    }
  }

  lemma SwapKeepsIndices(before: seq<nat>, after: seq<nat>, i: nat, k: nat)
    requires i < |before| && k < |before| && IndexPermutation(before, |before|)
    requires after == before[i := before[k]][k := before[i]]
    ensures IndexPermutation(after, |before|)
  {
    forall j: nat | j < |before| ensures j in after {
      assert j in before;
      var p :| 0 <= p < |before| && before[p] == j;
      assert after[if p == i then k else if p == k then i else p] == j;
    }
  }

  /** Moving the smaller child up leaves only the edges below its old position in doubt. */
  lemma SwapSinksHole(keys: seq<Key>, before: seq<nat>, after: seq<nat>, hole: nat, child: nat)
    requires IndexPermutation(before, |keys|) && IndexPermutation(after, |keys|)
    requires hole < child < |before| && Parent(child) == hole
    requires HeapExceptBelow(keys, before, hole)
    requires after == before[hole := before[child]][child := before[hole]]
    requires Less(keys[before[child]], keys[before[hole]])
    requires LeastChild(keys, before, hole, child)
    ensures HeapExceptBelow(keys, after, child)
  {
    forall i | 0 < i < |after| && Parent(i) != child ensures EdgeOrdered(keys, after, i) {
      if Parent(i) != hole {
        assert EdgeOrdered(keys, before, i);
      }
    }
    forall i | 0 < i < |after| && Parent(i) == child
      ensures !Less(keys[after[i]], keys[after[hole]])
    {
      assert EdgeOrdered(keys, before, i);
    }
  }

  /** The root of an ordered heap is a least bucket in the order by sum, then file count. */
  lemma {:induction false} RootIsLeast(keys: seq<Key>, heap: seq<nat>, i: nat)
    requires IndexPermutation(heap, |keys|) && HeapOrdered(keys, heap) && i < |heap|
    ensures !Less(keys[heap[i]], keys[heap[0]])
  {
    if i > 0 {
      assert EdgeOrdered(keys, heap, i);
      RootIsLeast(keys, heap, Parent(i));
    }
  }

  lemma RootBelowAll(keys: seq<Key>, heap: seq<nat>)
    requires IndexPermutation(heap, |keys|) && HeapOrdered(keys, heap) && |heap| > 0
    ensures forall j :: 0 <= j < |keys| ==> !Less(keys[j], keys[heap[0]])
  {
    forall j | 0 <= j < |keys| ensures !Less(keys[j], keys[heap[0]]) {
      assert j in heap;
      var i :| 0 <= i < |heap| && heap[i] == j;
      RootIsLeast(keys, heap, i);
    }
  }

  // ---------- Greedy placement of files ----------

  /** Files that the choices c send to bucket j among the first n. */
  ghost function Slice(files: seq<string>, c: seq<nat>, j: nat, n: nat): seq<string>
    requires n <= |files| && n <= |c|
  {
    if n == 0 then [] else Slice(files, c, j, n - 1) + if c[n - 1] == j then [files[n - 1]] else []
  }

  /** The partitions are what the choices c make of the sorted files. */
  ghost predicate PlacedBy(parts: seq<seq<string>>, sorted: seq<string>, c: seq<nat>) {
    |c| == |sorted| && forall j :: 0 <= j < |parts| ==> parts[j] == Slice(sorted, c, j, |sorted|)
  }

  /** The partitions come from placing the files, longest first, into some least-loaded bucket each. */
  ghost predicate LongestFirstGreedy(parts: seq<seq<string>>, files: seq<string>, weights: Weights, collate: Collation, m: nat) {
    var sorted := LongestFirst(weights, collate, files);
    && |parts| == m
    && exists c :: Greedy(WeightsOf(weights, sorted), c, m) && PlacedBy(parts, sorted, c)
  }

  /** Bucket j holds what the choices made so far put there. */
  ghost predicate Holds(sum: real, files: seq<string>, sorted: seq<string>, w: seq<real>, c: seq<nat>, j: nat)
    requires |c| <= |sorted| == |w|
  {
    sum == Load(w, c, j, |c|) && |files| == Count(c, j, |c|) && files == Slice(sorted, c, j, |c|)
  }

  ghost predicate BucketsMatch(buckets: seq<Bucket>, sorted: seq<string>, w: seq<real>, c: seq<nat>)
    requires |c| <= |sorted| == |w|
    reads buckets
  {
    forall j :: 0 <= j < |buckets| ==> Holds(buckets[j].sum, buckets[j].files, sorted, w, c, j)
  }

  ghost predicate GreedySoFar(w: seq<real>, c: seq<nat>, m: nat) {
    |c| <= |w| && forall i :: 0 <= i < |c| ==> LeastLoaded(w, c, m, i, c[i])
  }

  lemma {:induction false} ChoiceExtends(sorted: seq<string>, w: seq<real>, c: seq<nat>, k: nat, j: nat, n: nat)
    requires n <= |c| <= |w| == |sorted|
    ensures Load(w, c + [k], j, n) == Load(w, c, j, n) && Count(c + [k], j, n) == Count(c, j, n)
    ensures Slice(sorted, c + [k], j, n) == Slice(sorted, c, j, n)
  {
    if n > 0 {
      ChoiceExtends(sorted, w, c, k, j, n - 1);
    }
  }

  lemma GreedyExtends(sorted: seq<string>, w: seq<real>, c: seq<nat>, k: nat, m: nat)
    requires |c| < |w| == |sorted| && GreedySoFar(w, c, m) && LeastLoaded(w, c, m, |c|, k)
    ensures GreedySoFar(w, c + [k], m)
  {
    var c' := c + [k];
    forall i | 0 <= i < |c'| ensures LeastLoaded(w, c', m, i, c'[i]) {
      assert LeastLoaded(w, c, m, i, c'[i]);
      forall j: nat | j < m
        ensures AtMost(Load(w, c', c'[i], i), Count(c', c'[i], i), Load(w, c', j, i), Count(c', j, i))
      {
        ChoiceExtends(sorted, w, c, k, c'[i], i);
        ChoiceExtends(sorted, w, c, k, j, i);
      }
    }
  }

  lemma HoldsAfterChoice(sum: real, files: seq<string>, sorted: seq<string>, w: seq<real>, c: seq<nat>, k: nat, j: nat)
    requires |c| < |sorted| == |w| && Holds(sum, files, sorted, w, c, j)
    ensures j != k ==> Holds(sum, files, sorted, w, c + [k], j)
    ensures j == k ==> Holds(sum + w[|c|], files + [sorted[|c|]], sorted, w, c + [k], j)
  {
    ChoiceExtends(sorted, w, c, k, j, |c|);
  }

  /** The least bucket by its fields is a least-loaded machine of the choices. */
  lemma LeastBucketIsLeastLoaded(buckets: seq<Bucket>, sorted: seq<string>, w: seq<real>, c: seq<nat>, top: nat)
    requires |c| <= |sorted| == |w| && BucketsMatch(buckets, sorted, w, c) && top < |buckets|
    requires forall j :: 0 <= j < |buckets| ==> !Less(Keys(buckets)[j], Keys(buckets)[top])
    ensures LeastLoaded(w, c, |buckets|, |c|, top)
  {
    assert Holds(buckets[top].sum, buckets[top].files, sorted, w, c, top);
    forall j: nat | j < |buckets|
      ensures AtMost(Load(w, c, top, |c|), Count(c, top, |c|), Load(w, c, j, |c|), Count(c, j, |c|))
    {
      assert Holds(buckets[j].sum, buckets[j].files, sorted, w, c, j);
      assert !Less(Keys(buckets)[j], Keys(buckets)[top]);
    }
  }

  /** Changing only the root bucket's key breaks the heap order only below the root. */
  lemma RootChanged(before: seq<Key>, after: seq<Key>, heap: seq<nat>)
    requires |before| == |after| == |heap| > 0
    requires IndexPermutation(heap, |before|) && HeapOrdered(before, heap)
    requires forall j :: 0 <= j < |after| && j != heap[0] ==> after[j] == before[j]
    ensures HeapExceptBelow(after, heap, 0)
  {
    forall i | 0 < i < |heap| && Parent(i) != 0 ensures EdgeOrdered(after, heap, i) {
      assert EdgeOrdered(before, heap, i);
    }
  }

  /** Add one file to bucket `top`; every other bucket keeps its fields. */
  method AddToBucket(buckets: seq<Bucket>, top: nat, file: string, weight: real, ghost sorted: seq<string>,
                     ghost w: seq<real>, ghost c: seq<nat>)
    requires top < |buckets| && Distinct(buckets)
    requires |c| < |sorted| == |w| && file == sorted[|c|] && weight == w[|c|]
    requires BucketsMatch(buckets, sorted, w, c)
    modifies buckets[top]
    ensures BucketsMatch(buckets, sorted, w, c + [top])
    ensures forall j :: 0 <= j < |buckets| && j != top ==> Keys(buckets)[j] == old(Keys(buckets)[j])
  {
    var bucket := buckets[top];
    assert Holds(bucket.sum, bucket.files, sorted, w, c, top);
    HoldsAfterChoice(bucket.sum, bucket.files, sorted, w, c, top, top);
    bucket.sum := bucket.sum + weight;
    bucket.files := bucket.files + [file];
    forall j | 0 <= j < |buckets|
      ensures Holds(buckets[j].sum, buckets[j].files, sorted, w, c + [top], j)
    {
      if j != top {
        assert old(Holds(buckets[j].sum, buckets[j].files, sorted, w, c, j));
        HoldsAfterChoice(buckets[j].sum, buckets[j].files, sorted, w, c, top, j);
      }
    }
  }

  /** Place one file into the bucket at the heap root, then restore the heap. */
  method Place(buckets: seq<Bucket>, heap: array<nat>, file: string, weight: real, ghost sorted: seq<string>,
               ghost w: seq<real>, ghost c: seq<nat>) returns (ghost top: nat)
    requires heap.Length > 0 && Distinct(buckets)
    requires IndexPermutation(heap[..], |buckets|) && HeapOrdered(Keys(buckets), heap[..])
    requires |c| < |sorted| == |w| && file == sorted[|c|] && weight == w[|c|]
    requires BucketsMatch(buckets, sorted, w, c)
    modifies heap, buckets
    ensures IndexPermutation(heap[..], |buckets|) && HeapOrdered(Keys(buckets), heap[..])
    ensures LeastLoaded(w, c, |buckets|, |c|, top)
    ensures BucketsMatch(buckets, sorted, w, c + [top])
  {
    ghost var keys := Keys(buckets);
    var root := heap[0];
    top := root;
    RootBelowAll(keys, heap[..]);
    LeastBucketIsLeastLoaded(buckets, sorted, w, c, root);
    AddToBucket(buckets, root, file, weight, sorted, w, c);
    RootChanged(keys, Keys(buckets), heap[..]);
    SiftDown(buckets, heap, 0);
  }

  method EmptyBuckets(count: nat) returns (buckets: seq<Bucket>)
    ensures |buckets| == count && Distinct(buckets) && fresh(buckets)
    ensures forall j :: 0 <= j < count ==> buckets[j].sum == 0.0 && buckets[j].files == []
  {
    buckets := [];
    while |buckets| < count
      invariant |buckets| <= count && Distinct(buckets) && fresh(buckets)
      invariant forall j :: 0 <= j < |buckets| ==> buckets[j].sum == 0.0 && buckets[j].files == []
    {
      var bucket := new Bucket();
      buckets := buckets + [bucket];
    }
  }

  lemma IdentityIsHeap(keys: seq<Key>, heap: seq<nat>)
    requires |heap| == |keys| && forall i :: 0 <= i < |heap| ==> heap[i] == i && keys[i] == Key(0.0, 0)
    ensures IndexPermutation(heap, |keys|) && HeapOrdered(keys, heap)
  {
    forall j: nat | j < |heap| ensures j in heap {
      assert heap[j] == j;
    }
    forall i | 0 < i < |heap| ensures EdgeOrdered(keys, heap, i) {
    }
  }

  /** The heap loop: every file, longest first, goes to the bucket at the heap root. */
  method PlaceAll(buckets: seq<Bucket>, heap: array<nat>, sorted: seq<string>, weights: Weights)
    returns (ghost c: seq<nat>)
    requires heap.Length > 0 && Distinct(buckets)
    requires IndexPermutation(heap[..], |buckets|) && HeapOrdered(Keys(buckets), heap[..])
    requires forall j :: 0 <= j < |buckets| ==> buckets[j].sum == 0.0 && buckets[j].files == []
    modifies heap, buckets
    ensures Greedy(WeightsOf(weights, sorted), c, |buckets|)
    ensures BucketsMatch(buckets, sorted, WeightsOf(weights, sorted), c)
  {
    ghost var w := WeightsOf(weights, sorted);
    c := [];
    var i := 0;
    while i < |sorted|
      invariant i == |c| <= |sorted|
      invariant IndexPermutation(heap[..], |buckets|) && HeapOrdered(Keys(buckets), heap[..])
      invariant GreedySoFar(w, c, |buckets|) && BucketsMatch(buckets, sorted, w, c)
    {
      ghost var top := Place(buckets, heap, sorted[i], FileWeight(weights, sorted[i]), sorted, w, c);
      GreedyExtends(sorted, w, c, top, |buckets|);
      c := c + [top];
      i := i + 1;
    }
  }

  /**
   Assign files to partitions. The result is a longest-first greedy placement; the only failure is placing a
   file with no partition to hold it.
   */
  method AssignWeightedPartitions(files: seq<string>, weights: Weights, partitions: nat, collate: Collation)
    returns (r: Result<seq<seq<string>>, SchedulerError>)
    ensures r.Failure? <==> files != [] && partitions == 0
    ensures r.Success? ==> LongestFirstGreedy(r.value, files, weights, collate, partitions)
  {
    ghost var m := partitions;
    if files == [] {
      var parts: seq<seq<string>> := seq(partitions, _ => []);
      assert Greedy(WeightsOf(weights, []), [], m) && PlacedBy(parts, [], []);
      return Success(parts);
    }
    var sorted := LongestFirst(weights, collate, files);
    assert |multiset(sorted)| == |multiset(files)|;
    if partitions == 0 {
      return Failure(HeapIndexOutOfBounds);
    }
    var buckets := EmptyBuckets(partitions);
    var heap := new nat[partitions](i => i);
    IdentityIsHeap(Keys(buckets), heap[..]);
    ghost var c := PlaceAll(buckets, heap, sorted, weights);
    var parts := seq(partitions, j requires 0 <= j < |buckets| reads buckets => buckets[j].files);
    forall j | 0 <= j < |parts| ensures parts[j] == Slice(sorted, c, j, |sorted|) {
      assert Holds(buckets[j].sum, buckets[j].files, sorted, WeightsOf(weights, sorted), c, j);
    }
    assert PlacedBy(parts, sorted, c);
    r := Success(parts);
  }
}
