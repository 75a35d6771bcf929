/**
 What the coverage scheduler's partitions guarantee, in terms of the files and their weights: nothing is lost,
 no partition stays empty without need, totals are balanced, and no other split of the same files does much better.
 */
module PartitionGuarantees {
  import opened LoadBalance
  import opened PartitionScheduler

  // ---------- From choices to partitions ----------

  lemma {:induction false} SliceWeight(sorted: seq<string>, weights: Weights, c: seq<nat>, j: nat, n: nat)
    requires n <= |sorted| == |c|
    ensures PartitionWeight(Slice(sorted, c, j, n), weights) == Load(WeightsOf(weights, sorted), c, j, n)
    ensures |Slice(sorted, c, j, n)| == Count(c, j, n)
  {
    if n > 0 {
      SliceWeight(sorted, weights, c, j, n - 1);
      if c[n - 1] == j {
        WeightSnoc(Slice(sorted, c, j, n - 1), sorted[n - 1], weights);
      } else {
        assert Slice(sorted, c, j, n) == Slice(sorted, c, j, n - 1);
      }
    }
  }

  lemma WeightSnoc(files: seq<string>, x: string, weights: Weights)
    ensures PartitionWeight(files + [x], weights) == PartitionWeight(files, weights) + FileWeight(weights, x)
  {
    assert (files + [x])[..|files|] == files;
  }

  ghost function Slices(sorted: seq<string>, c: seq<nat>, m: nat, n: nat): (parts: seq<seq<string>>)
    requires n <= |sorted| == |c|
    ensures |parts| == m && forall j :: 0 <= j < m ==> parts[j] == Slice(sorted, c, j, n)
  {
    seq(m, j requires 0 <= j < m => Slice(sorted, c, j, n))
  }

  lemma SlicesStep(sorted: seq<string>, c: seq<nat>, m: nat, n: nat)
    requires 0 < n <= |sorted| == |c| && OnMachines(c, m)
    ensures var before, k := Slices(sorted, c, m, n - 1), c[n - 1];
      k < m && Slices(sorted, c, m, n) == before[k := before[k] + [sorted[n - 1]]]
  {
    var before, after, k := Slices(sorted, c, m, n - 1), Slices(sorted, c, m, n), c[n - 1];
    forall j: nat | j < m ensures after[j] == before[k := before[k] + [sorted[n - 1]]][j] {
      assert after[j] == Slice(sorted, c, j, n) && before[j] == Slice(sorted, c, j, n - 1);
    }
  }

  lemma {:induction false} ContentsUpdate(parts: seq<seq<string>>, k: nat, files: seq<string>)
    requires k < |parts|
    ensures Contents(parts[k := files]) + multiset(parts[k]) == Contents(parts) + multiset(files)
  {
    var updated, first, rest := parts[k := files], multiset(parts[0]), parts[1..];
    if k == 0 {
      assert updated[1..] == rest;
    } else {
      ContentsUpdate(rest, k - 1, files);
      assert updated[1..] == rest[k - 1 := files];
      assert Contents(updated) + multiset(parts[k])
          == first + (Contents(rest[k - 1 := files]) + multiset(rest[k - 1]));
    }
  }

  lemma CancelFile(a: multiset<string>, b: multiset<string>, rest: multiset<string>, x: string)
    requires a + (rest + multiset{x}) == (b + multiset{x}) + rest
    ensures a == b
  {
    forall f: string ensures a[f] == b[f] {
      assert (a + (rest + multiset{x}))[f] == ((b + multiset{x}) + rest)[f];
    }
  }

  lemma ContentsSnoc(parts: seq<seq<string>>, k: nat, x: string)
    requires k < |parts|
    ensures Contents(parts[k := parts[k] + [x]]) == Contents(parts) + multiset{x}
  {
    var files := parts[k] + [x];
    ContentsUpdate(parts, k, files);
    assert multiset(files) == multiset(parts[k]) + multiset{x};
    var a, b, rest := Contents(parts[k := files]), Contents(parts), multiset(parts[k]);
    forall f: string ensures a[f] == (b + multiset{x})[f] {
      assert (a + rest)[f] == (b + (rest + multiset{x}))[f];
    }
  }

  lemma {:induction false} ContentsEmpty(parts: seq<seq<string>>)
    requires forall j :: 0 <= j < |parts| ==> parts[j] == []
    ensures Contents(parts) == multiset{}
  {
    if parts != [] {
      ContentsEmpty(parts[1..]);
    }
  }

  lemma ContentsStep(sorted: seq<string>, c: seq<nat>, m: nat, n: nat)
    requires 0 < n <= |sorted| == |c| && OnMachines(c, m)
    ensures Contents(Slices(sorted, c, m, n)) == Contents(Slices(sorted, c, m, n - 1)) + multiset{sorted[n - 1]}
  {
    SlicesStep(sorted, c, m, n);
    ContentsSnoc(Slices(sorted, c, m, n - 1), c[n - 1], sorted[n - 1]);
  }

  lemma MultisetSnoc(files: seq<string>, n: nat)
    requires 0 < n <= |files|
    ensures multiset(files[..n]) == multiset(files[..n - 1]) + multiset{files[n - 1]}
  {
    assert files[..n] == files[..n - 1] + [files[n - 1]];
  }

  lemma {:induction false} SlicesContents(sorted: seq<string>, c: seq<nat>, m: nat, n: nat)
    requires n <= |sorted| == |c| && OnMachines(c, m)
    ensures Contents(Slices(sorted, c, m, n)) == multiset(sorted[..n])
  {
    if n == 0 {
      ContentsEmpty(Slices(sorted, c, m, n));
      assert sorted[..n] == [];
    } else {
      SlicesContents(sorted, c, m, n - 1);
      ContentsStep(sorted, c, m, n);
      MultisetSnoc(sorted, n);
    }
  }

  // ---------- From a rival split to choices ----------

  /** A file present in the contents sits in some partition. */
  lemma {:induction false} Locate(parts: seq<seq<string>>, x: string) returns (k: nat, p: nat)
    requires x in Contents(parts)
    ensures k < |parts| && p < |parts[k]| && parts[k][p] == x
  {
    if x in parts[0] {
      k := 0;
      p :| 0 <= p < |parts[0]| && parts[0][p] == x;
    } else {
      k, p := Locate(parts[1..], x);
      k := k + 1;
    }
  }

  lemma {:induction false} PartWithin(parts: seq<seq<string>>, k: nat)
    requires k < |parts|
    ensures multiset(parts[k]) <= Contents(parts)
  {
    if k > 0 {
      PartWithin(parts[1..], k - 1);
    }
  }

  ghost function Without(files: seq<string>, p: nat): seq<string>
    requires p < |files|
  {
    files[..p] + files[p + 1..]
  }

  lemma WithoutSnoc(front: seq<string>, last: string, p: nat)
    requires p < |front|
    ensures Without(front + [last], p) == Without(front, p) + [last]
  {
    var files := front + [last];
    assert files[..p] == front[..p];
    assert files[p + 1..] == front[p + 1..] + [last];
  }

  lemma {:induction false} WeightRemove(files: seq<string>, p: nat, weights: Weights)
    requires p < |files|
    ensures PartitionWeight(files, weights)
         == PartitionWeight(Without(files, p), weights) + FileWeight(weights, files[p])
    ensures multiset(files) == multiset(Without(files, p)) + multiset{files[p]}
  {
    var front, last := files[..|files| - 1], files[|files| - 1];
    assert files == front + [last];
    if p == |files| - 1 {
      assert Without(files, p) == front;
    } else {
      WeightRemove(front, p, weights);
      WithoutSnoc(front, last, p);
      WeightSnoc(Without(front, p), last, weights);
    }
  }

  /** Any split of the sorted files into partitions is an assignment of their indices with the same loads. */
  lemma {:induction false} SplitAsChoices(sorted: seq<string>, other: seq<seq<string>>, weights: Weights)
    returns (a: seq<nat>)
    requires Contents(other) == multiset(sorted)
    ensures |a| == |sorted| && OnMachines(a, |other|)
    ensures forall j: nat :: j < |other| ==>
      Load(WeightsOf(weights, sorted), a, j, |sorted|) == PartitionWeight(other[j], weights)
  {
    if sorted == [] {
      a := [];
      forall j: nat | j < |other| ensures other[j] == [] {
        PartWithin(other, j);
        assert |multiset(other[j])| == 0;
      }
    } else {
      var n := |sorted| - 1;
      var front, x := sorted[..n], sorted[n];
      assert sorted == front + [x];
      assert x in Contents(other);
      var k, p := Locate(other, x);
      var rest := Without(other[k], p);
      WeightRemove(other[k], p, weights);
      ContentsUpdate(other, k, rest);
      CancelFile(Contents(other[k := rest]), multiset(front), multiset(rest), x);
      var a' := SplitAsChoices(front, other[k := rest], weights);
      a := a' + [k];
      forall j: nat | j < |other|
        ensures Load(WeightsOf(weights, sorted), a, j, |sorted|) == PartitionWeight(other[j], weights)
      {
        PrefixLoad(front, x, weights, a', k, j, n);
        assert Load(WeightsOf(weights, front), a', j, n) == PartitionWeight(other[k := rest][j], weights);
      }
    }
  }

  lemma {:induction false} PrefixLoad(front: seq<string>, x: string, weights: Weights, a: seq<nat>, k: nat, j: nat, n: nat)
    requires n <= |a| == |front|
    ensures Load(WeightsOf(weights, front + [x]), a + [k], j, n) == Load(WeightsOf(weights, front), a, j, n)
  {
    if n > 0 {
      PrefixLoad(front, x, weights, a, k, j, n - 1);
    }
  }

  // ---------- Guarantees of every run of the scheduler ----------

  /** The choices behind a run: the sorted weights, the greedy choice of every file, and the totals they give. */
  lemma ChoicesOf(parts: seq<seq<string>>, files: seq<string>, weights: Weights, collate: Collation, m: nat)
    returns (sorted: seq<string>, w: seq<real>, c: seq<nat>)
    requires LongestFirstGreedy(parts, files, weights, collate, m)
    ensures multiset(sorted) == multiset(files) && |sorted| == |files|
    ensures w == WeightsOf(weights, sorted) && Descending(w) && (NonNegativeWeights(weights) ==> NonNegative(w))
    ensures Greedy(w, c, m) && PlacedBy(parts, sorted, c) && OnMachines(c, m)
    ensures forall j: nat :: j < m ==>
      PartitionWeight(parts[j], weights) == Load(w, c, j, |w|) && |parts[j]| == Count(c, j, |w|)
  {
    sorted := LongestFirst(weights, collate, files);
    assert |multiset(sorted)| == |multiset(files)|;
    LongestFirstDescends(weights, collate, files);
    w := WeightsOf(weights, sorted);
    c :| Greedy(w, c, m) && PlacedBy(parts, sorted, c);
    GreedyOnMachines(w, c, m);
    forall j: nat | j < m {
      SliceWeight(sorted, weights, c, j, |sorted|);
    }
  }

  /** Every file lands in exactly one partition: the partitions hold the inventory as a multiset. */
  lemma FilesConserved(parts: seq<seq<string>>, files: seq<string>, weights: Weights, collate: Collation, m: nat)
    requires LongestFirstGreedy(parts, files, weights, collate, m)
    ensures Contents(parts) == multiset(files)
  {
    var sorted, w, c := ChoicesOf(parts, files, weights, collate, m);
    SlicesContents(sorted, c, m, |sorted|);
    assert parts == Slices(sorted, c, m, |sorted|);
    assert sorted[..|sorted|] == sorted;
  }

  /** With non-negative weights no partition is empty exactly when there are at least as many files as partitions. */
  lemma NonEmptyIffEnoughFiles(parts: seq<seq<string>>, files: seq<string>, weights: Weights, collate: Collation, m: nat)
    requires LongestFirstGreedy(parts, files, weights, collate, m) && NonNegativeWeights(weights)
    ensures (forall j :: 0 <= j < m ==> parts[j] != []) <==> |files| >= m
  {
    var sorted, w, c := ChoicesOf(parts, files, weights, collate, m);
    if |files| >= m {
      forall j: nat | j < m ensures parts[j] != [] {
        NoMachineEmpty(w, c, m, j);
      }
    } else if forall j :: 0 <= j < m ==> parts[j] != [] {
      SumsConserved(w, c, m, |sorted|);
      CountSumAtLeast(c, m, |sorted|);
      assert false;
    }
  }

  lemma {:induction false} CountSumAtLeast(c: seq<nat>, m: nat, n: nat)
    requires n <= |c| && forall k: nat :: k < m ==> Count(c, k, n) >= 1
    ensures CountSum(c, m, n) >= m
  {
    if m > 0 {
      CountSumAtLeast(c, m - 1, n);
    }
  }

  ghost predicate NoneHeavier(files: seq<string>, weights: Weights, largest: real) {
    forall f :: f in files ==> FileWeight(weights, f) <= largest
  }

  /** Any two partition totals differ by at most the largest file weight. */
  lemma TotalsAreClose(parts: seq<seq<string>>, files: seq<string>, weights: Weights, collate: Collation, m: nat,
                       largest: real, j: nat, k: nat)
    requires LongestFirstGreedy(parts, files, weights, collate, m) && NonNegativeWeights(weights)
    requires largest >= 0.0 && NoneHeavier(files, weights, largest)
    requires j < m && k < m
    ensures PartitionWeight(parts[j], weights) - PartitionWeight(parts[k], weights) <= largest
  {
    var sorted, w, c := ChoicesOf(parts, files, weights, collate, m);
    WeightsBounded(files, sorted, weights, largest);
    GapBound(w, c, m, |sorted|, largest, j, k);
  }

  lemma WeightsBounded(files: seq<string>, sorted: seq<string>, weights: Weights, largest: real)
    requires multiset(sorted) == multiset(files)
    requires NoneHeavier(files, weights, largest)
    ensures forall i :: 0 <= i < |sorted| ==> WeightsOf(weights, sorted)[i] <= largest
  {
    forall i | 0 <= i < |sorted| ensures WeightsOf(weights, sorted)[i] <= largest {
      assert sorted[i] in multiset(sorted);
      assert sorted[i] in multiset(files);
    }
  }

  /** m times the heaviest total is at most the weight of all files plus (m-1) times the largest file. */
  lemma HeaviestIsNearAverage(parts: seq<seq<string>>, files: seq<string>, weights: Weights, collate: Collation, m: nat,
                              largest: real, j: nat)
    requires LongestFirstGreedy(parts, files, weights, collate, m) && NonNegativeWeights(weights)
    requires largest >= 0.0 && NoneHeavier(files, weights, largest)
    requires j < m
    ensures NearAverage(m, PartitionWeight(parts[j], weights), PartitionWeight(files, weights), largest)
  {
    var sorted, w, c := ChoicesOf(parts, files, weights, collate, m);
    WeightsBounded(files, sorted, weights, largest);
    HeaviestBound(w, c, m, largest, j);
    TotalIsWeight(sorted, weights, |sorted|);
    assert sorted[..|sorted|] == sorted;
    WeightOfPermutation(sorted, files, weights);
    assert Total(w, |w|) == PartitionWeight(files, weights);
  }

  lemma {:induction false} TotalIsWeight(sorted: seq<string>, weights: Weights, n: nat)
    requires n <= |sorted|
    ensures Total(WeightsOf(weights, sorted), n) == PartitionWeight(sorted[..n], weights)
  {
    if n > 0 {
      TotalIsWeight(sorted, weights, n - 1);
      assert sorted[..n] == sorted[..n - 1] + [sorted[n - 1]];
      WeightSnoc(sorted[..n - 1], sorted[n - 1], weights);
    }
  }

  lemma {:induction false} WeightOfPermutation(a: seq<string>, b: seq<string>, weights: Weights)
    requires multiset(a) == multiset(b)
    ensures PartitionWeight(a, weights) == PartitionWeight(b, weights)
  {
    assert |multiset(a)| == |multiset(b)|;
    if a != [] {
      var front, x := a[..|a| - 1], a[|a| - 1];
      assert a == front + [x];
      assert x in multiset(b);
      var p :| 0 <= p < |b| && b[p] == x;
      WeightRemove(b, p, weights);
      CancelFile(multiset(Without(b, p)), multiset(front), multiset{}, x);
      WeightOfPermutation(front, Without(b, p), weights);
    }
  }

  /** Another way to split the same files into m partitions. */
  ghost predicate Splits(parts: seq<seq<string>>, files: seq<string>, m: nat) {
    |parts| == m && Contents(parts) == multiset(files)
  }

  ghost predicate EachWithin(parts: seq<seq<string>>, weights: Weights, limit: real) {
    forall k :: 0 <= k < |parts| ==> PartitionWeight(parts[k], weights) <= limit
  }

  /**
   Approximation: if some other split of the same files into m partitions keeps every total within `limit`, the
   scheduler keeps every total within (4/3 - 1/(3m)) of that limit.
   */
  lemma WithinFourThirdsOfAnySplit(parts: seq<seq<string>>, files: seq<string>, weights: Weights, collate: Collation,
                                   m: nat, other: seq<seq<string>>, limit: real, j: nat)
    requires LongestFirstGreedy(parts, files, weights, collate, m) && NonNegativeWeights(weights)
    requires Splits(other, files, m) && EachWithin(other, weights, limit) && j < m
    ensures WithinRatio(m, PartitionWeight(parts[j], weights), limit)
  {
    var sorted, w, c := ChoicesOf(parts, files, weights, collate, m);
    var a := SplitAsChoices(sorted, other, weights);
    forall k: nat | k < m ensures Load(w, a, k, |w|) <= limit {
      assert PartitionWeight(other[k], weights) <= limit;
    }
    LongestFirstRatio(w, c, a, m, |w|, j, limit);
  }
}
