/**
 The scheduler in terms of the recorded durations themselves: the order of placement, what a partition weighs, and the
 approximation bound for an inventory whose files all have a record.
 */
module RecordedDurations {
  import opened LoadBalance
  import opened PartitionScheduler
  import opened PartitionGuarantees

  /** A comparison of names by sign: opposite when exchanged, and transitive. */
  ghost predicate Collates(collate: Collation) {
    && (forall a, b :: collate(a, b) <= 0 <==> collate(b, a) >= 0)
    && forall a, b, c :: collate(a, b) <= 0 && collate(b, c) <= 0 ==> collate(a, c) <= 0
  }

  // ---------- The order of placement ----------

  ghost predicate InOrder(weights: Weights, collate: Collation, s: seq<string>) {
    forall i, k :: 0 <= i < k < |s| ==> Precedes(weights, collate, s[i], s[k])
  }

  lemma InOrderSnoc(weights: Weights, collate: Collation, front: seq<string>, last: string)
    ensures InOrder(weights, collate, front + [last]) <==>
              InOrder(weights, collate, front) && forall f :: f in front ==> Precedes(weights, collate, f, last)
  {
    var s := front + [last];
    if InOrder(weights, collate, s) {
      forall i, k | 0 <= i < k < |front| ensures Precedes(weights, collate, front[i], front[k]) {
        assert front[i] == s[i] && front[k] == s[k];
      }
      forall f | f in front ensures Precedes(weights, collate, f, last) {
        var i :| 0 <= i < |front| && front[i] == f;
        assert s[i] == f && s[|front|] == last;
      }
    }
  }

  lemma {:induction false} InsertKeepsOrder(weights: Weights, collate: Collation, sorted: seq<string>, x: string)
    requires Collates(collate) && InOrder(weights, collate, sorted)
    ensures InOrder(weights, collate, Insert(weights, collate, sorted, x))
  {
    if sorted != [] {
      var front, last := sorted[..|sorted| - 1], sorted[|sorted| - 1];
      assert sorted == front + [last];
      InOrderSnoc(weights, collate, front, last);
      if Precedes(weights, collate, last, x) {
        InOrderSnoc(weights, collate, sorted, x);
      } else {
        var r := Insert(weights, collate, front, x);
        InsertKeepsOrder(weights, collate, front, x);
        forall f | f in r ensures Precedes(weights, collate, f, last) {
          assert f in multiset(r);
          assert f == x || f in multiset(front);
        }
        InOrderSnoc(weights, collate, r, last);
      }
    }
  }

  lemma {:induction false} SortOrders(weights: Weights, collate: Collation, files: seq<string>)
    requires Collates(collate)
    ensures InOrder(weights, collate, LongestFirst(weights, collate, files))
  {
    if files != [] {
      var front := files[..|files| - 1];
      SortOrders(weights, collate, front);
      InsertKeepsOrder(weights, collate, LongestFirst(weights, collate, front), files[|files| - 1]);
    }
  }

  /** A file with a longer recorded duration is placed earlier; a file without a record is placed like one that took 1. */
  ghost predicate ByDuration(weights: Weights, earlier: string, later: string) {
    && (earlier in weights && later in weights ==> weights[earlier] >= weights[later])
    && (earlier in weights && later !in weights ==> weights[earlier] >= 1.0)
    && (earlier !in weights && later in weights ==> 1.0 >= weights[later])
  }

  /** Both are recorded with the same duration, neither is, or one is recorded with 1. */
  ghost predicate SameDuration(weights: Weights, a: string, b: string) {
    ByDuration(weights, a, b) && ByDuration(weights, b, a)
  }

  lemma PlacedByDuration(weights: Weights, collate: Collation, files: seq<string>, i: nat, k: nat)
    requires Collates(collate) && i < k < |LongestFirst(weights, collate, files)|
    ensures var s := LongestFirst(weights, collate, files);
      ByDuration(weights, s[i], s[k]) && (SameDuration(weights, s[i], s[k]) ==> collate(s[i], s[k]) <= 0)
  {
    SortOrders(weights, collate, files);
  }

  // ---------- Ties keep their order ----------

  /** The files that the order of placement does not tell from this one, as they stand. */
  ghost function TiedWith(weights: Weights, collate: Collation, files: seq<string>, f: string): seq<string> {
    if files == [] then []
    else
      var front, last := files[..|files| - 1], files[|files| - 1];
      TiedWith(weights, collate, front, f) + if SameDuration(weights, last, f) && collate(last, f) == 0 then [last] else []
  }

  lemma TiedSnoc(weights: Weights, collate: Collation, front: seq<string>, last: string, f: string)
    ensures TiedWith(weights, collate, front + [last], f) ==
      TiedWith(weights, collate, front, f) + if SameDuration(weights, last, f) && collate(last, f) == 0 then [last] else []
  {
    assert (front + [last])[..|front|] == front;
  }

  lemma {:induction false} InsertKeepsTies(weights: Weights, collate: Collation, sorted: seq<string>, x: string, f: string)
    requires Collates(collate)
    ensures TiedWith(weights, collate, Insert(weights, collate, sorted, x), f) == TiedWith(weights, collate, sorted + [x], f)
  {
    if sorted != [] {
      var front, last := sorted[..|sorted| - 1], sorted[|sorted| - 1];
      assert sorted == front + [last];
      if !Precedes(weights, collate, last, x) {
        InsertKeepsTies(weights, collate, front, x, f);
        TiedSnoc(weights, collate, Insert(weights, collate, front, x), last, f);
        TiedSnoc(weights, collate, front, last, f);
        TiedSnoc(weights, collate, front, x, f);
        TiedSnoc(weights, collate, sorted, x, f);
        NotBothTied(weights, collate, last, x, f);
      }
    }
  }

  lemma NotBothTied(weights: Weights, collate: Collation, last: string, x: string, f: string)
    requires Collates(collate) && !Precedes(weights, collate, last, x)
    ensures !(SameDuration(weights, last, f) && collate(last, f) == 0 && SameDuration(weights, x, f) && collate(x, f) == 0)
  {
    if collate(last, f) == 0 && collate(x, f) == 0 {
      assert collate(f, x) <= 0;
      assert collate(last, x) <= 0;
    }
  }

  /** The sort is stable: files that tie keep the order of the inventory. */
  lemma {:induction false} TiesKeepTheirOrder(weights: Weights, collate: Collation, files: seq<string>, f: string)
    requires Collates(collate)
    ensures TiedWith(weights, collate, LongestFirst(weights, collate, files), f) == TiedWith(weights, collate, files, f)
  {
    if files != [] {
      var front, last := files[..|files| - 1], files[|files| - 1];
      assert files == front + [last];
      TiesKeepTheirOrder(weights, collate, front, f);
      InsertKeepsTies(weights, collate, LongestFirst(weights, collate, front), last, f);
      TiedSnoc(weights, collate, LongestFirst(weights, collate, front), last, f);
      TiedSnoc(weights, collate, front, last, f);
    }
  }

  // ---------- What a partition weighs ----------

  /** Sum of the recorded durations, over the files that have one. */
  ghost function RecordedSum(weights: Weights, files: seq<string>): real {
    if files == [] then 0.0
    else
      var front, last := files[..|files| - 1], files[|files| - 1];
      RecordedSum(weights, front) + if last in weights then weights[last] else 0.0
  }

  ghost function UnrecordedCount(weights: Weights, files: seq<string>): nat {
    if files == [] then 0
    else
      var front, last := files[..|files| - 1], files[|files| - 1];
      UnrecordedCount(weights, front) + if last in weights then 0 else 1
  }

  /** A partition weighs what its files are recorded to take, and one for each file without a record. */
  lemma {:induction false} WeighsDurations(weights: Weights, files: seq<string>)
    ensures PartitionWeight(files, weights) == RecordedSum(weights, files) + UnrecordedCount(weights, files) as real
  {
    if files != [] {
      WeighsDurations(weights, files[..|files| - 1]);
    }
  }

  ghost predicate AllRecorded(weights: Weights, files: seq<string>) {
    forall f :: f in files ==> f in weights
  }

  lemma {:induction false} NoneUnrecorded(weights: Weights, files: seq<string>)
    requires AllRecorded(weights, files)
    ensures UnrecordedCount(weights, files) == 0
  {
    if files != [] {
      NoneUnrecorded(weights, files[..|files| - 1]);
    }
  }

  lemma PartIsRecorded(parts: seq<seq<string>>, files: seq<string>, weights: Weights, j: nat)
    requires Contents(parts) == multiset(files) && AllRecorded(weights, files) && j < |parts|
    ensures PartitionWeight(parts[j], weights) == RecordedSum(weights, parts[j])
  {
    PartWithin(parts, j);
    forall f | f in parts[j] ensures f in weights {
      assert f in multiset(parts[j]);
      assert f in multiset(files);
    }
    WeighsDurations(weights, parts[j]);
    NoneUnrecorded(weights, parts[j]);
  }

  /**
   If every file has a recorded duration, and some split of the files into m partitions keeps the sum of the durations in
   each within `limit`, every partition of the scheduler sums up to at most (4/3 - 1/(3m)) of that limit.
   */
  lemma RecordedWithinFourThirds(parts: seq<seq<string>>, files: seq<string>, weights: Weights, collate: Collation,
                                 m: nat, other: seq<seq<string>>, limit: real, j: nat)
    requires LongestFirstGreedy(parts, files, weights, collate, m) && NonNegativeWeights(weights) && AllRecorded(weights, files)
    requires Splits(other, files, m) && (forall k :: 0 <= k < m ==> RecordedSum(weights, other[k]) <= limit) && j < m
    ensures 3.0 * m as real * RecordedSum(weights, parts[j]) <= (4.0 * m as real - 1.0) * limit
  {
    forall k: nat | k < m ensures PartitionWeight(other[k], weights) <= limit {
      PartIsRecorded(other, files, weights, k);
    }
    FilesConserved(parts, files, weights, collate, m);
    PartIsRecorded(parts, files, weights, j);
    WithinFourThirdsOfAnySplit(parts, files, weights, collate, m, other, limit, j);
  }
}
