/**
 List scheduling of weighted jobs onto identical machines, on job indices: `c[i]` is the machine of job `i`.
 The longest-first greedy rule of the coverage scheduler is stated here without buckets or heaps, and its
 balance, coverage and approximation guarantees are proved against every other assignment.
 */
module LoadBalance {

  /** Total weight of the first n jobs. */
  ghost function Total(w: seq<real>, n: nat): real
    requires n <= |w|
  {
    if n == 0 then 0.0 else Total(w, n - 1) + w[n - 1]
  }

  /** Weight that machine j carries once the first n jobs are placed. */
  ghost function Load(w: seq<real>, c: seq<nat>, j: nat, n: nat): real
    requires n <= |w| && n <= |c|
  {
    if n == 0 then 0.0 else Load(w, c, j, n - 1) + if c[n - 1] == j then w[n - 1] else 0.0
  }

  /** Number of jobs on machine j once the first n jobs are placed. */
  ghost function Count(c: seq<nat>, j: nat, n: nat): nat
    requires n <= |c|
  {
    if n == 0 then 0 else Count(c, j, n - 1) + if c[n - 1] == j then 1 else 0
  }

  ghost predicate NonNegative(w: seq<real>) {
    forall i :: 0 <= i < |w| ==> w[i] >= 0.0
  }

  ghost predicate Descending(w: seq<real>) {
    forall i, k :: 0 <= i <= k < |w| ==> w[i] >= w[k]
  }

  ghost predicate OnMachines(c: seq<nat>, m: nat) {
    forall i :: 0 <= i < |c| ==> c[i] < m
  }

  /** Once the first n jobs are placed, no machine carries more than the limit. */
  ghost predicate Within(w: seq<real>, c: seq<nat>, m: nat, n: nat, limit: real)
    requires n <= |w| && n <= |c|
  {
    forall j: nat :: j < m ==> Load(w, c, j, n) <= limit
  }

  /** The load is at most (4m-1)/(3m), that is 4/3 - 1/(3m), of the limit. */
  ghost predicate WithinRatio(m: nat, load: real, limit: real) {
    3.0 * m as real * load <= (4.0 * m as real - 1.0) * limit
  }

  /** m times the load is at most the total plus (m-1) times the largest weight. */
  ghost predicate NearAverage(m: nat, load: real, total: real, largest: real) {
    m as real * load <= total + (m - 1) as real * largest
  }

  /** The bucket order of the scheduler: lighter first, fewer files on a tie. */
  predicate AtMost(sum0: real, count0: nat, sum1: real, count1: nat) {
    sum0 < sum1 || (sum0 == sum1 && count0 <= count1)
  }

  /** Machine k is a least one in the bucket order after n placements. */
  ghost predicate LeastLoaded(w: seq<real>, c: seq<nat>, m: nat, n: nat, k: nat)
    requires n <= |w| && n <= |c|
  {
    && k < m
    && forall j: nat :: j < m ==> AtMost(Load(w, c, k, n), Count(c, k, n), Load(w, c, j, n), Count(c, j, n))
  }

  /** Every job goes to a machine that is least loaded at that moment. */
  ghost predicate Greedy(w: seq<real>, c: seq<nat>, m: nat) {
    && |c| == |w|
    && forall i :: 0 <= i < |c| ==> LeastLoaded(w, c, m, i, c[i])
  }

  // ---------- Basic facts about loads ----------

  lemma {:induction false} LoadIgnoresLater(w: seq<real>, c: seq<nat>, c': seq<nat>, j: nat, n: nat)
    requires n <= |w| && n <= |c| && n <= |c'|
    requires c[..n] == c'[..n]
    ensures Load(w, c, j, n) == Load(w, c', j, n) && Count(c, j, n) == Count(c', j, n)
  {
    if n > 0 {
      assert c[n - 1] == c[..n][n - 1] == c'[..n][n - 1] == c'[n - 1];
      assert c[..n - 1] == c[..n][..n - 1] == c'[..n][..n - 1] == c'[..n - 1];
      LoadIgnoresLater(w, c, c', j, n - 1);
    }
  }

  lemma {:induction false} LoadGrows(w: seq<real>, c: seq<nat>, j: nat, n: nat, n': nat)
    requires n <= n' <= |w| && n' <= |c| && NonNegative(w)
    ensures 0.0 <= Load(w, c, j, n) <= Load(w, c, j, n')
    decreases n' + n
  {
    if n < n' {
      LoadGrows(w, c, j, n, n' - 1);
    } else if n > 0 {
      LoadGrows(w, c, j, n - 1, n - 1);
    }
  }

  /** A machine's load is at least the weight of any one or two of its jobs. */
  lemma {:induction false} LoadHoldsPair(w: seq<real>, c: seq<nat>, n: nat, i: nat, k: nat)
    requires i < k < n <= |w| && n <= |c| && NonNegative(w) && c[i] == c[k]
    ensures Load(w, c, c[i], n) >= w[i] + w[k]
  {
    LoadGrows(w, c, c[i], i + 1, k);
    LoadGrows(w, c, c[i], i, i);
    LoadGrows(w, c, c[i], k + 1, n);
  }

  lemma {:induction false} LoadHoldsJob(w: seq<real>, c: seq<nat>, n: nat, i: nat)
    requires i < n <= |w| && n <= |c| && NonNegative(w)
    ensures Load(w, c, c[i], n) >= w[i]
  {
    LoadGrows(w, c, c[i], i, i);
    LoadGrows(w, c, c[i], i + 1, n);
  }

  /** A machine with no job carries nothing; one with a single job carries exactly that job. */
  lemma {:induction false} FewJobs(w: seq<real>, c: seq<nat>, j: nat, n: nat) returns (i: nat)
    requires n <= |w| && n <= |c| && Count(c, j, n) <= 1
    ensures Count(c, j, n) == 0 ==> Load(w, c, j, n) == 0.0
    ensures Count(c, j, n) == 1 ==> i < n && c[i] == j && Load(w, c, j, n) == w[i]
  {
    i := 0;
    if n > 0 {
      i := FewJobs(w, c, j, n - 1);
      if c[n - 1] == j {
        i := n - 1;
      }
    }
  }

  /** Two different jobs of one machine are counted twice, and a machine counted twice has two jobs. */
  lemma {:induction false} TwoJobsCount(c: seq<nat>, n: nat, i: nat, k: nat)
    requires i < k < n <= |c| && c[i] == c[k]
    ensures Count(c, c[i], n) >= 2
  {
    if k == n - 1 {
      OneJobCounts(c, n - 1, i);
    } else {
      TwoJobsCount(c, n - 1, i, k);
    }
  }

  lemma {:induction false} OneJobCounts(c: seq<nat>, n: nat, i: nat)
    requires i < n <= |c|
    ensures Count(c, c[i], n) >= 1
  {
    if i < n - 1 {
      OneJobCounts(c, n - 1, i);
    }
  }

  lemma {:induction false} CountedTwice(c: seq<nat>, j: nat, n: nat) returns (i: nat, k: nat)
    requires n <= |c| && Count(c, j, n) >= 2
    ensures i < k < n && c[i] == c[k] == j
  {
    if c[n - 1] == j {
      k := n - 1;
      i := Counted(c, j, n - 1);
    } else {
      i, k := CountedTwice(c, j, n - 1);
    }
  }

  lemma {:induction false} Counted(c: seq<nat>, j: nat, n: nat) returns (i: nat)
    requires n <= |c| && Count(c, j, n) >= 1
    ensures i < n && c[i] == j
  {
    if c[n - 1] == j {
      i := n - 1;
    } else {
      i := Counted(c, j, n - 1);
    }
  }

  // ---------- Sums over machines ----------

  ghost function LoadSum(w: seq<real>, c: seq<nat>, m: nat, n: nat): real
    requires n <= |w| && n <= |c|
  {
    if m == 0 then 0.0 else LoadSum(w, c, m - 1, n) + Load(w, c, m - 1, n)
  }

  ghost function CountSum(c: seq<nat>, m: nat, n: nat): nat
    requires n <= |c|
  {
    if m == 0 then 0 else CountSum(c, m - 1, n) + Count(c, m - 1, n)
  }

  /** Placing one more job adds its weight, and one unit of count, to the machines up to its own. */
  lemma {:induction false} SumStep(w: seq<real>, c: seq<nat>, m: nat, n: nat)
    requires n < |w| && n < |c|
    ensures LoadSum(w, c, m, n + 1) == LoadSum(w, c, m, n) + if c[n] < m then w[n] else 0.0
    ensures CountSum(c, m, n + 1) == CountSum(c, m, n) + if c[n] < m then 1 else 0
  {
    if m > 0 {
      SumStep(w, c, m - 1, n);
    }
  }

  lemma {:induction false} SumZero(w: seq<real>, c: seq<nat>, m: nat)
    ensures LoadSum(w, c, m, 0) == 0.0 && CountSum(c, m, 0) == 0
  {
    if m > 0 {
      SumZero(w, c, m - 1);
    }
  }

  /** Conservation: the machines together carry every job exactly once. */
  lemma {:induction false} SumsConserved(w: seq<real>, c: seq<nat>, m: nat, n: nat)
    requires n <= |w| && n <= |c| && OnMachines(c, m)
    ensures LoadSum(w, c, m, n) == Total(w, n) && CountSum(c, m, n) == n
  {
    if n == 0 {
      SumZero(w, c, m);
    } else {
      SumsConserved(w, c, m, n - 1);
      SumStep(w, c, m, n - 1);
    }
  }

  lemma {:induction false} LoadSumAtLeast(w: seq<real>, c: seq<nat>, m: nat, n: nat, low: real)
    requires n <= |w| && n <= |c|
    requires forall j: nat :: j < m ==> Load(w, c, j, n) >= low
    ensures LoadSum(w, c, m, n) >= m as real * low
  {
    if m > 0 {
      LoadSumAtLeast(w, c, m - 1, n, low);
      assert m as real * low == (m - 1) as real * low + low;
    }
  }

  lemma {:induction false} LoadSumAtMost(w: seq<real>, c: seq<nat>, m: nat, n: nat, high: real)
    requires n <= |w| && n <= |c|
    requires Within(w, c, m, n, high)
    ensures LoadSum(w, c, m, n) <= m as real * high
  {
    if m > 0 {
      LoadSumAtMost(w, c, m - 1, n, high);
      assert m as real * high == (m - 1) as real * high + high;
    }
  }

  // ---------- The counting argument ----------

  /** Machines below m that hold exactly one of the first n jobs. */
  ghost function Singles(c: seq<nat>, m: nat, n: nat): (s: set<nat>)
    requires n <= |c|
  {
    set j: nat | j < m && Count(c, j, n) == 1
  }

  /** When no machine is empty, machines that hold only one job leave room for the count. */
  lemma {:induction false} ManyJobs(c: seq<nat>, m: nat, n: nat)
    requires n <= |c|
    requires forall j: nat :: j < m ==> Count(c, j, n) >= 1
    ensures CountSum(c, m, n) + |Singles(c, m, n)| >= 2 * m
  {
    if m > 0 {
      ManyJobs(c, m - 1, n);
      SinglesStep(c, m, n);
    } else {
      assert Singles(c, m, n) == {};
    }
  }

  /** When no machine holds more than two jobs, single-job machines lower the count. */
  lemma {:induction false} AtMostPairs(c: seq<nat>, m: nat, n: nat)
    requires n <= |c|
    requires forall j: nat :: j < m ==> Count(c, j, n) <= 2
    ensures CountSum(c, m, n) + |Singles(c, m, n)| <= 2 * m
  {
    if m > 0 {
      AtMostPairs(c, m - 1, n);
      SinglesStep(c, m, n);
    } else {
      assert Singles(c, m, n) == {};
    }
  }

  lemma {:induction false} SinglesStep(c: seq<nat>, m: nat, n: nat)
    requires 0 < m && n <= |c|
    ensures |Singles(c, m, n)| == |Singles(c, m - 1, n)| + if Count(c, m - 1, n) == 1 then 1 else 0
  {
    var small := Singles(c, m - 1, n);
    if Count(c, m - 1, n) == 1 {
      assert Singles(c, m, n) == small + {m - 1};
    } else {
      assert Singles(c, m, n) == small;
    }
  }

  /** A set that maps injectively into another is no larger. */
  lemma {:induction false} InjectionBound(s: set<nat>, t: set<nat>, f: map<nat, nat>)
    requires s <= f.Keys
    requires forall x :: x in s ==> f[x] in t
    requires forall x, y :: x in s && y in s && f[x] == f[y] ==> x == y
    ensures |s| <= |t|
  {
    if s != {} {
      var x :| x in s;
      InjectionBound(s - {x}, t - {f[x]}, f);
    }
  }

  /**
   If each of the first n+1 jobs weighs more than a third of T and some assignment `a` keeps every machine
   within T, then not every machine of `c` can be too full for job n.
   */
  lemma {:induction false} HeavyJobsFit(w: seq<real>, c: seq<nat>, a: seq<nat>, m: nat, n: nat, limit: real)
    requires n < |w| && |a| == |w| && n <= |c| && NonNegative(w) && Descending(w)
    requires OnMachines(a, m) && OnMachines(c, m)
    requires Within(w, a, m, n + 1, limit)
    requires 3.0 * w[n] > limit
    ensures exists j: nat :: j < m && Load(w, c, j, n) + w[n] <= limit
  {
    if forall j: nat :: j < m ==> Load(w, c, j, n) + w[n] > limit {
      LoadHoldsJob(w, a, n + 1, n);
      forall j: nat | j < m ensures Count(c, j, n) >= 1 {
        if Count(c, j, n) == 0 {
          var _ := FewJobs(w, c, j, n);
        }
      }
      var n' := n + 1;
      forall j: nat | j < m ensures Count(a, j, n') <= 2 {
        HeavyPairsOnly(w, a, j, n, limit);
      }
      ManyJobs(c, m, n);
      AtMostPairs(a, m, n + 1);
      SumsConserved(w, c, m, n);
      SumsConserved(w, a, m, n + 1);
      SinglesStaySingle(w, c, a, m, n, limit);
      assert false;
    }
  }

  /** Three jobs heavier than a third of the limit do not share a machine within the limit. */
  lemma {:induction false} HeavyPairsOnly(w: seq<real>, a: seq<nat>, j: nat, n: nat, limit: real)
    requires n < |w| && |a| == |w| && NonNegative(w) && Descending(w)
    requires Load(w, a, j, n + 1) <= limit && 3.0 * w[n] > limit
    ensures Count(a, j, n + 1) <= 2
  {
    var k := Count(a, j, n + 1);
    HeavyCount(w, a, j, n + 1, w[n]);
    Scale(if k <= 2 then k as real else 3.0, k as real, w[n]);
  }

  lemma {:induction false} HeavyCount(w: seq<real>, a: seq<nat>, j: nat, n: nat, low: real)
    requires n <= |w| && n <= |a|
    requires forall i :: 0 <= i < n ==> w[i] >= low
    ensures Load(w, a, j, n) >= Count(a, j, n) as real * low
  {
    if n > 0 {
      HeavyCount(w, a, j, n - 1, low);
      if a[n - 1] == j {
        assert Count(a, j, n) as real * low == Count(a, j, n - 1) as real * low + low;
      }
    }
  }

  /** A job that is alone in `c`, on a machine too full for job n, is alone in `a` as well. */
  lemma {:induction false} SinglesStaySingle(w: seq<real>, c: seq<nat>, a: seq<nat>, m: nat, n: nat, limit: real)
    requires n < |w| && |a| == |w| && n <= |c| && NonNegative(w) && Descending(w)
    requires OnMachines(a, m) && OnMachines(c, m)
    requires Within(w, a, m, n + 1, limit)
    requires forall j: nat :: j < m ==> Load(w, c, j, n) + w[n] > limit
    ensures |Singles(c, m, n)| <= |Singles(a, m, n + 1)|
  {
    var s := Singles(c, m, n);
    forall j | j in s
      ensures exists i: nat :: i < n && c[i] == j && Count(a, a[i], n + 1) == 1
    {
      var i := FewJobs(w, c, j, n);
      OneJobCounts(a, n + 1, i);
      if Count(a, a[i], n + 1) >= 2 {
        var k, k' := CountedTwice(a, a[i], n + 1);
        var other := if k == i then k' else k;
        LoadHoldsPair(w, a, n + 1, if other < i then other else i, if other < i then i else other);
        assert false;
      }
    }
    var job := map j | j in s :: var i: nat :| i < n && c[i] == j && Count(a, a[i], n + 1) == 1; i;
    var f := map j | j in s :: a[job[j]];
    forall x, y | x in s && y in s && f[x] == f[y] ensures x == y {
      if job[x] < job[y] {
        TwoJobsCount(a, n + 1, job[x], job[y]);
      } else if job[y] < job[x] {
        TwoJobsCount(a, n + 1, job[y], job[x]);
      }
    }
    InjectionBound(s, Singles(a, m, n + 1), f);
  }

  // ---------- Main theorems about the greedy rule ----------

  lemma GreedyOnMachines(w: seq<real>, c: seq<nat>, m: nat)
    requires Greedy(w, c, m)
    ensures OnMachines(c, m)
  {
    forall i | 0 <= i < |c| ensures c[i] < m {
      assert LeastLoaded(w, c, m, i, c[i]);
    }
  }

  /** An assignment within the limit stays within it on every prefix of the jobs. */
  lemma {:induction false} WithinPrefix(w: seq<real>, a: seq<nat>, m: nat, n: nat, limit: real)
    requires |a| == |w| && NonNegative(w) && OnMachines(a, m) && 0 < n <= |w|
    requires Within(w, a, m, |w|, limit)
    ensures Within(w, a, m, n, limit) && w[n - 1] <= limit
  {
    forall j: nat | j < m ensures Load(w, a, j, n) <= limit {
      LoadGrows(w, a, j, n, |w|);
    }
    LoadHoldsJob(w, a, n, n - 1);
  }

  /** Averaging: the least machine and the job after it share what the limit allows on all machines. */
  lemma {:induction false} AverageBound(w: seq<real>, c: seq<nat>, a: seq<nat>, m: nat, n: nat, least: real, limit: real)
    requires n < |w| && |a| == |w| && n <= |c| && OnMachines(c, m) && OnMachines(a, m)
    requires Within(w, a, m, n + 1, limit)
    requires forall j: nat :: j < m ==> Load(w, c, j, n) >= least
    ensures m as real * least + w[n] <= m as real * limit
  {
    LoadSumAtLeast(w, c, m, n, least);
    SumsConserved(w, c, m, n);
    LoadSumAtMost(w, a, m, n + 1, limit);
    SumsConserved(w, a, m, n + 1);
  }

  /** One placement: the receiving machine stays within (4m-1)/(3m) of any achievable limit. */
  lemma {:induction false} PlacementBound(w: seq<real>, c: seq<nat>, a: seq<nat>, m: nat, n: nat, limit: real)
    requires Greedy(w, c, m) && |a| == |w| && NonNegative(w) && Descending(w) && OnMachines(a, m)
    requires n < |w| && Within(w, a, m, |w|, limit)
    ensures WithinRatio(m, Load(w, c, c[n], n) + w[n], limit)
  {
    GreedyOnMachines(w, c, m);
    assert LeastLoaded(w, c, m, n, c[n]);
    var least := Load(w, c, c[n], n);
    assert forall j: nat :: j < m ==> Load(w, c, j, n) >= least;
    WithinPrefix(w, a, m, n + 1, limit);
    if 3.0 * w[n] <= limit {
      AverageBound(w, c, a, m, n, least, limit);
      LightArithmetic(m as real, least, w[n], limit);
    } else {
      HeavyJobsFit(w, c, a, m, n, limit);
      HeavyArithmetic(m as real, least + w[n], limit);
    }
  }

  lemma Scale(x: real, y: real, v: real)
    requires x <= y && v >= 0.0
    ensures x * v <= y * v
  {
  }

  lemma LightArithmetic(x: real, least: real, v: real, limit: real)
    requires x >= 1.0 && v >= 0.0 && 3.0 * v <= limit && x * least + v <= x * limit
    ensures 3.0 * x * (least + v) <= (4.0 * x - 1.0) * limit
  {
    assert x * (least + v) == x * least + x * v;
    assert (x - 1.0) * (3.0 * v) <= (x - 1.0) * limit;
    assert 3.0 * (x * v) - 3.0 * v <= x * limit - limit;
  }

  lemma HeavyArithmetic(x: real, load: real, limit: real)
    requires x >= 1.0 && limit >= 0.0 && load <= limit
    ensures 3.0 * x * load <= (4.0 * x - 1.0) * limit
  {
    assert 3.0 * x * load <= 3.0 * x * limit;
    assert (x - 1.0) * limit >= 0.0;
  }

  /**
   Longest-first greedy is a 4/3 - 1/(3m) approximation: whatever limit another assignment of the same jobs
   keeps on every machine, no greedy machine exceeds (4m-1)/(3m) of it.
   */
  lemma {:induction false} LongestFirstRatio(w: seq<real>, c: seq<nat>, a: seq<nat>, m: nat, n: nat, j: nat, limit: real)
    requires Greedy(w, c, m) && |a| == |w| && NonNegative(w) && Descending(w) && OnMachines(a, m)
    requires n <= |w| && j < m
    requires Within(w, a, m, |w|, limit)
    ensures WithinRatio(m, Load(w, c, j, n), limit)
  {
    if n == 0 {
      LoadGrows(w, a, j, 0, |w|);
      HeavyArithmetic(m as real, 0.0, limit);
    } else {
      LongestFirstRatio(w, c, a, m, n - 1, j, limit);
      PlacementBound(w, c, a, m, n - 1, limit);
    }
  }

  /** Any two machines differ by at most the largest weight placed so far. */
  lemma {:induction false} GapBound(w: seq<real>, c: seq<nat>, m: nat, n: nat, largest: real, j: nat, k: nat)
    requires Greedy(w, c, m) && NonNegative(w) && n <= |w| && j < m && k < m
    requires largest >= 0.0 && forall i :: 0 <= i < n ==> w[i] <= largest
    ensures Load(w, c, j, n) - Load(w, c, k, n) <= largest
  {
    if n > 0 {
      assert LeastLoaded(w, c, m, n - 1, c[n - 1]);
      assert AtMost(Load(w, c, c[n - 1], n - 1), Count(c, c[n - 1], n - 1), Load(w, c, k, n - 1), Count(c, k, n - 1));
      GapBound(w, c, m, n - 1, largest, j, k);
    }
  }

  /** m times the heaviest machine is at most the total plus (m-1) times the largest weight. */
  lemma {:induction false} HeaviestBound(w: seq<real>, c: seq<nat>, m: nat, largest: real, j: nat)
    requires Greedy(w, c, m) && NonNegative(w) && j < m
    requires largest >= 0.0 && forall i :: 0 <= i < |w| ==> w[i] <= largest
    ensures NearAverage(m, Load(w, c, j, |w|), Total(w, |w|), largest)
  {
    GreedyOnMachines(w, c, m);
    SumsConserved(w, c, m, |w|);
    var top := Load(w, c, j, |w|);
    forall k: nat | k < m ensures Load(w, c, k, |w|) >= top - largest {
      GapBound(w, c, m, |w|, largest, j, k);
    }
    LoadSumExcept(w, c, m, |w|, top - largest, j);
    assert (m - 1) as real * (top - largest) == (m - 1) as real * top - (m - 1) as real * largest;
    assert m as real * top == (m - 1) as real * top + top;
  }

  lemma {:induction false} LoadSumExcept(w: seq<real>, c: seq<nat>, m: nat, n: nat, low: real, j: nat)
    requires n <= |w| && n <= |c| && j < m
    requires forall k: nat :: k < m ==> Load(w, c, k, n) >= low
    ensures LoadSum(w, c, m, n) >= (m - 1) as real * low + Load(w, c, j, n)
  {
    if j == m - 1 {
      LoadSumAtLeast(w, c, m - 1, n, low);
    } else {
      LoadSumExcept(w, c, m - 1, n, low, j);
      assert (m - 1) as real * low == (m - 2) as real * low + low;
    }
  }

  /** While an empty machine exists, the next job goes to an empty machine, so m jobs fill all m machines. */
  lemma {:induction false} NoMachineEmpty(w: seq<real>, c: seq<nat>, m: nat, j: nat)
    requires Greedy(w, c, m) && NonNegative(w) && m <= |w| && j < m
    ensures Count(c, j, |w|) >= 1
  {
    GreedyOnMachines(w, c, m);
    if Count(c, j, |w|) == 0 {
      EmptyMachineFillsOthers(w, c, m, j, |w|);
      SumsConserved(w, c, m, |w|);
      CountSumAtMost(c, m, |w|, j);
    }
  }

  lemma {:induction false} EmptyMachineFillsOthers(w: seq<real>, c: seq<nat>, m: nat, j: nat, n: nat)
    requires Greedy(w, c, m) && NonNegative(w) && n <= |w| && j < m && Count(c, j, n) == 0
    ensures forall k: nat :: k < m ==> Count(c, k, n) <= 1
  {
    if n > 0 {
      EmptyMachineFillsOthers(w, c, m, j, n - 1);
      var k := c[n - 1];
      assert LeastLoaded(w, c, m, n - 1, k);
      assert AtMost(Load(w, c, k, n - 1), Count(c, k, n - 1), Load(w, c, j, n - 1), Count(c, j, n - 1));
      var _ := FewJobs(w, c, j, n - 1);
      LoadGrows(w, c, k, n - 1, n - 1);
    }
  }

  lemma {:induction false} CountSumAtMost(c: seq<nat>, m: nat, n: nat, j: nat)
    requires n <= |c| && j < m && Count(c, j, n) == 0
    requires forall k: nat :: k < m ==> Count(c, k, n) <= 1
    ensures CountSum(c, m, n) <= m - 1
  {
    if j == m - 1 {
      CountSumBound(c, m - 1, n);
    } else {
      CountSumAtMost(c, m - 1, n, j);
    }
  }

  lemma {:induction false} CountSumBound(c: seq<nat>, m: nat, n: nat)
    requires n <= |c| && forall k: nat :: k < m ==> Count(c, k, n) <= 1
    ensures CountSum(c, m, n) <= m
  {
    if m > 0 {
      CountSumBound(c, m - 1, n);
    }
  }
}
