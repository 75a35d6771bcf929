/**
 The shared-counter worker pool: workers claim indices one at a time and run an asynchronous operation on each
 value. The scheduler below resumes any worker at any time; whether the pool succeeds, and with what, is the same for
 every schedule.
 */
module WorkerPool {
  import opened Outcomes

  /** A worker between two awaits: about to enter its loop, awaiting the operation on one index, or finished. */
  datatype Worker = Ready | Busy(index: nat) | Finished

  function Min(a: nat, b: nat): nat {
    if a < b then a else b
  }

  /** Undefined values among the first n; each ends the worker that claims it. */
  function Undefined<T>(values: seq<Option<T>>, n: nat): nat
    requires n <= |values|
  {
    if n == 0 then 0 else Undefined(values, n - 1) + if values[n - 1].None? then 1 else 0
  }

  /** How far the pool gets: past the undefined value that ends its last worker, or to the end. */
  function Reach<T>(values: seq<Option<T>>, workers: nat, n: nat): (r: nat)
    requires n <= |values| && Undefined(values, n) <= workers
    ensures n <= r <= |values|
    decreases |values| - n
  {
    if n == |values| || Undefined(values, n) == workers then n else Reach(values, workers, n + 1)
  }

  /** The operation, which is asynchronous, rejects the value at this index. */
  predicate Rejects<T, R, E>(values: seq<Option<T>>, op: T -> Result<R, E>, i: int) {
    0 <= i < |values| && values[i].Some? && op(values[i].value).Failure?
  }

  /** The operation's result at every index up to `reach` that holds a value it does not reject. */
  function Outcome<T, R, E>(values: seq<Option<T>>, op: T -> Result<R, E>, reach: nat): (r: map<nat, R>)
    requires reach <= |values|
  {
    map i: nat | 0 <= i < reach && values[i].Some? && op(values[i].value).Success? :: op(values[i].value).value
  }

  ghost predicate Running(workers: seq<Worker>, k: int, i: int) {
    0 <= k < |workers| && workers[k].Busy? && workers[k].index == i
  }

  function CountFinished(workers: seq<Worker>): nat {
    if workers == [] then 0
    else CountFinished(workers[..|workers| - 1]) + if workers[|workers| - 1].Finished? then 1 else 0
  }

  lemma {:induction false} FinishedUpdate(workers: seq<Worker>, k: nat, w: Worker)
    requires k < |workers| && !workers[k].Finished?
    ensures CountFinished(workers[k := w]) == CountFinished(workers) + if w.Finished? then 1 else 0
    ensures CountFinished(workers) < |workers|
  {
    var n := |workers| - 1;
    if k == n {
      assert workers[k := w][..n] == workers[..n];
      FinishedAtMost(workers[..n]);
    } else {
      FinishedUpdate(workers[..n], k, w);
      assert workers[k := w][..n] == workers[..n][k := w];
    }
  }

  lemma {:induction false} FinishedAtMost(workers: seq<Worker>)
    ensures CountFinished(workers) <= |workers|
    ensures CountFinished(workers) == |workers| <==> forall k :: 0 <= k < |workers| ==> workers[k].Finished?
  {
    if workers != [] {
      FinishedAtMost(workers[..|workers| - 1]);
    }
  }

  /**
   Every index below the counter was claimed once: it holds its result, or exactly one worker awaits it, or its value
   was undefined. A worker is finished only because of an undefined value, or because the counter is at the end.
   */
  ghost predicate Claimed<T, R, E>(values: seq<Option<T>>, op: T -> Result<R, E>, next: nat, results: map<nat, R>,
                                   workers: seq<Worker>) {
    && next <= |values|
    && (forall i :: i in results ==> i < next && values[i].Some? && op(values[i].value) == Success(results[i]))
    && (forall k, i :: Running(workers, k, i) ==> 0 <= i < next && values[i].Some? && i !in results)
    && (forall k, k', i :: Running(workers, k, i) && Running(workers, k', i) ==> k == k')
    && (forall i: nat :: i < next && values[i].Some? ==> i in results || exists k :: Running(workers, k, i))
  }

  ghost predicate Quits<T>(values: seq<Option<T>>, next: nat, workers: seq<Worker>)
    requires next <= |values|
  {
    && Undefined(values, next) <= CountFinished(workers)
    && (next < |values| ==> CountFinished(workers) == Undefined(values, next))
    && (next > 0 ==> Undefined(values, next - 1) < |workers|)
  }

  /**
   Resume one worker: store the awaited result if there is one, then run the loop up to the next await. The value
   claimed is awaited next, or ends the worker when it is undefined. If the awaited operation rejected, so does the
   worker, and nothing is stored or claimed.
   */
  method Resume<T, R, E>(values: seq<Option<T>>, op: T -> Result<R, E>, next: nat, results: map<nat, R>,
                         workers: seq<Worker>, k: nat)
    returns (rejection: Option<E>, next': nat, results': map<nat, R>, workers': seq<Worker>)
    requires k < |workers| && !workers[k].Finished?
    requires Claimed(values, op, next, results, workers) && Quits(values, next, workers)
    ensures rejection.Some? <==> workers[k].Busy? && Rejects(values, op, workers[k].index)
    ensures rejection.Some? ==> op(values[workers[k].index].value) == Failure(rejection.value)
    ensures rejection.Some? ==> workers[k].index < next && next' == next && results' == results && workers' == workers
    ensures Claimed(values, op, next', results', workers') && Quits(values, next', workers')
    ensures |workers'| == |workers| && next <= next' && results'.Keys >= results.Keys
    ensures workers' == workers[k := workers'[k]]
    ensures rejection.None? ==>
      |values| - next' + |workers'| - CountFinished(workers') < |values| - next + |workers| - CountFinished(workers)
  {
    rejection, next', results', workers' := None, next, results, workers;
    if workers[k].Busy? {
      var i := workers[k].index;
      assert Running(workers, k, i);
      var settled := op(values[i].value);
      if settled.Failure? {
        rejection := Some(settled.error);
        return;
      }
      results' := results[i := settled.value];
    }
    var resumed := Finished;
    if next < |values| {
      next' := next + 1;
      if values[next].Some? {
        resumed := Busy(next);
      }
    }
    workers' := workers[k := resumed];
    FinishedUpdate(workers, k, resumed);
    FinishedAtMost(workers');
    ResumeKeepsClaims(values, op, next, results, workers, k, next', results', workers');
  }

  lemma ResumeKeepsClaims<T, R, E>(values: seq<Option<T>>, op: T -> Result<R, E>, next: nat, results: map<nat, R>,
                                   workers: seq<Worker>, k: nat, next': nat, results': map<nat, R>, workers': seq<Worker>)
    requires k < |workers| && !workers[k].Finished? && Claimed(values, op, next, results, workers)
    requires next' == Min(next + 1, |values|)
    requires workers' == workers[k := if next < |values| && values[next].Some? then Busy(next) else Finished]
    requires workers[k].Busy? ==> Running(workers, k, workers[k].index)
    requires workers[k].Busy? ==> !Rejects(values, op, workers[k].index)
    requires workers[k].Busy? ==> results' == results[workers[k].index := op(values[workers[k].index].value).value]
    requires workers[k].Ready? ==> results' == results
    ensures Claimed(values, op, next', results', workers')
  {
    forall j, i | Running(workers', j, i) ensures 0 <= i < next' && values[i].Some? && i !in results' {
      if j != k {
        assert Running(workers, j, i);
      }
    }
    forall j, j', i | Running(workers', j, i) && Running(workers', j', i) ensures j == j' {
      if j != k {
        assert Running(workers, j, i);
      }
      if j' != k {
        assert Running(workers, j', i);
      }
    }
    forall i: nat | i < next' && values[i].Some? && i !in results' ensures exists j :: Running(workers', j, i) {
      if i == next {
        assert Running(workers', k, i);
      } else {
        var j :| Running(workers, j, i);
        assert Running(workers', j, i);
      }
    }
  }

  /** Indices whose operation is awaited. */
  function InFlight(workers: seq<Worker>): set<nat> {
    set k | 0 <= k < |workers| && workers[k].Busy? :: workers[k].index
  }

  lemma {:induction false} AtMostOnePerWorker(workers: seq<Worker>)
    ensures |InFlight(workers)| <= |workers|
  {
    if workers == [] {
      assert InFlight(workers) == {};
    } else {
      var front, last := workers[..|workers| - 1], workers[|workers| - 1];
      AtMostOnePerWorker(front);
      assert InFlight(workers) == InFlight(front) + if last.Busy? then {last.index} else {};
    }
  }

  /** One worker that has not finished was resumed. */
  ghost predicate Resumed(before: seq<Worker>, after: seq<Worker>) {
    exists k :: 0 <= k < |before| && !before[k].Finished? && |after| == |before| && after == before[k := after[k]]
  }

  /** What the workers did from the start until they stand like this, one worker resumed at a time. */
  ghost predicate Ran(history: seq<seq<Worker>>, count: nat, workers: seq<Worker>) {
    && history != [] && history[0] == seq(count, _ => Ready) && history[|history| - 1] == workers
    && forall i :: 0 <= i < |history| - 1 ==> Resumed(history[i], history[i + 1])
  }

  /** A run as far as it has come. */
  ghost predicate Begun(history: seq<seq<Worker>>, count: nat) {
    exists workers: seq<Worker> :: Ran(history, count, workers)
  }

  /** A whole run: every worker starts and finishes. */
  ghost predicate Schedule(history: seq<seq<Worker>>, count: nat) {
    exists workers: seq<Worker> :: Ran(history, count, workers) && forall w :: w in workers ==> w.Finished?
  }

  /** At no time are more operations in flight. */
  ghost predicate NeverMoreInFlight(history: seq<seq<Worker>>, jobs: nat) {
    forall workers :: workers in history ==> |InFlight(workers)| <= jobs
  }

  lemma HistoryStarts(workers: seq<Worker>, count: nat, jobs: nat)
    requires workers == seq(count, _ => Ready)
    ensures Ran([workers], count, workers) && NeverMoreInFlight([workers], jobs)
  {
    NoneFinished(workers);
    assert forall w :: w in [workers] ==> w == workers;
  }

  lemma HistoryGoesOn(history: seq<seq<Worker>>, count: nat, before: seq<Worker>, workers: seq<Worker>, jobs: nat)
    requires Ran(history, count, before) && Resumed(before, workers)
    requires NeverMoreInFlight(history, jobs) && |workers| <= jobs
    ensures Ran(history + [workers], count, workers) && NeverMoreInFlight(history + [workers], jobs)
  {
    AtMostOnePerWorker(workers);
    assert forall w :: w in history + [workers] ==> w in history || w == workers;
  }

  /** No value that the pool reaches is rejected. */
  ghost predicate NoneRejected<T, R, E>(values: seq<Option<T>>, op: T -> Result<R, E>, reach: nat) {
    forall i :: 0 <= i < reach ==> !Rejects(values, op, i)
  }

  /**
   Run the pool until every worker has finished or one rejects. Which worker is resumed next is left open, so the
   postcondition holds for every interleaving: exactly the values before the reach of the pool are mapped, each to its
   own result, unless one of them is rejected; then the pool rejects with the error of such a value. No more than
   `jobs` operations are ever in flight.
   */
  method MapConcurrent<T, R, E>(values: seq<Option<T>>, jobs: nat, op: T -> Result<R, E>)
    returns (r: Result<map<nat, R>, E>, ghost history: seq<seq<Worker>>)
    ensures var reach := Reach(values, Min(jobs, |values|), 0);
      && (r.Success? <==> NoneRejected(values, op, reach))
      && (r.Success? ==> r.value == Outcome(values, op, reach))
      && (r.Failure? ==> exists i :: 0 <= i < reach && Rejects(values, op, i) && op(values[i].value).error == r.error)
    ensures if r.Success? then Schedule(history, Min(jobs, |values|)) else Begun(history, Min(jobs, |values|))
    ensures NeverMoreInFlight(history, jobs)
  {
    var results: map<nat, R>, next, workers := map[], 0, seq(Min(jobs, |values|), _ => Ready);
    NoneFinished(workers);
    history := [workers];
    HistoryStarts(workers, |workers|, jobs);
    while exists k | 0 <= k < |workers| :: !workers[k].Finished?
      invariant |workers| == Min(jobs, |values|)
      invariant Claimed(values, op, next, results, workers) && Quits(values, next, workers)
      invariant Ran(history, |workers|, workers) && NeverMoreInFlight(history, jobs)
      decreases |values| - next + |workers| - CountFinished(workers)
    {
      var k :| 0 <= k < |workers| && !workers[k].Finished?;
      FinishedUpdate(workers, k, Ready);
      ghost var before := workers;
      var rejection;
      rejection, next, results, workers := Resume(values, op, next, results, workers, k);
      if rejection.Some? {
        ClaimedIsReached(values, next, |workers|, before[k].index);
        return Failure(rejection.value), history;
      }
      assert Resumed(before, workers);
      HistoryGoesOn(history, |workers|, before, workers, jobs);
      history := history + [workers];
      FinishedAtMost(workers);
    }
    FinishedAtMost(workers);
    ReachIsNext(values, next, |workers|, 0);
    forall i: nat | i < next && values[i].Some? ensures i in results {
      assert !exists k :: Running(workers, k, i);
    }
    assert results == Outcome(values, op, next);
    r := Success(results);
  }

  /** A value that a worker has claimed lies before the reach of the pool. */
  lemma ClaimedIsReached<T>(values: seq<Option<T>>, next: nat, workers: nat, i: nat)
    requires i < next <= |values| && Undefined(values, next - 1) < workers
    ensures i < Reach(values, workers, 0)
  {
    UndefinedGrows(values, i, next - 1);
    ReachCovers(values, workers, 0, i);
  }

  lemma {:induction false} NoneFinished(workers: seq<Worker>)
    requires forall k :: 0 <= k < |workers| ==> workers[k] == Ready
    ensures CountFinished(workers) == 0 && InFlight(workers) == {}
  {
    if workers != [] {
      NoneFinished(workers[..|workers| - 1]);
    }
  }

  lemma {:induction false} UndefinedGrows<T>(values: seq<Option<T>>, n: nat, n': nat)
    requires n <= n' <= |values|
    ensures Undefined(values, n) <= Undefined(values, n')
  {
    if n < n' {
      UndefinedGrows(values, n, n' - 1);
    }
  }

  /** When every worker has finished, the counter stands exactly at the reach of the pool. */
  lemma {:induction false} ReachIsNext<T>(values: seq<Option<T>>, next: nat, workers: nat, from: nat)
    requires from <= next <= |values|
    requires Undefined(values, next) <= workers
    requires next < |values| ==> Undefined(values, next) == workers
    requires next > 0 ==> Undefined(values, next - 1) < workers
    ensures Undefined(values, from) <= workers && Reach(values, workers, from) == next
    decreases next - from
  {
    UndefinedGrows(values, from, next);
    if from < next {
      UndefinedGrows(values, from, next - 1);
      ReachIsNext(values, next, workers, from + 1);
    }
  }

  /** Exactly when is every value mapped: no value may come after as many undefined ones as there are workers. */
  lemma {:induction false} ReachCovers<T>(values: seq<Option<T>>, workers: nat, from: nat, i: nat)
    requires from <= i < |values| && Undefined(values, from) <= workers
    ensures i < Reach(values, workers, from) <==> Undefined(values, i) < workers
    decreases i - from
  {
    if Undefined(values, from) == workers {
      UndefinedGrows(values, from, i);
    } else if from < i {
      ReachCovers(values, workers, from + 1, i);
    }
  }

  /**
   In the script's use no value is undefined: as soon as one job is allowed, the pool reaches every value, and maps
   each to its own result when none is rejected.
   */
  lemma EveryValueMapped<T, R, E>(values: seq<Option<T>>, jobs: nat, op: T -> Result<R, E>)
    requires jobs > 0 && forall i :: 0 <= i < |values| ==> values[i].Some?
    ensures var reach := Reach(values, Min(jobs, |values|), 0);
      && reach == |values|
      && (NoneRejected(values, op, reach) ==> var results := Outcome(values, op, reach);
           && (forall i :: i in results <==> 0 <= i < |values|)
           && forall i :: 0 <= i < |values| ==> op(values[i].value) == Success(results[i]))
  {
    var workers := Min(jobs, |values|);
    var reach := Reach(values, workers, 0);
    if |values| > 0 {
      NoneUndefined(values, |values| - 1);
      ReachCovers(values, workers, 0, |values| - 1);
    }
    if NoneRejected(values, op, |values|) {
      forall i | 0 <= i < |values| ensures op(values[i].value).Success? {
        assert !Rejects(values, op, i);
      }
    }
  }

  lemma {:induction false} NoneUndefined<T>(values: seq<Option<T>>, n: nat)
    requires n <= |values| && forall i :: 0 <= i < |values| ==> values[i].Some?
    ensures Undefined(values, n) == 0
  {
    if n > 0 {
      NoneUndefined(values, n - 1);
    }
  }
}
