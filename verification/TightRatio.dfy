/**
 The bound of the longest-first rule is exact: for every number m of machines there are 2m+1 jobs that it puts at
 4m-1 where 3m is possible.
 */
module TightRatio {
  import opened LoadBalance

  /** 2m-1, 2m-1, 2m-2, 2m-2, ..., m, m, and m once more. */
  function Weight(m: nat, i: nat): nat
    requires i <= 2 * m
  {
    if i < 2 * m then 2 * m - 1 - i / 2 else m
  }

  function Weights(m: nat): (w: seq<real>)
    ensures |w| == 2 * m + 1 && forall i :: 0 <= i < |w| ==> w[i] == Weight(m, i) as real
  {
    seq(2 * m + 1, i requires 0 <= i <= 2 * m => Weight(m, i) as real)
  }

  /** One job each, then the lightest first, then the first machine once more. */
  function GreedyMachine(m: nat, i: nat): nat
    requires i <= 2 * m
  {
    if i < m then i else if i < 2 * m then 2 * m - 1 - i else 0
  }

  function GreedyChoices(m: nat): (c: seq<nat>)
    ensures |c| == 2 * m + 1 && forall i :: 0 <= i < |c| ==> c[i] == GreedyMachine(m, i)
  {
    seq(2 * m + 1, i requires 0 <= i <= 2 * m => GreedyMachine(m, i))
  }

  /** The three lightest together, the others in pairs of 3m. */
  function EvenMachine(m: nat, i: nat): nat
    requires 0 < m && i <= 2 * m
  {
    if i < m - 1 then i else if i < 2 * m - 2 then 2 * m - 3 - i else m - 1
  }

  function EvenChoices(m: nat): (a: seq<nat>)
    requires 0 < m
    ensures |a| == 2 * m + 1 && forall i :: 0 <= i < |a| ==> a[i] == EvenMachine(m, i)
  {
    seq(2 * m + 1, i requires 0 <= i <= 2 * m => EvenMachine(m, i))
  }

  function If(condition: bool, value: nat): nat {
    if condition then value else 0
  }

  lemma {:induction false} GreedyLoad(m: nat, j: nat, n: nat)
    requires j < m && n <= 2 * m + 1
    ensures Load(Weights(m), GreedyChoices(m), j, n) ==
      (If(j < n, Weight(m, j)) + If(2 * m - 1 - j < n, Weight(m, 2 * m - 1 - j)) + If(j == 0 && 2 * m < n, m)) as real
    ensures Count(GreedyChoices(m), j, n) == If(j < n, 1) + If(2 * m - 1 - j < n, 1) + If(j == 0 && 2 * m < n, 1)
  {
    if n > 0 {
      GreedyLoad(m, j, n - 1);
    }
  }

  lemma {:induction false} EvenLoad(m: nat, j: nat, n: nat)
    requires j < m && n <= 2 * m + 1
    ensures Load(Weights(m), EvenChoices(m), j, n) ==
      (if j < m - 1 then If(j < n, Weight(m, j)) + If(2 * m - 3 - j < n, Weight(m, 2 * m - 3 - j))
       else If(2 * m - 2 < n, m) + If(2 * m - 1 < n, m) + If(2 * m < n, m)) as real
  {
    if n > 0 {
      EvenLoad(m, j, n - 1);
    }
  }

  lemma PairsAreEqual(m: nat, j: nat)
    requires j < m
    ensures Weight(m, j) + Weight(m, 2 * m - 1 - j) == 3 * m - 1
    ensures j < m - 1 ==> Weight(m, j) + Weight(m, 2 * m - 3 - j) == 3 * m
  {
  }

  lemma ChoiceIsLeast(m: nat, n: nat)
    requires 0 < m && n <= 2 * m
    ensures LeastLoaded(Weights(m), GreedyChoices(m), m, n, GreedyMachine(m, n))
  {
    var w, c, k := Weights(m), GreedyChoices(m), GreedyMachine(m, n);
    GreedyLoad(m, k, n);
    forall j: nat | j < m ensures AtMost(Load(w, c, k, n), Count(c, k, n), Load(w, c, j, n), Count(c, j, n)) {
      GreedyLoad(m, j, n);
      PairsAreEqual(m, j);
      PairsAreEqual(m, k);
    }
  }

  lemma Cancel(m: nat, limit: real)
    requires 0 < m
    ensures WithinRatio(m, (4 * m - 1) as real, limit) <==> limit >= (3 * m) as real
  {
    var factor, bound := 4.0 * m as real - 1.0, (3 * m) as real;
    assert 3.0 * m as real * (4 * m - 1) as real == factor * bound;
    if limit >= bound {
      assert factor * (limit - bound) >= 0.0;
    } else {
      assert factor * (bound - limit) > 0.0;
    }
  }

  lemma ChoicesAreGreedy(m: nat)
    requires 0 < m
    ensures Greedy(Weights(m), GreedyChoices(m), m)
  {
    forall i | 0 <= i < |GreedyChoices(m)| ensures LeastLoaded(Weights(m), GreedyChoices(m), m, i, GreedyChoices(m)[i]) {
      ChoiceIsLeast(m, i);
    }
  }

  lemma EvenIsWithin(m: nat)
    requires 0 < m
    ensures OnMachines(EvenChoices(m), m) && Within(Weights(m), EvenChoices(m), m, 2 * m + 1, (3 * m) as real)
  {
    var w, a, n, even := Weights(m), EvenChoices(m), 2 * m + 1, (3 * m) as real;
    forall j: nat | j < m ensures Load(w, a, j, n) <= even {
      EvenLoad(m, j, n);
      PairsAreEqual(m, j);
    }
  }

  lemma FirstIsHeaviest(m: nat)
    requires 0 < m
    ensures Load(Weights(m), GreedyChoices(m), 0, 2 * m + 1) == (4 * m - 1) as real
  {
    GreedyLoad(m, 0, 2 * m + 1);
    PairsAreEqual(m, 0);
  }

  lemma WeightsDescend(m: nat)
    ensures Descending(Weights(m)) && NonNegative(Weights(m))
  {
    forall i, k | 0 <= i <= k <= 2 * m ensures Weight(m, i) >= Weight(m, k) {
    }
  }

  /** Only limits of at least 3m allow the load. */
  ghost predicate NeedsLimit(m: nat, load: real) {
    forall limit: real :: WithinRatio(m, load, limit) <==> limit >= (3 * m) as real
  }

  lemma LoadNeedsLimit(m: nat)
    requires 0 < m
    ensures NeedsLimit(m, (4 * m - 1) as real)
  {
    var load := (4 * m - 1) as real;
    forall limit: real ensures WithinRatio(m, load, limit) <==> limit >= (3 * m) as real {
      Cancel(m, limit);
    }
  }

  /** For every number of machines: the greedy rule reaches exactly the ratio times the best possible. */
  lemma RatioIsAttained(m: nat)
    requires 0 < m
    ensures Descending(Weights(m)) && NonNegative(Weights(m)) && Greedy(Weights(m), GreedyChoices(m), m)
    ensures OnMachines(EvenChoices(m), m) && Within(Weights(m), EvenChoices(m), m, 2 * m + 1, (3 * m) as real)
    ensures NeedsLimit(m, Load(Weights(m), GreedyChoices(m), 0, 2 * m + 1))
  {
    WeightsDescend(m);
    ChoicesAreGreedy(m);
    EvenIsWithin(m);
    FirstIsHeaviest(m);
    LoadNeedsLimit(m);
  }
}
