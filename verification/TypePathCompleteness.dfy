/**
 How much the guarded walk sees. Its guard is the only cause of a lost answer: a path present in every reading, or in
 none, is answered so unless some declaration is reached on two routes with the same number of steps left.
 */
module TypePathCompleteness {
  import opened Outcomes
  import opened TypePathLookup
  import opened TypePathMeaning
  import opened TypePathSoundness

  // ---------- Routes ----------

  /** The place a route leads to, by the position of the next place at every step; the guard plays no part. */
  function Follow(v: Views, p: Place, route: seq<nat>): Option<Place>
    decreases |route|
  {
    if route == [] then Some(p)
    else if route[0] < |Next(v, p)| then Follow(v, Next(v, p)[route[0]], route[1..])
    else None
  }

  /** The route leads to the declaration k.0 with k.1 steps left, at least one. */
  predicate Enters(v: Views, p: Place, route: seq<nat>, k: Key) {
    var end := Follow(v, p, route);
    end.Some? && end.value.target == Named(k.0) && |end.value.steps| == k.1 > 0
  }

  /** No declaration is reached on two routes with the same number of steps left. */
  ghost predicate Unambiguous(v: Views, p: Place) {
    forall r1, r2, k :: Enters(v, p, r1, k) && Enters(v, p, r2, k) ==> r1 == r2
  }

  lemma EntersNext(v: Views, p: Place, j: nat, route: seq<nat>, k: Key)
    requires j < |Next(v, p)|
    ensures Enters(v, p, [j] + route, k) <==> Enters(v, Next(v, p)[j], route, k)
  {
    assert ([j] + route)[1..] == route;
  }

  lemma EntersTwice(v: Views, p: Place, r1: seq<nat>, r2: seq<nat>, k: Key)
    requires r1 != r2 && Enters(v, p, r1, k) && Enters(v, p, r2, k)
    ensures !Unambiguous(v, p)
  {
  }

  lemma AmbiguousNext(v: Views, p: Place, j: nat)
    requires j < |Next(v, p)| && !Unambiguous(v, Next(v, p)[j])
    ensures !Unambiguous(v, p)
  {
    var r1, r2, k :| Enters(v, Next(v, p)[j], r1, k) && Enters(v, Next(v, p)[j], r2, k) && r1 != r2;
    EntersNext(v, p, j, r1, k);
    EntersNext(v, p, j, r2, k);
    assert ([j] + r1)[1..] == r1 && ([j] + r2)[1..] == r2;
    EntersTwice(v, p, [j] + r1, [j] + r2, k);
  }

  // ---------- What a walk enters ----------

  /** A new guard entry lies on a route. */
  lemma {:induction false} SeenIsEntered(v: Views, p: Place, seen: set<Key>, fuel: nat, k: Key) returns (route: seq<nat>)
    requires Lookup(v, p, seen, fuel).Some? && k in Lookup(v, p, seen, fuel).value.seen && k !in seen
    ensures Enters(v, p, route, k)
    decreases fuel
  {
    route := [];
    if !(IsEntry(p) && k == EntryKey(p)) {
      var guard := Guarded(p, seen);
      var j := MadeByOne(v, Next(v, p), guard, fuel - 1, k);
      route := SeenIsEntered(v, Next(v, p)[j], GuardAt(v, Next(v, p), guard, fuel - 1, j), fuel - 1, k);
      EntersNext(v, p, j, route, k);
      route := [j] + route;
    }
  }

  /** Every entry on a route is a new one. */
  ghost predicate AllNew(v: Views, p: Place, seen: set<Key>, seen': set<Key>) {
    forall route, k :: Enters(v, p, route, k) ==> k !in seen && k in seen'
  }

  /** Place j was walked after entering what its routes lead to, each once. */
  ghost predicate EntersOnceAt(v: Views, places: seq<Place>, guard: set<Key>, fuel: nat, j: nat)
    requires j < |places| && LookupEach(v, places, guard, fuel).Some?
  {
    var before := GuardAt(v, places, guard, fuel, j);
    && guard <= before && Lookup(v, places[j], before, fuel).Some?
    && AllNew(v, places[j], before, Lookup(v, places[j], before, fuel).value.seen)
    && Lookup(v, places[j], before, fuel).value.seen <= LookupEach(v, places, guard, fuel).value.seen
    && Unambiguous(v, places[j])
  }

  ghost predicate AllMissed(v: Views, p: Place, guard: set<Key>, fuel: nat)
    requires LookupEach(v, Next(v, p), guard, fuel).Some?
  {
    forall j: nat | j < |Next(v, p)| :: EntersOnceAt(v, Next(v, p), guard, fuel, j)
  }

  lemma MissedIsNew(v: Views, p: Place, seen: set<Key>, fuel: nat)
    requires LookupEach(v, Next(v, p), Guarded(p, seen), fuel).Some? && AllMissed(v, p, Guarded(p, seen), fuel)
    requires IsEntry(p) ==> EntryKey(p) !in seen
    ensures AllNew(v, p, seen, LookupEach(v, Next(v, p), Guarded(p, seen), fuel).value.seen)
  {
    forall route, k | Enters(v, p, route, k)
      ensures k !in seen && k in LookupEach(v, Next(v, p), Guarded(p, seen), fuel).value.seen
    {
      if route != [] {
        var j := route[0];
        assert route == [j] + route[1..];
        EntersNext(v, p, j, route[1..], k);
        assert Enters(v, Next(v, p)[j], route[1..], k);
        assert EntersOnceAt(v, Next(v, p), Guarded(p, seen), fuel, j);
      }
    }
  }

  lemma MissedIsUnambiguous(v: Views, p: Place, seen: set<Key>, fuel: nat)
    requires LookupEach(v, Next(v, p), Guarded(p, seen), fuel).Some? && AllMissed(v, p, Guarded(p, seen), fuel)
    ensures Unambiguous(v, p)
  {
    var places, guard := Next(v, p), Guarded(p, seen);
    forall r1, r2, k | Enters(v, p, r1, k) && Enters(v, p, r2, k) ensures r1 == r2 {
      if r1 != [] {
        assert r1 == [r1[0]] + r1[1..];
        EntersNext(v, p, r1[0], r1[1..], k);
        assert Enters(v, places[r1[0]], r1[1..], k) && EntersOnceAt(v, places, guard, fuel, r1[0]);
      }
      if r2 != [] {
        assert r2 == [r2[0]] + r2[1..];
        EntersNext(v, p, r2[0], r2[1..], k);
        assert Enters(v, places[r2[0]], r2[1..], k) && EntersOnceAt(v, places, guard, fuel, r2[0]);
      }
      if r1 != [] && r2 != [] && r1[0] < r2[0] {
        EarlierLeaves(v, places, guard, fuel, r1[0], r2[0]);
      } else if r1 != [] && r2 != [] && r2[0] < r1[0] {
        EarlierLeaves(v, places, guard, fuel, r2[0], r1[0]);
      }
    }
  }

  /** A walk that answers missing has entered everything its routes lead to, each once. */
  lemma {:induction false} MissingEntersOnce(v: Views, p: Place, seen: set<Key>, fuel: nat)
    requires Lookup(v, p, seen, fuel).Some? && Lookup(v, p, seen, fuel).value.verdict == Missing
    ensures AllNew(v, p, seen, Lookup(v, p, seen, fuel).value.seen) && Unambiguous(v, p)
    decreases fuel, 0
  {
    if v(p).Answer? {
      forall route, k | Enters(v, p, route, k) ensures route == [] {
      }
    } else {
      var guard, less := Guarded(p, seen), fuel - 1;
      var vs := LookupEach(v, Next(v, p), guard, less).value.verdicts;
      forall j: nat | j < |Next(v, p)| ensures EntersOnceAt(v, Next(v, p), guard, less, j) {
        assert vs[j] in vs;
        PlaceEntersOnce(v, Next(v, p), guard, less, j);
      }
      MissedIsNew(v, p, seen, less);
      MissedIsUnambiguous(v, p, seen, less);
    }
  }

  lemma {:induction false} PlaceEntersOnce(v: Views, places: seq<Place>, guard: set<Key>, fuel: nat, j: nat)
    requires j < |places| && LookupEach(v, places, guard, fuel).Some?
    requires LookupEach(v, places, guard, fuel).value.verdicts[j] == Missing
    ensures EntersOnceAt(v, places, guard, fuel, j)
    decreases fuel, 1
  {
    WalkAt(v, places, guard, fuel, j);
    MissingEntersOnce(v, places[j], GuardAt(v, places, guard, fuel, j), fuel);
  }

  // ---------- Why an answer is lost ----------

  /** The path is present everywhere, or nowhere, and this is the verdict that says so. */
  ghost predicate Settled(v: Views, p: Place, truth: Verdict) {
    (truth == Found && Certain(v, p)) || (truth == Missing && !Possible(v, p))
  }

  lemma CertainNext(v: Views, p: Place)
    requires Certain(v, p) && !v(p).Answer?
    ensures v(p).AnyOf? ==> exists c :: c in Next(v, p) && Certain(v, c)
    ensures v(p).AllOf? ==> forall c :: c in Next(v, p) ==> Certain(v, c)
  {
    var d: nat :| CertainBy(v, p, d);
    assert forall c :: CertainBy(v, c, d - 1) ==> Certain(v, c);
  }

  lemma ImpossibleNext(v: Views, p: Place)
    requires !Possible(v, p) && !v(p).Answer?
    ensures forall c :: c in Next(v, p) ==> !Possible(v, c)
    ensures v(p).AllOf? ==> Next(v, p) != []
  {
    forall c | c in Next(v, p) ensures !Possible(v, c) {
      if d: nat :| PossibleBy(v, c, d) {
        assert PossibleBy(v, p, d + 1);
      }
    }
    assert v(p) == AllOf([]) ==> PossibleBy(v, p, 1);
  }

  lemma SettledAnswer(v: Views, p: Place, truth: Verdict)
    requires Settled(v, p, truth) && v(p).Answer?
    ensures v(p).verdict == truth
  {
    assert v(p).verdict != Missing ==> PossibleBy(v, p, 1);
  }

  /** If a settled place is not answered so, neither is some settled next place. */
  lemma WrongNext(v: Views, p: Place, truth: Verdict, vs: seq<Verdict>) returns (j: nat)
    requires Settled(v, p, truth) && !v(p).Answer? && |vs| == |Next(v, p)|
    requires truth != if v(p).AnyOf? then Combine(vs) else Agree(vs)
    ensures j < |vs| && Settled(v, Next(v, p)[j], truth) && vs[j] != truth
  {
    var places := Next(v, p);
    if truth == Found {
      CertainNext(v, p);
      if v(p).AnyOf? {
        var c :| c in places && Certain(v, c);
        j :| 0 <= j < |places| && places[j] == c;
      } else {
        j :| 0 <= j < |vs| && vs[j] != Found;
        assert places[j] in places;
      }
    } else {
      ImpossibleNext(v, p);
      assert v(p).AllOf? ==> vs[0] in vs;
      j :| 0 <= j < |vs| && vs[j] != Missing;
      assert places[j] in places;
    }
  }

  /** The entry met on the way was there at first. */
  ghost predicate MeetsSeen(v: Views, p: Place, seen: set<Key>) {
    exists route, k :: Enters(v, p, route, k) && k in seen
  }

  /** The cause: the walk met an entry that was there at first, or two routes lead to one entry. */
  lemma {:induction false} WrongHasCause(v: Views, p: Place, truth: Verdict, seen: set<Key>, fuel: nat)
    requires Settled(v, p, truth)
    requires Lookup(v, p, seen, fuel).Some? && Lookup(v, p, seen, fuel).value.verdict != truth
    ensures MeetsSeen(v, p, seen) || !Unambiguous(v, p)
    decreases fuel
  {
    if IsEntry(p) && EntryKey(p) in seen {
      assert Enters(v, p, [], EntryKey(p));
    } else if v(p).Answer? {
      SettledAnswer(v, p, truth);
    } else {
      var places, guard := Next(v, p), Guarded(p, seen);
      var j := WrongNext(v, p, truth, LookupEach(v, places, guard, fuel - 1).value.verdicts);
      var before := GuardAt(v, places, guard, fuel - 1, j);
      WalkAt(v, places, guard, fuel - 1, j);
      WrongHasCause(v, places[j], truth, before, fuel - 1);
      if !Unambiguous(v, places[j]) {
        AmbiguousNext(v, p, j);
      } else {
        var route, k :| Enters(v, places[j], route, k) && k in before;
        MetIsSeen(v, p, seen, fuel, j, route, k);
      }
    }
  }

  /** An entry met in place j was there at first, or another route leads to it too. */
  lemma MetIsSeen(v: Views, p: Place, seen: set<Key>, fuel: nat, j: nat, route: seq<nat>, k: Key)
    requires fuel > 0 && LookupEach(v, Next(v, p), Guarded(p, seen), fuel - 1).Some? && j < |Next(v, p)|
    requires Enters(v, Next(v, p)[j], route, k) && k in GuardAt(v, Next(v, p), Guarded(p, seen), fuel - 1, j)
    ensures MeetsSeen(v, p, seen) || !Unambiguous(v, p)
  {
    var places, guard := Next(v, p), Guarded(p, seen);
    EntersNext(v, p, j, route, k);
    if k in seen {
      assert MeetsSeen(v, p, seen);
    } else if k in guard {
      assert Enters(v, p, [], k);
      EntersTwice(v, p, [], [j] + route, k);
    } else {
      var i := GuardMadeByEarlier(v, places, guard, fuel - 1, j, k);
      var other := SeenIsEntered(v, places[i], GuardAt(v, places, guard, fuel - 1, i), fuel - 1, k);
      EntersNext(v, p, i, other, k);
      assert ([i] + other)[0] != ([j] + route)[0];
      EntersTwice(v, p, [i] + other, [j] + route, k);
    }
  }

  // ---------- Exactness ----------

  /**
   The verdict of a fresh walk, exactly. It is missing just when the path is present in no reading and no declaration
   is reached on two routes with the same number of steps left; and without such a pair of routes it is found just when
   the path is present in every reading. So an answer that is lost is lost to such a pair.
   */
  lemma VerdictExactly(w: World, p: Place, fuel: nat)
    requires Plain(w, p) && Lookup(ViewsIn(w), p, {}, fuel).Some?
    ensures var verdict := Lookup(ViewsIn(w), p, {}, fuel).value.verdict;
      && (verdict == Missing <==> (forall rd: Reading :: !Present(w, rd, p)) && Unambiguous(ViewsIn(w), p))
      && (Unambiguous(ViewsIn(w), p) ==> (verdict == Found <==> forall rd: Reading :: Present(w, rd, p)))
  {
    CertainIffInAll(w, p);
    PossibleIffInSome(w, p);
    GenericVerdict(ViewsIn(w), p, fuel);
  }

  lemma GenericVerdict(v: Views, p: Place, fuel: nat)
    requires Lookup(v, p, {}, fuel).Some?
    ensures var verdict := Lookup(v, p, {}, fuel).value.verdict;
      && (verdict == Missing <==> !Possible(v, p) && Unambiguous(v, p))
      && (Unambiguous(v, p) ==> (verdict == Found <==> Certain(v, p)))
  {
    var verdict := Lookup(v, p, {}, fuel).value.verdict;
    if verdict == Missing {
      MissingIsImpossible(v, p, {}, fuel);
      MissingEntersOnce(v, p, {}, fuel);
    } else if !Possible(v, p) {
      WrongHasCause(v, p, Missing, {}, fuel);
    }
    if verdict == Found {
      FoundIsCertain(v, p, {}, fuel);
    } else if Certain(v, p) {
      WrongHasCause(v, p, Found, {}, fuel);
    }
  }
}
