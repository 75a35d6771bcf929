/**
 Why the walk never misreports a path in plain declarations: what it finds is certain, what it misses is impossible, and
 a path is certain exactly when it is present in every reading and possible exactly when it is present in some.
 */
module TypePathSoundness {
  import opened TypePathLookup
  import opened TypePathMeaning

  /** Shown within d unfoldings, in every branch of every union and without what is out of reach. */
  ghost predicate CertainBy(v: Views, p: Place, d: nat)
    decreases d
  {
    d > 0 &&
    match v(p)
    case Answer(verdict) => verdict == Found
    case AnyOf(places) => exists c :: c in places && CertainBy(v, c, d - 1)
    case AllOf(places) => forall c :: c in places ==> CertainBy(v, c, d - 1)
  }

  /** Shown within d unfoldings in some branch, or left open by something out of reach. */
  ghost predicate PossibleBy(v: Views, p: Place, d: nat)
    decreases d
  {
    d > 0 &&
    match v(p)
    case Answer(verdict) => verdict != Missing
    case AnyOf(places) => exists c :: c in places && PossibleBy(v, c, d - 1)
    case AllOf(places) => places == [] || exists c :: c in places && PossibleBy(v, c, d - 1)
  }

  /** Presence under one reading, read off the walk's views. */
  ghost predicate HoldsBy(v: Views, rd: Reading, p: Place, d: nat)
    decreases d
  {
    d > 0 &&
    match v(p)
    case Answer(verdict) => verdict == Found || (verdict == Unknown && rd.hidden(p))
    case AnyOf(places) => exists c :: c in places && HoldsBy(v, rd, c, d - 1)
    case AllOf(places) => places == [] || HoldsBy(v, rd, places[rd.branch(p) % |places|], d - 1)
  }

  /** At plain places the views give the presence that is meant. */
  lemma {:induction false} HoldsIffBy(w: World, rd: Reading, p: Place, d: nat)
    requires Plain(w, p)
    ensures Holds(w, rd, p, d) <==> HoldsBy(ViewsIn(w), rd, p, d)
    decreases d
  {
    if d > 0 {
      var v := ViewsIn(w);
      ViewIsMeaning(w, rd, p, d);
      NextIsPlain(w, p);
      forall c | c in Next(v, p) ensures Holds(w, rd, c, d - 1) <==> HoldsBy(v, rd, c, d - 1) {
        HoldsIffBy(w, rd, c, d - 1);
      }
      ViewAgrees(w, v, rd, p, d);
    }
  }

  lemma ViewAgrees(w: World, v: Views, rd: Reading, p: Place, d: nat)
    requires d > 0 && v(p) == ViewOf(w, p) && ViewMeans(w, rd, p, d)
    requires forall c :: c in Next(v, p) ==> (Holds(w, rd, c, d - 1) <==> HoldsBy(v, rd, c, d - 1))
    ensures Holds(w, rd, p, d) <==> HoldsBy(v, rd, p, d)
  {
    match v(p)
    case Answer(_) =>
    case AnyOf(places) =>
      assert places == Next(v, p);
      assert forall c :: c in places ==> (Holds(w, rd, c, d - 1) <==> HoldsBy(v, rd, c, d - 1));
    case AllOf(places) =>
      if places != [] {
        assert places[rd.branch(p) % |places|] in Next(v, p);
      }
  }

  ghost predicate Certain(v: Views, p: Place) {
    exists d: nat :: CertainBy(v, p, d)
  }

  ghost predicate Possible(v: Views, p: Place) {
    exists d: nat :: PossibleBy(v, p, d)
  }

  lemma {:induction false} CertainLonger(v: Views, p: Place, d: nat, d': nat)
    requires d <= d' && CertainBy(v, p, d)
    ensures CertainBy(v, p, d')
    decreases d
  {
    var places := Next(v, p);
    forall c | c in places && CertainBy(v, c, d - 1) ensures CertainBy(v, c, d' - 1) {
      CertainLonger(v, c, d - 1, d' - 1);
    }
    if v(p).AnyOf? {
      var c :| c in places && CertainBy(v, c, d - 1);
      assert CertainBy(v, c, d' - 1);
    }
  }

  lemma {:induction false} PossibleLonger(v: Views, p: Place, d: nat, d': nat)
    requires d <= d' && PossibleBy(v, p, d)
    ensures PossibleBy(v, p, d')
    decreases d
  {
    var places := Next(v, p);
    forall c | c in places && PossibleBy(v, c, d - 1) ensures PossibleBy(v, c, d' - 1) {
      PossibleLonger(v, c, d - 1, d' - 1);
    }
    if !v(p).Answer? && places != [] {
      var c :| c in places && PossibleBy(v, c, d - 1);
      assert PossibleBy(v, c, d' - 1);
    }
  }

  // ---------- What the walk answers ----------

  lemma {:induction false} FoundIsCertain(v: Views, p: Place, seen: set<Key>, fuel: nat)
    requires Lookup(v, p, seen, fuel).Some? && Lookup(v, p, seen, fuel).value.verdict == Found
    ensures CertainBy(v, p, fuel)
    decreases fuel
  {
    var places := Next(v, p);
    if !v(p).Answer? {
      var vs := LookupEach(v, places, Guarded(p, seen), fuel - 1).value.verdicts;
      forall j | 0 <= j < |places| && vs[j] == Found ensures CertainBy(v, places[j], fuel - 1) {
        WalkAt(v, places, Guarded(p, seen), fuel - 1, j);
        FoundIsCertain(v, places[j], GuardAt(v, places, Guarded(p, seen), fuel - 1, j), fuel - 1);
      }
      if v(p).AnyOf? {
        var j :| 0 <= j < |places| && vs[j] == Found;
        assert places[j] in places;
      } else {
        forall c | c in places ensures CertainBy(v, c, fuel - 1) {
          var j :| 0 <= j < |places| && places[j] == c;
          assert vs[j] in vs;
        }
      }
    }
  }

  lemma {:induction false} MissingIsImpossible(v: Views, p: Place, seen: set<Key>, fuel: nat)
    requires Lookup(v, p, seen, fuel).Some? && Lookup(v, p, seen, fuel).value.verdict == Missing
    ensures !Possible(v, p)
    decreases fuel
  {
    var places := Next(v, p);
    if !v(p).Answer? {
      var vs := LookupEach(v, places, Guarded(p, seen), fuel - 1).value.verdicts;
      forall c | c in places ensures !Possible(v, c) {
        var j :| 0 <= j < |places| && places[j] == c;
        assert vs[j] in vs;
        WalkAt(v, places, Guarded(p, seen), fuel - 1, j);
        MissingIsImpossible(v, c, GuardAt(v, places, Guarded(p, seen), fuel - 1, j), fuel - 1);
      }
    }
    forall d: nat ensures !PossibleBy(v, p, d) {
      if d > 0 {
        forall c | c in places ensures !PossibleBy(v, c, d - 1) {
          assert !Possible(v, c);
        }
      }
    }
  }

  // ---------- Certain and possible in terms of readings ----------

  /** A place that is not certain, if there is one. */
  ghost function Doubtful(v: Views, places: seq<Place>): (i: nat)
    ensures places != [] ==> i < |places|
    ensures i < |places| && Certain(v, places[i]) ==> forall c :: c in places ==> Certain(v, c)
  {
    if exists i: nat :: i < |places| && !Certain(v, places[i])
    then (var i: nat :| i < |places| && !Certain(v, places[i]); i)
    else 0
  }

  /** Nothing is hidden, and every union takes a branch that is not certain where it has one. */
  ghost predicate Doubts(v: Views, rd: Reading) {
    forall p :: !rd.hidden(p) && rd.branch(p) == Doubtful(v, Next(v, p))
  }

  /** A bound on the depths at which some places are all certain. */
  lemma {:induction false} AllCertain(v: Views, places: seq<Place>) returns (d: nat)
    requires forall c :: c in places ==> Certain(v, c)
    ensures forall c :: c in places ==> CertainBy(v, c, d)
  {
    if places == [] {
      d := 0;
    } else {
      var front, last := places[..|places| - 1], places[|places| - 1];
      assert places == front + [last];
      var d1 := AllCertain(v, front);
      assert last in places;
      var d2: nat :| CertainBy(v, last, d2);
      d := if d1 < d2 then d2 else d1;
      forall c | c in places ensures CertainBy(v, c, d) {
        CertainLonger(v, c, if c in front then d1 else d2, d);
      }
    }
  }

  lemma AnyCertain(v: Views, p: Place, c: Place)
    requires v(p).AnyOf? && c in Next(v, p) && Certain(v, c)
    ensures Certain(v, p)
  {
    var e: nat :| CertainBy(v, c, e);
    assert CertainBy(v, p, e + 1);
  }

  lemma EveryCertain(v: Views, p: Place)
    requires v(p).AllOf? && forall c :: c in Next(v, p) ==> Certain(v, c)
    ensures Certain(v, p)
  {
    var e := AllCertain(v, Next(v, p));
    assert CertainBy(v, p, e + 1);
  }

  lemma BranchHolds(v: Views, rd: Reading, p: Place, d: nat, i: nat)
    requires d > 0 && v(p).AllOf? && i < |Next(v, p)| && rd.branch(p) == i
    ensures HoldsBy(v, rd, p, d) <==> HoldsBy(v, rd, Next(v, p)[i], d - 1)
  {
    assert i % |Next(v, p)| == i;
  }

  lemma {:induction false} DoubtedIsCertain(v: Views, rd: Reading, p: Place, d: nat)
    requires Doubts(v, rd) && HoldsBy(v, rd, p, d)
    ensures Certain(v, p)
    decreases d
  {
    var places := Next(v, p);
    match v(p)
    case Answer(_) => assert CertainBy(v, p, 1);
    case AnyOf(_) =>
      var c :| c in places && HoldsBy(v, rd, c, d - 1);
      DoubtedIsCertain(v, rd, c, d - 1);
      AnyCertain(v, p, c);
    case AllOf(_) =>
      if places != [] {
        BranchHolds(v, rd, p, d, Doubtful(v, places));
        DoubtedIsCertain(v, rd, places[Doubtful(v, places)], d - 1);
      }
      EveryCertain(v, p);
  }

  lemma {:induction false} CertainHolds(v: Views, rd: Reading, p: Place, d: nat)
    requires CertainBy(v, p, d)
    ensures HoldsBy(v, rd, p, d)
    decreases d
  {
    var places := Next(v, p);
    match v(p)
    case Answer(_) =>
    case AnyOf(_) =>
      var c :| c in places && CertainBy(v, c, d - 1);
      CertainHolds(v, rd, c, d - 1);
    case AllOf(_) =>
      if places != [] {
        var c := places[rd.branch(p) % |places|];
        assert c in places;
        CertainHolds(v, rd, c, d - 1);
      }
  }

  /** Certain is present in every reading. */
  lemma CertainIffInAll(w: World, p: Place)
    requires Plain(w, p)
    ensures Certain(ViewsIn(w), p) <==> forall rd: Reading :: Present(w, rd, p)
  {
    var v := ViewsIn(w);
    if d: nat :| CertainBy(v, p, d) {
      forall rd: Reading ensures Present(w, rd, p) {
        CertainHolds(v, rd, p, d);
        HoldsIffBy(w, rd, p, d);
      }
    }
    if forall rd: Reading :: Present(w, rd, p) {
      var rd := Reading((q: Place) => Doubtful(v, Next(v, q)), (_: Place) => false);
      assert Present(w, rd, p);
      var d: nat :| Holds(w, rd, p, d);
      HoldsIffBy(w, rd, p, d);
      DoubtedIsCertain(v, rd, p, d);
    }
  }

  /** The place is possible at this depth and at no smaller one. */
  ghost predicate FirstPossible(v: Views, p: Place, d: nat) {
    PossibleBy(v, p, d) && d > 0 && !PossibleBy(v, p, d - 1)
  }

  ghost predicate Shortest(v: Views, p: Place, i: nat, d: nat) {
    FirstPossible(v, p, d) && i < |Next(v, p)| && PossibleBy(v, Next(v, p)[i], d - 1)
  }

  /** A next place that is possible one step sooner, if there is one. */
  ghost function Soonest(v: Views, p: Place): (i: nat)
    ensures (exists j: nat, d: nat :: Shortest(v, p, j, d)) ==> exists d: nat :: Shortest(v, p, i, d)
  {
    if exists i: nat, d: nat :: Shortest(v, p, i, d) then (var i: nat, d: nat :| Shortest(v, p, i, d); i) else 0
  }

  /** Everything hidden is there, and every union takes a branch that is possible soonest. */
  ghost predicate Believes(v: Views, rd: Reading) {
    forall p :: rd.hidden(p) && rd.branch(p) == Soonest(v, p)
  }

  lemma FirstPossibleIsOne(v: Views, p: Place, d: nat, e: nat)
    requires FirstPossible(v, p, d) && FirstPossible(v, p, e)
    ensures d == e
  {
    if d < e {
      PossibleLonger(v, p, d, e - 1);
    } else if e < d {
      PossibleLonger(v, p, e, d - 1);
    }
  }

  /** A union takes a branch that is possible one step sooner. */
  lemma SoonestIsPossible(v: Views, p: Place, d: nat)
    requires FirstPossible(v, p, d) && v(p).AllOf? && Next(v, p) != []
    ensures Soonest(v, p) < |Next(v, p)| && PossibleBy(v, Next(v, p)[Soonest(v, p)], d - 1)
  {
    var places := Next(v, p);
    var c :| c in places && PossibleBy(v, c, d - 1);
    var j :| 0 <= j < |places| && places[j] == c;
    assert Shortest(v, p, j, d);
    var i := Soonest(v, p);
    var e: nat :| Shortest(v, p, i, e);
    FirstPossibleIsOne(v, p, d, e);
  }

  lemma {:induction false} HoldsLonger(v: Views, rd: Reading, p: Place, d: nat, d': nat)
    requires d <= d' && HoldsBy(v, rd, p, d)
    ensures HoldsBy(v, rd, p, d')
    decreases d
  {
    var places := Next(v, p);
    match v(p)
    case Answer(_) =>
    case AnyOf(_) =>
      var c :| c in places && HoldsBy(v, rd, c, d - 1);
      HoldsLonger(v, rd, c, d - 1, d' - 1);
    case AllOf(_) =>
      if places != [] {
        HoldsLonger(v, rd, places[rd.branch(p) % |places|], d - 1, d' - 1);
      }
  }

  lemma {:induction false} PossibleIsBelieved(v: Views, rd: Reading, p: Place, d: nat)
    requires Believes(v, rd) && PossibleBy(v, p, d)
    ensures HoldsBy(v, rd, p, d)
    decreases d
  {
    var places := Next(v, p);
    if PossibleBy(v, p, d - 1) {
      PossibleIsBelieved(v, rd, p, d - 1);
      HoldsLonger(v, rd, p, d - 1, d);
    } else {
      match v(p)
      case Answer(_) =>
      case AnyOf(_) =>
        var c :| c in places && PossibleBy(v, c, d - 1);
        PossibleIsBelieved(v, rd, c, d - 1);
      case AllOf(_) =>
        if places != [] {
          SoonestIsPossible(v, p, d);
          PossibleIsBelieved(v, rd, places[Soonest(v, p)], d - 1);
          BranchHolds(v, rd, p, d, Soonest(v, p));
        }
    }
  }

  lemma {:induction false} HeldIsPossible(v: Views, rd: Reading, p: Place, d: nat)
    requires HoldsBy(v, rd, p, d)
    ensures PossibleBy(v, p, d)
    decreases d
  {
    var places := Next(v, p);
    match v(p)
    case Answer(_) =>
    case AnyOf(_) =>
      var c :| c in places && HoldsBy(v, rd, c, d - 1);
      HeldIsPossible(v, rd, c, d - 1);
    case AllOf(_) =>
      if places != [] {
        var c := places[rd.branch(p) % |places|];
        HeldIsPossible(v, rd, c, d - 1);
        assert c in places;
      }
  }

  /** Possible is present in some reading. */
  lemma PossibleIffInSome(w: World, p: Place)
    requires Plain(w, p)
    ensures Possible(ViewsIn(w), p) <==> exists rd: Reading :: Present(w, rd, p)
  {
    var v := ViewsIn(w);
    if d: nat :| PossibleBy(v, p, d) {
      var rd := Reading((q: Place) => Soonest(v, q), (_: Place) => true);
      PossibleIsBelieved(v, rd, p, d);
      HoldsIffBy(w, rd, p, d);
      assert Present(w, rd, p);
    }
    if rd: Reading :| Present(w, rd, p) {
      var d: nat :| Holds(w, rd, p, d);
      HoldsIffBy(w, rd, p, d);
      HeldIsPossible(v, rd, p, d);
    }
  }

  // ---------- Soundness ----------

  /** The walk of a place that ran to its end reported a definite verdict that some reading contradicts. */
  ghost predicate Misreports(w: World, rd: Reading, p: Place, seen: set<Key>, fuel: nat) {
    var r := Lookup(ViewsIn(w), p, seen, fuel);
    r.Some? && ((r.value.verdict == Found && !Present(w, rd, p)) || (r.value.verdict == Missing && Present(w, rd, p)))
  }

  ghost predicate NeverMisreports(w: World, p: Place) {
    forall rd: Reading, seen: set<Key>, fuel: nat :: !Misreports(w, rd, p, seen, fuel)
  }

  /**
   Two-sided soundness: whatever the guard already holds, found means the path exists in every reading and missing
   means it exists in none.
   */
  lemma PlainWalksNeverMisreport(w: World, p: Place)
    requires Plain(w, p)
    ensures NeverMisreports(w, p)
  {
    var v := ViewsIn(w);
    forall rd: Reading, seen: set<Key>, fuel: nat ensures !Misreports(w, rd, p, seen, fuel) {
      var r := Lookup(v, p, seen, fuel);
      if r.Some? && r.value.verdict == Found {
        FoundIsCertain(v, p, seen, fuel);
        CertainIffInAll(w, p);
      } else if r.Some? && r.value.verdict == Missing {
        MissingIsImpossible(v, p, seen, fuel);
        PossibleIffInSome(w, p);
      }
    }
  }
}
