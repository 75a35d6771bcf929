/**
 Recursive declarations under the shared guard. The walk finds every path that is present in every reading as long as
 what two routes lead to is the same place and neither route passes a union, however often the guard stops it; in general
 the guard can lose both a present and an absent path.
 */
module TypePathRecursion {
  import opened Outcomes
  import opened TypePathLookup
  import opened TypePathMeaning
  import opened TypePathSoundness
  import opened TypePathCompleteness
  import opened TypePathForms
  import opened TypePathPotential

  // ---------- Routes that meet ----------

  /** Some place on the route, before its end, asks all its next places to agree. */
  predicate PassesUnion(v: Views, p: Place, route: seq<nat>)
    decreases |route|
  {
    route != [] && route[0] < |Next(v, p)| && (v(p).AllOf? || PassesUnion(v, Next(v, p)[route[0]], route[1..]))
  }

  /** Where two routes lead to one entry they lead to the same place, and pass no union. */
  ghost predicate MeetHarmlessly(v: Views, p: Place) {
    forall r1, r2, k :: Enters(v, p, r1, k) && Enters(v, p, r2, k) && r1 != r2 ==>
      !PassesUnion(v, p, r1) && Follow(v, p, r1) == Follow(v, p, r2)
  }

  lemma UnambiguousIsHarmless(v: Views, p: Place)
    requires Unambiguous(v, p)
    ensures MeetHarmlessly(v, p)
  {
  }

  lemma {:induction false} FollowOn(v: Views, root: Place, route: seq<nat>, more: seq<nat>)
    requires Follow(v, root, route).Some?
    ensures Follow(v, root, route + more) == Follow(v, Follow(v, root, route).value, more)
    ensures PassesUnion(v, root, route + more) <==>
      PassesUnion(v, root, route) || PassesUnion(v, Follow(v, root, route).value, more)
    decreases |route|
  {
    if route == [] {
      assert route + more == more;
    } else {
      assert (route + more)[1..] == route[1..] + more;
      FollowOn(v, Next(v, root)[route[0]], route[1..], more);
    }
  }

  lemma EntersOn(v: Views, root: Place, route: seq<nat>, more: seq<nat>, k: Key)
    requires Follow(v, root, route).Some? && Enters(v, Follow(v, root, route).value, more, k)
    ensures Enters(v, root, route + more, k)
  {
    FollowOn(v, root, route, more);
  }

  // ---------- What an unsuccessful walk has established ----------

  /** The entry stands for a place, on a route that passes no union, that has its path within d unfoldings. */
  ghost predicate KeyCertain(v: Views, root: Place, k: Key, d: nat) {
    exists route :: Enters(v, root, route, k) && !PassesUnion(v, root, route) && CertainBy(v, Follow(v, root, route).value, d)
  }

  ghost predicate Hit(v: Views, root: Place, seen: set<Key>, d: nat) {
    exists k :: k in seen && KeyCertain(v, root, k, d)
  }

  /** If the place has its path, then so does a declaration that was entered before the walk began. */
  ghost predicate Excused(v: Views, root: Place, p: Place, seen: set<Key>) {
    forall d: nat :: CertainBy(v, p, d) ==> Hit(v, root, seen, d)
  }

  /** The same for every declaration entered since. */
  ghost predicate GuardExcused(v: Views, root: Place, seen: set<Key>, seen': set<Key>) {
    forall d: nat, k :: k in seen' && KeyCertain(v, root, k, d) ==> Hit(v, root, seen, d)
  }

  /** Every entry of the guard was made on a route that does not go through this one. */
  ghost predicate FromElsewhere(v: Views, root: Place, route: seq<nat>, seen: set<Key>) {
    forall k :: k in seen ==> exists other :: Enters(v, root, other, k) && !(route <= other)
  }

  /** The walk stands at the end of a route that passes no union. */
  ghost predicate Stands(v: Views, root: Place, route: seq<nat>, p: Place, seen: set<Key>) {
    && MeetHarmlessly(v, root) && Follow(v, root, route) == Some(p) && !PassesUnion(v, root, route)
    && FromElsewhere(v, root, route, seen)
  }

  lemma HitLonger(v: Views, root: Place, seen: set<Key>, d: nat, d': nat)
    requires d <= d' && Hit(v, root, seen, d)
    ensures Hit(v, root, seen, d')
  {
    var k :| k in seen && KeyCertain(v, root, k, d);
    var route :| Enters(v, root, route, k) && !PassesUnion(v, root, route) && CertainBy(v, Follow(v, root, route).value, d);
    CertainLonger(v, Follow(v, root, route).value, d, d');
    assert KeyCertain(v, root, k, d');
  }

  lemma ExcusedEarlier(v: Views, root: Place, p: Place, seen: set<Key>, seen': set<Key>)
    requires Excused(v, root, p, seen') && GuardExcused(v, root, seen, seen')
    ensures Excused(v, root, p, seen)
  {
    forall d: nat | CertainBy(v, p, d) ensures Hit(v, root, seen, d) {
      var k :| k in seen' && KeyCertain(v, root, k, d);
    }
  }

  lemma GuardExcusedEarlier(v: Views, root: Place, seen: set<Key>, seen': set<Key>, seen'': set<Key>)
    requires GuardExcused(v, root, seen, seen') && GuardExcused(v, root, seen', seen'')
    ensures GuardExcused(v, root, seen, seen'')
  {
    forall d: nat, k | k in seen'' && KeyCertain(v, root, k, d) ensures Hit(v, root, seen, d) {
      var k' :| k' in seen' && KeyCertain(v, root, k', d);
    }
  }

  /** All routes to the entry of a place lead to that place. */
  lemma EntryIsPlace(v: Views, root: Place, route: seq<nat>, p: Place, seen: set<Key>, d: nat)
    requires Stands(v, root, route, p, seen) && IsEntry(p)
    ensures KeyCertain(v, root, EntryKey(p), d) <==> CertainBy(v, p, d)
  {
    assert Enters(v, root, route, EntryKey(p));
    if KeyCertain(v, root, EntryKey(p), d) {
      var other :| Enters(v, root, other, EntryKey(p)) && CertainBy(v, Follow(v, root, other).value, d);
    }
  }

  /** If p at a depth always rests on q or on p one depth earlier, and q lasts, then p rests on q. */
  lemma {:induction false} RestsOn(p: nat -> bool, q: nat -> bool, d: nat)
    requires forall e: nat :: p(e) ==> e > 0 && (q(e - 1) || p(e - 1))
    requires forall e: nat, e': nat :: e <= e' && q(e) ==> q(e')
    requires p(d)
    ensures q(d)
  {
    if !q(d - 1) {
      RestsOn(p, q, d - 1);
    }
  }

  /** The place has its path only if, one unfolding earlier, some entry of the guard has its own. */
  ghost predicate NeedsGuard(v: Views, root: Place, p: Place, guard: set<Key>) {
    forall e: nat :: CertainBy(v, p, e) ==> e > 0 && Hit(v, root, guard, e - 1)
  }

  /**
   The declaration just entered excuses itself away: if it had the path only because it has it, unfolding it one
   step less leads to the guard it was entered under.
   */
  lemma EntryExcused(v: Views, root: Place, route: seq<nat>, p: Place, seen: set<Key>)
    requires Stands(v, root, route, p, seen) && IsEntry(p) && NeedsGuard(v, root, p, Guarded(p, seen))
    ensures Excused(v, root, p, seen) && GuardExcused(v, root, seen, Guarded(p, seen))
  {
    var holds := (d: nat) => CertainBy(v, p, d);
    var hit := (d: nat) => Hit(v, root, seen, d);
    forall d: nat ensures KeyCertain(v, root, EntryKey(p), d) <==> holds(d) {
      EntryIsPlace(v, root, route, p, seen, d);
    }
    forall e: nat | holds(e) ensures e > 0 && (hit(e - 1) || holds(e - 1)) {
      var k :| k in Guarded(p, seen) && KeyCertain(v, root, k, e - 1);
    }
    forall e: nat, e': nat | e <= e' && hit(e) ensures hit(e') {
      HitLonger(v, root, seen, e, e');
    }
    forall d: nat | holds(d) ensures Hit(v, root, seen, d) {
      RestsOn(holds, hit, d);
    }
  }

  lemma NextExcused(v: Views, root: Place, p: Place, guard: set<Key>)
    requires v(p).AnyOf? && forall c :: c in Next(v, p) ==> Excused(v, root, c, guard)
    ensures NeedsGuard(v, root, p, guard)
  {
    var places := Next(v, p);
    assert v(p) == AnyOf(places);
    forall e: nat | CertainBy(v, p, e) ensures e > 0 && Hit(v, root, guard, e - 1) {
      var c :| c in places && CertainBy(v, c, e - 1);
      assert Excused(v, root, c, guard);
    }
  }

  // ---------- Under a union ----------

  lemma LongerDiffer(route: seq<nat>, r1: seq<nat>, r2: seq<nat>)
    requires r1 != r2
    ensures route + r1 != route + r2
  {
    assert (route + r1)[|route|..] == r1 && (route + r2)[|route|..] == r2;
  }

  lemma StillNotBefore(route: seq<nat>, j: nat, other: seq<nat>)
    requires !(route <= other)
    ensures !(route + [j] <= other)
  {
    assert (route + [j])[..|route|] == route;
  }

  /** Below a union every entry has its one route, so the walk there is right. */
  lemma UnionIsExact(v: Views, root: Place, route: seq<nat>, p: Place, seen: set<Key>, fuel: nat)
    requires Stands(v, root, route, p, seen) && v(p).AllOf? && !(IsEntry(p) && EntryKey(p) in seen)
    requires Lookup(v, p, seen, fuel).Some? && Lookup(v, p, seen, fuel).value.verdict != Found
    ensures !Certain(v, p)
  {
    forall r1, r2, k | Enters(v, p, r1, k) && Enters(v, p, r2, k) ensures r1 == r2 {
      if r1 != r2 {
        LongerDiffer(route, r1, r2);
        EntersOn(v, root, route, r1, k);
        EntersOn(v, root, route, r2, k);
        FollowOn(v, root, route, r1);
        FollowOn(v, root, route, r2);
        assert false;
      }
    }
    forall r, k | Enters(v, p, r, k) ensures k !in seen {
      if k in seen {
        BelowUnionIsNew(v, root, route, p, seen, r, k);
        assert false;
      }
    }
    if Certain(v, p) {
      WrongHasCause(v, p, Found, seen, fuel);
      assert false;
    }
  }

  lemma BelowUnionIsNew(v: Views, root: Place, route: seq<nat>, p: Place, seen: set<Key>, r: seq<nat>, k: Key)
    requires Stands(v, root, route, p, seen) && v(p).AllOf? && Enters(v, p, r, k) && r != []
    ensures k !in seen && !exists other :: Enters(v, root, other, k) && !PassesUnion(v, root, other)
  {
    EntersOn(v, root, route, r, k);
    FollowOn(v, root, route, r);
    assert PassesUnion(v, root, route + r) && route <= route + r;
    forall other | Enters(v, root, other, k) ensures other == route + r {
    }
  }

  lemma UnionExcused(v: Views, root: Place, route: seq<nat>, p: Place, seen: set<Key>, fuel: nat)
    requires Stands(v, root, route, p, seen) && v(p).AllOf? && !(IsEntry(p) && EntryKey(p) in seen)
    requires Lookup(v, p, seen, fuel).Some? && Lookup(v, p, seen, fuel).value.verdict != Found
    ensures Excused(v, root, p, seen)
    ensures GuardExcused(v, root, seen, Lookup(v, p, seen, fuel).value.seen)
  {
    UnionIsExact(v, root, route, p, seen, fuel);
    var after := Lookup(v, p, seen, fuel).value.seen;
    forall d: nat, k | k in after && KeyCertain(v, root, k, d) ensures Hit(v, root, seen, d) {
      if k !in seen {
        var r := SeenIsEntered(v, p, seen, fuel, k);
        if r == [] {
          EntryIsPlace(v, root, route, p, seen, d);
        } else {
          BelowUnionIsNew(v, root, route, p, seen, r, k);
        }
        assert false;
      }
    }
  }

  // ---------- The walk ----------

  lemma NextStands(v: Views, root: Place, route: seq<nat>, p: Place, seen: set<Key>, fuel: nat, j: nat)
    requires Stands(v, root, route, p, seen) && v(p).AnyOf? && j < |Next(v, p)|
    requires LookupEach(v, Next(v, p), Guarded(p, seen), fuel).Some?
    ensures Stands(v, root, route + [j], Next(v, p)[j], GuardAt(v, Next(v, p), Guarded(p, seen), fuel, j))
  {
    var places, guard := Next(v, p), Guarded(p, seen);
    FollowOn(v, root, route, [j]);
    assert Follow(v, p, [j]) == Some(places[j]) by {
      assert [j][1..] == [];
    }
    assert !PassesUnion(v, p, [j]) by {
      assert [j][1..] == [];
    }
    forall k | k in GuardAt(v, places, guard, fuel, j) ensures exists other :: Enters(v, root, other, k) && !(route + [j] <= other) {
      if k in seen {
        var other :| Enters(v, root, other, k) && !(route <= other);
        StillNotBefore(route, j, other);
      } else if k in guard {
        assert Enters(v, root, route, k) && !(route + [j] <= route);
      } else {
        var i := GuardMadeByEarlier(v, places, guard, fuel, j, k);
        var r := SeenIsEntered(v, places[i], GuardAt(v, places, guard, fuel, i), fuel, k);
        EntersNext(v, p, i, r, k);
        EntersOn(v, root, route, [i] + r, k);
        assert (route + ([i] + r))[|route|] == i && (route + [j])[|route|] == j;
        assert !(route + [j] <= route + ([i] + r));
      }
    }
  }

  /** What one walk leaves in the guard is what the next begins with. */
  lemma {:induction false} GuardAfter(v: Views, places: seq<Place>, guard: set<Key>, fuel: nat, j: nat)
    requires j < |places| && LookupEach(v, places, guard, fuel).Some?
    ensures Lookup(v, places[j], GuardAt(v, places, guard, fuel, j), fuel).Some?
    ensures Lookup(v, places[j], GuardAt(v, places, guard, fuel, j), fuel).value.seen ==
      if j + 1 < |places| then GuardAt(v, places, guard, fuel, j + 1) else LookupEach(v, places, guard, fuel).value.seen
  {
    var after := Lookup(v, places[0], guard, fuel).value.seen;
    if j > 0 {
      GuardAfter(v, places[1..], after, fuel, j - 1);
    } else if |places| > 1 {
      assert GuardAt(v, places, guard, fuel, 1) == GuardAt(v, places[1..], after, fuel, 0);
    } else {
      assert places[1..] == [];
    }
  }

  /** Where a walk does not find a path that is present, it was cut at a declaration entered before it that has its own. */
  lemma {:induction false} NotFoundExcused(v: Views, root: Place, route: seq<nat>, p: Place, seen: set<Key>, fuel: nat)
    requires Stands(v, root, route, p, seen)
    requires Lookup(v, p, seen, fuel).Some? && Lookup(v, p, seen, fuel).value.verdict != Found
    ensures Excused(v, root, p, seen)
    ensures GuardExcused(v, root, seen, Lookup(v, p, seen, fuel).value.seen)
    decreases fuel, 0
  {
    if IsEntry(p) && EntryKey(p) in seen {
      forall d: nat | CertainBy(v, p, d) ensures Hit(v, root, seen, d) {
        EntryIsPlace(v, root, route, p, seen, d);
      }
    } else if v(p).AllOf? {
      UnionExcused(v, root, route, p, seen, fuel);
    } else {
      var guard, after := Guarded(p, seen), Lookup(v, p, seen, fuel).value.seen;
      if v(p).AnyOf? {
        PlacesNotFound(v, root, route, p, seen, fuel - 1);
        NextExcused(v, root, p, guard);
      }
      if IsEntry(p) {
        EntryExcused(v, root, route, p, seen);
      } else {
        forall d: nat | CertainBy(v, p, d) ensures Hit(v, root, seen, d) {
          HitLonger(v, root, seen, d - 1, d);
        }
      }
      GuardExcusedEarlier(v, root, seen, guard, after);
    }
  }

  lemma {:induction false} PlacesNotFound(v: Views, root: Place, route: seq<nat>, p: Place, seen: set<Key>, fuel: nat)
    requires Stands(v, root, route, p, seen) && v(p).AnyOf?
    requires var r := LookupEach(v, Next(v, p), Guarded(p, seen), fuel); r.Some? && Found !in r.value.verdicts
    ensures forall c :: c in Next(v, p) ==> Excused(v, root, c, Guarded(p, seen))
    ensures GuardExcused(v, root, Guarded(p, seen), LookupEach(v, Next(v, p), Guarded(p, seen), fuel).value.seen)
    decreases fuel, 3
  {
    var places, guard := Next(v, p), Guarded(p, seen);
    forall c | c in places ensures Excused(v, root, c, guard) {
      var j :| 0 <= j < |places| && places[j] == c;
      GuardsExcused(v, root, route, p, seen, fuel, j);
      PlaceNotFound(v, root, route, p, seen, fuel, j);
      ExcusedEarlier(v, root, c, guard, GuardAt(v, places, guard, fuel, j));
    }
    if places != [] {
      var last := |places| - 1;
      GuardsExcused(v, root, route, p, seen, fuel, last);
      PlaceNotFound(v, root, route, p, seen, fuel, last);
      GuardAfter(v, places, guard, fuel, last);
      GuardExcusedEarlier(v, root, guard, GuardAt(v, places, guard, fuel, last), LookupEach(v, places, guard, fuel).value.seen);
    }
  }

  lemma {:induction false} PlaceNotFound(v: Views, root: Place, route: seq<nat>, p: Place, seen: set<Key>, fuel: nat, j: nat)
    requires Stands(v, root, route, p, seen) && v(p).AnyOf? && j < |Next(v, p)|
    requires var r := LookupEach(v, Next(v, p), Guarded(p, seen), fuel); r.Some? && Found !in r.value.verdicts
    ensures var before := GuardAt(v, Next(v, p), Guarded(p, seen), fuel, j);
      && Excused(v, root, Next(v, p)[j], before) && Lookup(v, Next(v, p)[j], before, fuel).Some?
      && GuardExcused(v, root, before, Lookup(v, Next(v, p)[j], before, fuel).value.seen)
    decreases fuel, 1
  {
    var places, guard := Next(v, p), Guarded(p, seen);
    NextStands(v, root, route, p, seen, fuel, j);
    WalkAt(v, places, guard, fuel, j);
    assert LookupEach(v, places, guard, fuel).value.verdicts[j] in LookupEach(v, places, guard, fuel).value.verdicts;
    NotFoundExcused(v, root, route + [j], places[j], GuardAt(v, places, guard, fuel, j), fuel);
  }

  lemma {:induction false} GuardsExcused(v: Views, root: Place, route: seq<nat>, p: Place, seen: set<Key>, fuel: nat, j: nat)
    requires Stands(v, root, route, p, seen) && v(p).AnyOf? && j < |Next(v, p)|
    requires var r := LookupEach(v, Next(v, p), Guarded(p, seen), fuel); r.Some? && Found !in r.value.verdicts
    ensures GuardExcused(v, root, Guarded(p, seen), GuardAt(v, Next(v, p), Guarded(p, seen), fuel, j))
    decreases fuel, 2, j
  {
    var places, guard := Next(v, p), Guarded(p, seen);
    if j > 0 {
      GuardsExcused(v, root, route, p, seen, fuel, j - 1);
      PlaceNotFound(v, root, route, p, seen, fuel, j - 1);
      GuardAfter(v, places, guard, fuel, j - 1);
      GuardExcusedEarlier(v, root, guard, GuardAt(v, places, guard, fuel, j - 1), GuardAt(v, places, guard, fuel, j));
    }
  }

  /**
   The found half of the exact verdict, beyond unambiguous places: where routes that lead to one entry lead to one place
   and pass no union, a fresh walk answers found exactly when the path is present in every reading.
   */
  lemma FoundExactly(w: World, p: Place, fuel: nat)
    requires Plain(w, p) && MeetHarmlessly(ViewsIn(w), p) && Lookup(ViewsIn(w), p, {}, fuel).Some?
    ensures Lookup(ViewsIn(w), p, {}, fuel).value.verdict == Found <==> forall rd: Reading :: Present(w, rd, p)
  {
    CertainIffInAll(w, p);
    if Lookup(ViewsIn(w), p, {}, fuel).value.verdict == Found {
      FoundIsCertain(ViewsIn(w), p, {}, fuel);
    } else {
      NotFoundIsNotCertain(ViewsIn(w), p, fuel);
    }
  }

  lemma NotFoundIsNotCertain(v: Views, p: Place, fuel: nat)
    requires MeetHarmlessly(v, p) && Lookup(v, p, {}, fuel).Some? && Lookup(v, p, {}, fuel).value.verdict != Found
    ensures !Certain(v, p)
  {
    assert Follow(v, p, []) == Some(p);
    NotFoundExcused(v, p, [], p, {}, fuel);
    forall d: nat ensures !CertainBy(v, p, d) {
      assert !Hit(v, p, {}, d);
    }
  }

  // ---------- Places without unions and indexed access ----------

  function Suffix(path: seq<Step>, n: nat): seq<Step> {
    if n <= |path| then path[|path| - n..] else []
  }

  ghost predicate IsSuffix(steps: seq<Step>, path: seq<Step>) {
    |steps| <= |path| && steps == Suffix(path, |steps|)
  }

  /** From flat places only flat places follow; none asks all to agree, and steps are only dropped from the front. */
  ghost predicate FlatViews(v: Views, flat: Place -> bool) {
    forall p :: flat(p) ==> !v(p).AllOf? && forall c :: c in Next(v, p) ==> flat(c) && IsSuffix(c.steps, p.steps)
  }

  lemma SuffixOfSuffix(a: seq<Step>, b: seq<Step>, path: seq<Step>)
    requires IsSuffix(a, b) && IsSuffix(b, path)
    ensures IsSuffix(a, path)
  {
  }

  lemma {:induction false} RouteDropsSteps(v: Views, flat: Place -> bool, p: Place, route: seq<nat>)
    requires FlatViews(v, flat) && flat(p)
    ensures !PassesUnion(v, p, route)
    ensures Follow(v, p, route).Some? ==> IsSuffix(Follow(v, p, route).value.steps, p.steps)
    decreases |route|
  {
    if route != [] && route[0] < |Next(v, p)| {
      var c := Next(v, p)[route[0]];
      assert c in Next(v, p);
      RouteDropsSteps(v, flat, c, route[1..]);
      if Follow(v, p, route).Some? {
        SuffixOfSuffix(Follow(v, p, route).value.steps, c.steps, p.steps);
      }
    }
  }

  lemma FlatMeetsHarmlessly(v: Views, flat: Place -> bool, p: Place)
    requires FlatViews(v, flat) && flat(p)
    ensures MeetHarmlessly(v, p)
  {
    forall r1, r2, k | Enters(v, p, r1, k) && Enters(v, p, r2, k)
      ensures !PassesUnion(v, p, r1) && Follow(v, p, r1) == Follow(v, p, r2)
    {
      RouteDropsSteps(v, flat, p, r1);
      RouteDropsSteps(v, flat, p, r2);
    }
  }

  // ---------- Declarations without unions and indexed access ----------

  /** Where the walk looks in the type there is neither a union nor an indexed access. */
  ghost predicate Flat(node: TypeNode) {
    match node
    case Literal(members) => forall m | m in members :: m.Property? && m.annotation.Some? ==> Flat(m.annotation.value)
    case Parenthesized(inner) => Flat(inner)
    case Intersection(parts) => forall p | p in parts :: Flat(p)
    case Union(_) => false
    case ArrayOf(element) => Flat(element)
    case Operator(_, operand) => Flat(operand)
    case IndexedAccess(_, _) => false
    case Reference(head, _, args) => IsUtility(head) && args != [] ==> Flat(args[0])
    case Opaque => true
  }

  ghost predicate FlatDecl(d: Decl) {
    match d
    case Alias(body) => Flat(body)
    case Interface(members, _) => forall m | m in members :: m.Property? && m.annotation.Some? ==> Flat(m.annotation.value)
  }

  ghost predicate FlatWorld(w: World) {
    Closed(w) && forall id :: id in w.decls ==> FlatDecl(w.decls[id].decl)
  }

  ghost predicate FlatTarget(w: World, t: Target) {
    InWorld(w, t) && (t.Type? ==> Flat(t.node))
  }

  lemma NextOfFlat(w: World, p: Place)
    requires FlatWorld(w) && FlatTarget(w, p.target)
    ensures !ViewOf(w, p).AllOf?
    ensures forall c :: c in Next(ViewsIn(w), p) ==> FlatTarget(w, c.target) && IsSuffix(c.steps, p.steps)
  {
    NextInWorld(w, p);
    if p.steps != [] && p.target.Named? {
      assert FlatDecl(w.decls[p.target.id].decl);
    }
  }

  lemma FlatWorldHasFlatViews(w: World)
    requires FlatWorld(w)
    ensures FlatViews(ViewsIn(w), (p: Place) => FlatTarget(w, p.target))
  {
    forall p: Place | FlatTarget(w, p.target)
      ensures !ViewOf(w, p).AllOf?
      ensures forall c :: c in Next(ViewsIn(w), p) ==> FlatTarget(w, c.target) && IsSuffix(c.steps, p.steps)
    {
      NextOfFlat(w, p);
    }
  }

  /** Without indexed access no path ever gets longer, so one rank is enough. */
  lemma {:induction false} FlatIsRanked(w: World, rank: Rank, scope: Scope, node: TypeNode)
    requires FlatWorld(w) && Flat(node) && rank == map id | id in w.decls :: 0
    ensures Ranked(w, rank, scope, node, 0, false)
  {
    match node
    case Literal(members) =>
      forall m | m in members && m.Property? && m.annotation.Some?
        ensures Ranked(w, rank, scope, m.annotation.value, 0, false)
      {
        assert m < node && m.annotation.value < node;
        FlatIsRanked(w, rank, scope, m.annotation.value);
      }
    case Parenthesized(inner) => FlatIsRanked(w, rank, scope, inner);
    case Intersection(parts) =>
      forall p | p in parts ensures Ranked(w, rank, scope, p, 0, false) {
        FlatIsRanked(w, rank, scope, p);
      }
    case ArrayOf(element) => FlatIsRanked(w, rank, scope, element);
    case Operator(_, operand) => FlatIsRanked(w, rank, scope, operand);
    case Reference(head, _, args) =>
      if IsUtility(head) && args != [] {
        assert args[0] in args && args[0] < node;
        FlatIsRanked(w, rank, scope, args[0]);
      }
    case Opaque =>
  }

  lemma FlatWorldIsStratified(w: World) returns (rank: Rank)
    requires FlatWorld(w)
    ensures Stratified(w, rank)
  {
    rank := map id | id in w.decls :: 0;
    forall id | id in w.decls ensures RankedDecl(w, rank, w.decls[id], rank[id]) {
      var d := w.decls[id];
      assert FlatDecl(d.decl);
      match d.decl
      case Alias(body) => FlatIsRanked(w, rank, d.scope, body);
      case Interface(members, bases) =>
        forall m | m in members && m.Property? && m.annotation.Some?
          ensures Ranked(w, rank, d.scope, m.annotation.value, 0, false)
        {
          FlatIsRanked(w, rank, d.scope, m.annotation.value);
        }
    }
  }

  /**
   Without unions and indexed access a fresh walk ends, and it answers found exactly when the path is present in every
   reading. Recursive declarations and siblings that share the guard do not hide it.
   */
  lemma FlatWalkFindsExactlyWhatIsPresent(w: World, p: Place) returns (fuel: nat)
    requires Plain(w, p) && FlatWorld(w) && FlatTarget(w, p.target)
    ensures Lookup(ViewsIn(w), p, {}, fuel).Some?
    ensures Lookup(ViewsIn(w), p, {}, fuel).value.verdict == Found <==> forall rd: Reading :: Present(w, rd, p)
  {
    var rank := FlatWorldIsStratified(w);
    fuel := StratifiedWalksEnd(w, rank, p, {});
    FlatWorldHasFlatViews(w);
    FlatMeetsHarmlessly(ViewsIn(w), (q: Place) => FlatTarget(w, q.target), p);
    FoundExactly(w, p, fuel);
  }

  // ---------- What the shared guard loses ----------

  function Ref(name: string): TypeNode {
    Reference(name, false, [])
  }

  /** `interface Base { p }  interface A extends Base {}  interface B extends Base {}`. */
  function Siblings(): World {
    World(map[0 := Declared(Here(), Interface([Property("p", Some("p"), None)], [])),
              1 := Declared(Here(), Interface([], [NamedBase("Base")])),
              2 := Declared(Here(), Interface([], [NamedBase("Base")]))],
          map[("f", "Base") := Binding(0, [Named(0)]),
              ("f", "A") := Binding(1, [Named(1)]),
              ("f", "B") := Binding(2, [Named(2)])], {})
  }

  lemma SiblingsArePlain(node: TypeNode, name: string)
    requires node in {Union([Ref("A"), Ref("B")]), Intersection([Ref("A"), Ref("B")])}
    ensures Plain(Siblings(), At(node, name))
  {
    var w := Siblings();
    SiblingsAllowed();
    assert NameAllowed(w, {}, Here(), "A") && NameAllowed(w, {}, Here(), "B");
    assert TypeAllowed(w, {}, Here(), Ref("A")) && TypeAllowed(w, {}, Here(), Ref("B"));
  }

  lemma SiblingsAllowed()
    ensures WorldAllowed(Siblings(), {})
  {
    var w := Siblings();
    assert NameAllowed(w, {}, Here(), "Base");
    assert MemberAllowed(w, {}, Here(), Property("p", Some("p"), None));
    assert DeclAllowed(w, {}, w.decls[0]) && DeclAllowed(w, {}, w.decls[1]) && DeclAllowed(w, {}, w.decls[2]);
  }

  /** From `A` or `B` to `Base`. */
  lemma ToBase(which: nat, name: string)
    requires which in {1, 2}
    ensures var v, step := ViewsIn(Siblings()), [Member(name)];
      var sibling := Place(Named(which), step);
      && v(At(Ref(if which == 1 then "A" else "B"), name)) == AnyOf([sibling])
      && v(sibling) == AnyOf([Place(Named(0), step)])
      && v(Place(Named(0), step)) == if name == "p" then Answer(Found) else AnyOf([])
  {
    var base := Property("p", Some("p"), None);
    assert FindProperty([base], name) == if name == "p" then Some(base) else None;
  }

  lemma TwoWalks(v: Views, a: Place, b: Place, seen: set<Key>, fuel: nat, r: Walk, s: Walk)
    requires Lookup(v, a, seen, fuel) == Some(r) && Lookup(v, b, r.seen, fuel) == Some(s)
    ensures LookupEach(v, [a, b], seen, fuel) == Some(Walks([r.verdict, s.verdict], s.seen))
  {
    assert [a, b][1..] == [b] && [b][1..] == [];
    assert LookupEach(v, [], s.seen, fuel) == Some(Walks([], s.seen));
    assert [s.verdict] + [] == [s.verdict];
    assert LookupEach(v, [b], r.seen, fuel) == Some(Walks([s.verdict], s.seen));
    assert [r.verdict] + [s.verdict] == [r.verdict, s.verdict];
  }

  /** Two places that lead through declarations 1 and 2 to declaration 0. */
  ghost predicate Diamond(v: Views, a: Place, b: Place, step: seq<Step>) {
    && step != [] && a.target.Type? && b.target.Type?
    && v(a) == AnyOf([Place(Named(1), step)]) && v(b) == AnyOf([Place(Named(2), step)])
    && v(Place(Named(1), step)) == AnyOf([Place(Named(0), step)])
    && v(Place(Named(2), step)) == AnyOf([Place(Named(0), step)])
  }

  lemma DiamondVerdicts(v: Views, a: Place, b: Place, step: seq<Step>, fuel: nat)
    requires fuel >= 4 && Diamond(v, a, b, step) && v(Place(Named(0), step)) == Answer(Found)
    ensures LookupEach(v, [a, b], {}, fuel - 1).Some?
    ensures LookupEach(v, [a, b], {}, fuel - 1).value.verdicts == [Found, Unknown]
  {
    var base, first, second := Place(Named(0), step), Place(Named(1), step), Place(Named(2), step);
    var entered := Guarded(base, Guarded(first, {}));
    var two := Guarded(second, entered);
    WalkThrough(v, first, base, {}, fuel - 3, Walk(Found, entered));
    WalkThrough(v, a, first, {}, fuel - 2, Walk(Found, entered));
    assert EntryKey(base) in two && EntryKey(second) !in entered;
    assert Lookup(v, base, two, fuel - 3) == Some(Walk(Unknown, two));
    WalkThrough(v, second, base, entered, fuel - 3, Walk(Unknown, two));
    WalkThrough(v, b, second, entered, fuel - 2, Walk(Unknown, two));
    TwoWalks(v, a, b, {}, fuel - 1, Walk(Found, entered), Walk(Unknown, two));
  }

  lemma DiamondIsCertain(v: Views, a: Place, b: Place, step: seq<Step>)
    requires Diamond(v, a, b, step) && v(Place(Named(0), step)) == Answer(Found)
    ensures CertainBy(v, a, 3) && CertainBy(v, b, 3)
  {
    assert CertainBy(v, Place(Named(0), step), 1);
    CertainThrough(v, Place(Named(1), step), Place(Named(0), step), 1);
    CertainThrough(v, Place(Named(2), step), Place(Named(0), step), 1);
    CertainThrough(v, a, Place(Named(1), step), 2);
    CertainThrough(v, b, Place(Named(2), step), 2);
  }

  lemma UnionOfDiamond(v: Views, p: Place, a: Place, b: Place, step: seq<Step>, fuel: nat)
    requires fuel >= 4 && p.target.Type? && v(p) == AllOf([a, b])
    requires Diamond(v, a, b, step) && v(Place(Named(0), step)) == Answer(Found)
    ensures Lookup(v, p, {}, fuel).Some? && Lookup(v, p, {}, fuel).value.verdict == Unknown && Certain(v, p)
  {
    DiamondVerdicts(v, a, b, step, fuel);
    assert [Found, Unknown][1] in [Found, Unknown] && [Found, Unknown][0] in [Found, Unknown];
    DiamondIsCertain(v, a, b, step);
    assert CertainBy(v, p, 4);
  }

  lemma IntersectionOfDiamond(v: Views, p: Place, a: Place, b: Place, step: seq<Step>)
    requires v(p) == AnyOf([a, b]) && Diamond(v, a, b, step) && v(Place(Named(0), step)) == AnyOf([])
    ensures !Possible(v, p) && !Unambiguous(v, p)
  {
    NeverThrough(v, Place(Named(1), step), Place(Named(0), step));
    NeverThrough(v, Place(Named(2), step), Place(Named(0), step));
    NeverThrough(v, a, Place(Named(1), step));
    NeverThrough(v, b, Place(Named(2), step));
    forall d: nat ensures !PossibleBy(v, p, d) {
      if d > 0 {
        assert forall c :: c in [a, b] ==> !Possible(v, c);
        forall c | c in [a, b] ensures !PossibleBy(v, c, d - 1) {
          assert !Possible(v, c);
        }
      }
    }
    BothEnter(v, p, a, b, step);
  }

  /** `A | B` has `p` in every reading, but both lead to the same base: the second is cut and the answer is unknown. */
  lemma SharedBaseHidesMember(fuel: nat)
    requires fuel >= 4
    ensures var p := At(Union([Ref("A"), Ref("B")]), "p");
      && Plain(Siblings(), p)
      && Lookup(ViewsIn(Siblings()), p, {}, fuel).Some? && Lookup(ViewsIn(Siblings()), p, {}, fuel).value.verdict == Unknown
      && forall rd: Reading :: Present(Siblings(), rd, p)
  {
    var p, a, b := At(Union([Ref("A"), Ref("B")]), "p"), At(Ref("A"), "p"), At(Ref("B"), "p");
    SiblingsArePlain(Union([Ref("A"), Ref("B")]), "p");
    ToBase(1, "p");
    ToBase(2, "p");
    assert ViewsIn(Siblings())(p) == AllOf([a, b]);
    UnionOfDiamond(ViewsIn(Siblings()), p, a, b, [Member("p")], fuel);
    CertainIffInAll(Siblings(), p);
  }

  /** `A & B` has no `q` in any reading, yet the same base is met twice and the answer is unknown, not missing. */
  lemma SharedBaseHidesAbsence(fuel: nat)
    requires Lookup(ViewsIn(Siblings()), At(Intersection([Ref("A"), Ref("B")]), "q"), {}, fuel).Some?
    ensures var p := At(Intersection([Ref("A"), Ref("B")]), "q");
      && Plain(Siblings(), p)
      && Lookup(ViewsIn(Siblings()), p, {}, fuel).value.verdict == Unknown
      && forall rd: Reading :: !Present(Siblings(), rd, p)
  {
    var p, a, b := At(Intersection([Ref("A"), Ref("B")]), "q"), At(Ref("A"), "q"), At(Ref("B"), "q");
    SiblingsArePlain(Intersection([Ref("A"), Ref("B")]), "q");
    ToBase(1, "q");
    ToBase(2, "q");
    assert ViewsIn(Siblings())(p) == AnyOf([a, b]);
    IntersectionOfDiamond(ViewsIn(Siblings()), p, a, b, [Member("q")]);
    LostIsUnknown(ViewsIn(Siblings()), p, fuel);
    PossibleIffInSome(Siblings(), p);
  }

  /** An absent path to which two routes lead to one entry is answered unknown. */
  lemma LostIsUnknown(v: Views, p: Place, fuel: nat)
    requires !Possible(v, p) && !Unambiguous(v, p) && Lookup(v, p, {}, fuel).Some?
    ensures Lookup(v, p, {}, fuel).value.verdict == Unknown
  {
    GenericVerdict(v, p, fuel);
    if Lookup(v, p, {}, fuel).value.verdict == Found {
      FoundIsCertain(v, p, {}, fuel);
      CertainIsPossible(v, p, fuel);
    }
  }

  lemma {:induction false} CertainIsPossible(v: Views, p: Place, d: nat)
    requires CertainBy(v, p, d)
    ensures PossibleBy(v, p, d)
    decreases d
  {
    var places := Next(v, p);
    if !v(p).Answer? && places != [] {
      assert v(p).AllOf? ==> places[0] in places;
      var c :| c in places && CertainBy(v, c, d - 1);
      CertainIsPossible(v, c, d - 1);
    }
  }

  lemma NeverThrough(v: Views, p: Place, c: Place)
    requires v(p) == AnyOf([c]) && (v(c) == AnyOf([]) || !Possible(v, c))
    ensures !Possible(v, p)
  {
    forall d: nat ensures !PossibleBy(v, p, d) {
      if d > 0 {
        assert !PossibleBy(v, c, d - 1) by {
          assert PossibleBy(v, c, d - 1) ==> Possible(v, c);
        }
      }
    }
  }

  lemma BothEnter(v: Views, p: Place, a: Place, b: Place, step: seq<Step>)
    requires v(p) == AnyOf([a, b]) && Diamond(v, a, b, step)
    ensures !Unambiguous(v, p)
  {
    var base, k := Place(Named(0), step), (0, |step|);
    assert Enters(v, base, [], k);
    EntersNext(v, Place(Named(1), step), 0, [], k);
    EntersNext(v, Place(Named(2), step), 0, [], k);
    EntersNext(v, a, 0, [0] + [], k);
    EntersNext(v, b, 0, [0] + [], k);
    EntersNext(v, p, 0, [0] + ([0] + []), k);
    EntersNext(v, p, 1, [0] + ([0] + []), k);
    assert ([0] + ([0] + ([0] + [])))[0] != ([1] + ([0] + ([0] + [])))[0];
    EntersTwice(v, p, [0] + ([0] + ([0] + [])), [1] + ([0] + ([0] + [])), k);
  }

  /** `interface X { a: {}; b: { p } }`. */
  function TwoMembers(): World {
    World(map[0 := Declared(Here(), Interface([Property("a", Some("a"), Some(Literal([]))),
                                               Property("b", Some("b"), Some(Literal([Property("p", Some("p"), None)])))], []))],
          map[("f", "X") := Binding(0, [Named(0)])], {})
  }

  /** `X['key']` leads to the member's type, after X was entered with two steps left. */
  lemma EntersX(key: string)
    requires key in {"a", "b"}
    ensures var v, steps := ViewsIn(TwoMembers()), [Member(key)] + [Member("p")];
      var node := if key == "a" then Literal([]) else Literal([Property("p", Some("p"), None)]);
      && v(At(IndexedAccess(Ref("X"), Some(key)), "p")) == AnyOf([Place(Type(Here(), Ref("X")), steps)])
      && v(Place(Type(Here(), Ref("X")), steps)) == AnyOf([Place(Named(0), steps)])
      && v(Place(Named(0), steps)) == AnyOf([At(node, "p")])
      && v(At(node, "p")) == Answer(if key == "a" then Missing else Found)
  {
    var members, p := TwoMembers().decls[0].decl.members, Property("p", Some("p"), None);
    assert FindProperty(members, "a") == Some(members[0]);
    assert FindProperty(members[1..], "b") == Some(members[1]) && FindProperty(members, "b") == Some(members[1]);
    assert FindProperty([p], "p") == Some(p) && FindProperty([], "p") == None;
    assert ([Member(key)] + [Member("p")])[1..] == [Member("p")];
  }

  /** Two places that enter one declaration with as many steps left, one to miss and the other to find. */
  ghost predicate TwiceInto(v: Views, a: Place, b: Place, ra: Place, rb: Place, sa: seq<Step>, sb: seq<Step>, la: Place, lb: Place) {
    && sa != [] && |sa| == |sb| && a.target.Type? && b.target.Type? && ra.target.Type? && rb.target.Type?
    && la.target.Type? && lb.target.Type?
    && v(a) == AnyOf([ra]) && v(ra) == AnyOf([Place(Named(0), sa)]) && v(Place(Named(0), sa)) == AnyOf([la])
    && v(b) == AnyOf([rb]) && v(rb) == AnyOf([Place(Named(0), sb)]) && v(Place(Named(0), sb)) == AnyOf([lb])
    && v(la) == Answer(Missing) && v(lb) == Answer(Found)
  }

  lemma SecondIsCut(v: Views, p: Place, a: Place, b: Place, ra: Place, rb: Place, sa: seq<Step>, sb: seq<Step>, la: Place, lb: Place, fuel: nat)
    requires fuel >= 5 && p.target.Type? && v(p) == AnyOf([a, b]) && TwiceInto(v, a, b, ra, rb, sa, sb, la, lb)
    ensures Lookup(v, p, {}, fuel).Some? && Lookup(v, p, {}, fuel).value.verdict == Unknown && Certain(v, p)
  {
    var na, nb := Place(Named(0), sa), Place(Named(0), sb);
    var guard := Guarded(na, {});
    WalkThrough(v, na, la, {}, fuel - 4, Walk(Missing, guard));
    WalkThrough(v, ra, na, {}, fuel - 3, Walk(Missing, guard));
    WalkThrough(v, a, ra, {}, fuel - 2, Walk(Missing, guard));
    assert EntryKey(nb) in guard;
    assert Lookup(v, nb, guard, fuel - 3) == Some(Walk(Unknown, guard));
    WalkThrough(v, rb, nb, guard, fuel - 3, Walk(Unknown, guard));
    WalkThrough(v, b, rb, guard, fuel - 2, Walk(Unknown, guard));
    TwoWalks(v, a, b, {}, fuel - 1, Walk(Missing, guard), Walk(Unknown, guard));
    assert [Missing, Unknown][1] in [Missing, Unknown];
    CertainThrough(v, nb, lb, 1);
    CertainThrough(v, rb, nb, 2);
    CertainThrough(v, b, rb, 3);
    assert b == [a, b][1] && b in [a, b] && CertainBy(v, b, 4);
    assert CertainBy(v, p, 5);
  }

  /**
   `X['a'] & X['b']` has `p` in every reading, but both parts enter X with two steps left: the second is taken for a
   recursion and the answer is unknown.
   */
  lemma LengthOnlyGuardHidesMember(fuel: nat)
    requires fuel >= 5
    ensures var p := At(Intersection([IndexedAccess(Ref("X"), Some("a")), IndexedAccess(Ref("X"), Some("b"))]), "p");
      && Plain(TwoMembers(), p)
      && Lookup(ViewsIn(TwoMembers()), p, {}, fuel).Some? && Lookup(ViewsIn(TwoMembers()), p, {}, fuel).value.verdict == Unknown
      && forall rd: Reading :: Present(TwoMembers(), rd, p)
  {
    var xa, xb := IndexedAccess(Ref("X"), Some("a")), IndexedAccess(Ref("X"), Some("b"));
    var p, a, b := At(Intersection([xa, xb]), "p"), At(xa, "p"), At(xb, "p");
    var sa, sb := [Member("a")] + [Member("p")], [Member("b")] + [Member("p")];
    TwoMembersArePlain(p);
    EntersX("a");
    EntersX("b");
    assert ViewsIn(TwoMembers())(p) == AnyOf([a, b]);
    SecondIsCut(ViewsIn(TwoMembers()), p, a, b, Place(Type(Here(), Ref("X")), sa), Place(Type(Here(), Ref("X")), sb), sa, sb,
                At(Literal([]), "p"), At(Literal([Property("p", Some("p"), None)]), "p"), fuel);
    CertainIffInAll(TwoMembers(), p);
  }

  lemma CertainThrough(v: Views, p: Place, c: Place, d: nat)
    requires v(p) == AnyOf([c]) && CertainBy(v, c, d)
    ensures CertainBy(v, p, d + 1)
  {
    assert c in [c];
  }

  lemma TwoMembersArePlain(p: Place)
    requires p == At(Intersection([IndexedAccess(Ref("X"), Some("a")), IndexedAccess(Ref("X"), Some("b"))]), "p")
    ensures Plain(TwoMembers(), p)
  {
    var w, m := TwoMembers(), Property("p", Some("p"), None);
    assert NameAllowed(w, {}, Here(), "X") && TypeAllowed(w, {}, Here(), Ref("X"));
    assert MemberAllowed(w, {}, Here(), m);
    assert TypeAllowed(w, {}, Here(), Literal([])) && TypeAllowed(w, {}, Here(), Literal([m]));
    assert DeclAllowed(w, {}, w.decls[0]);
  }
}
