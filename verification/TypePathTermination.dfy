/**
 When the guarded walk ends. Indexed access lengthens the path, so the guard alone does not bound it: the walk ends
 exactly when some length bounds the path at every declaration it comes to.
 */
module TypePathTermination {
  import opened Outcomes
  import opened TypePathLookup
  import opened TypePathCompleteness

  // ---------- Walks that end ----------

  ghost predicate Ends(v: Views, p: Place, seen: set<Key>) {
    exists fuel: nat :: Lookup(v, p, seen, fuel).Some?
  }

  /** What a walk that ends comes to. */
  ghost function ResultOf(v: Views, p: Place, seen: set<Key>): Walk
    requires Ends(v, p, seen)
  {
    var fuel: nat :| Lookup(v, p, seen, fuel).Some?;
    Lookup(v, p, seen, fuel).value
  }

  lemma ResultIs(v: Views, p: Place, seen: set<Key>, fuel: nat)
    requires Lookup(v, p, seen, fuel).Some?
    ensures Ends(v, p, seen) && ResultOf(v, p, seen) == Lookup(v, p, seen, fuel).value
  {
    var other: nat :| Lookup(v, p, seen, other).Some? && ResultOf(v, p, seen) == Lookup(v, p, seen, other).value;
    MoreFuel(v, p, seen, fuel, Max(fuel, other));
    MoreFuel(v, p, seen, other, Max(fuel, other));
  }

  function Max(a: nat, b: nat): nat {
    if a < b then b else a
  }

  // ---------- Where a walk comes to ----------

  /** The guard with which place j is walked, if the walks of those before it end. */
  ghost function GuardBefore(v: Views, places: seq<Place>, guard: set<Key>, j: nat): Option<set<Key>>
    requires j <= |places|
  {
    if j == 0 then Some(guard)
    else if Ends(v, places[0], guard) then GuardBefore(v, places[1..], ResultOf(v, places[0], guard).seen, j - 1)
    else None
  }

  predicate IsCut(p: Place, seen: set<Key>) {
    IsEntry(p) && EntryKey(p) in seen
  }

  /** The place a walk comes to on a route, unless the guard cuts it or an earlier place keeps it for ever. */
  ghost function Visit(v: Views, p: Place, seen: set<Key>, route: seq<nat>): Option<Place>
    decreases |route|
  {
    if route == [] then Some(p)
    else if IsCut(p, seen) || route[0] >= |Next(v, p)| then None
    else
      var guard := GuardBefore(v, Next(v, p), Guarded(p, seen), route[0]);
      if guard.None? then None else Visit(v, Next(v, p)[route[0]], guard.value, route[1..])
  }

  /** At every declaration the walk comes to, at most `len` steps are left. */
  ghost predicate Bounded(v: Views, p: Place, seen: set<Key>, len: nat) {
    forall route :: Visit(v, p, seen, route).Some? && IsEntry(Visit(v, p, seen, route).value) ==>
      |Visit(v, p, seen, route).value.steps| <= len
  }

  ghost predicate EachBounded(v: Views, places: seq<Place>, guard: set<Key>, len: nat) {
    forall j: nat :: j < |places| && GuardBefore(v, places, guard, j).Some? ==>
      Bounded(v, places[j], GuardBefore(v, places, guard, j).value, len)
  }

  lemma VisitNext(v: Views, p: Place, seen: set<Key>, j: nat, route: seq<nat>)
    requires !IsCut(p, seen) && j < |Next(v, p)| && GuardBefore(v, Next(v, p), Guarded(p, seen), j).Some?
    ensures Visit(v, p, seen, [j] + route) ==
      Visit(v, Next(v, p)[j], GuardBefore(v, Next(v, p), Guarded(p, seen), j).value, route)
  {
    assert ([j] + route)[1..] == route;
  }

  lemma NextBounded(v: Views, p: Place, seen: set<Key>, len: nat)
    requires Bounded(v, p, seen, len) && !IsCut(p, seen)
    ensures EachBounded(v, Next(v, p), Guarded(p, seen), len)
  {
    var places, guard := Next(v, p), Guarded(p, seen);
    forall j: nat, route | j < |places| && GuardBefore(v, places, guard, j).Some?
      ensures Visit(v, p, seen, [j] + route) == Visit(v, places[j], GuardBefore(v, places, guard, j).value, route)
    {
      VisitNext(v, p, seen, j, route);
    }
  }

  lemma RestBounded(v: Views, places: seq<Place>, guard: set<Key>, len: nat)
    requires places != [] && EachBounded(v, places, guard, len) && Ends(v, places[0], guard)
    ensures EachBounded(v, places[1..], ResultOf(v, places[0], guard).seen, len)
  {
    var after := ResultOf(v, places[0], guard).seen;
    forall j: nat | j < |places| - 1 ensures GuardBefore(v, places[1..], after, j) == GuardBefore(v, places, guard, j + 1) {
    }
    assert forall j: nat :: j < |places| - 1 ==> places[1..][j] == places[j + 1];
  }

  // ---------- A bounded walk ends ----------

  /** Guard entries not yet made for declarations entered with at most `len` steps left. */
  ghost function Unseen(w: World, seen: set<Key>, len: nat): (s: set<Key>)
    ensures forall id: DeclId, n: nat :: (id, n) in s <==> id in w.decls && n <= len && (id, n) !in seen
  {
    var all := set id: DeclId, n: nat | id in w.decls && 0 <= n <= len :: (id, n);
    assert forall id: DeclId, n: nat :: (id, n) in all <==> id in w.decls && n <= len;
    all - seen
  }

  lemma UnseenShrinks(w: World, seen: set<Key>, seen': set<Key>, len: nat)
    requires seen <= seen'
    ensures |Unseen(w, seen', len)| <= |Unseen(w, seen, len)|
    ensures forall id, n :: (id, n) in seen' - seen && id in w.decls && n <= len ==>
      |Unseen(w, seen', len)| < |Unseen(w, seen, len)|
  {
    var a, b := Unseen(w, seen', len), Unseen(w, seen, len);
    assert a <= b;
    SubsetSize(a, b);
    forall id, n | (id, n) in seen' - seen && id in w.decls && n <= len ensures |a| < |b| {
      SubsetSize(a, b - {(id, n)});
    }
  }

  lemma {:induction false} SubsetSize(a: set<Key>, b: set<Key>)
    requires a <= b
    ensures |a| <= |b|
  {
    if a != {} {
      var x :| x in a;
      SubsetSize(a - {x}, b - {x});
    }
  }

  function NodeOf(t: Target): TypeNode {
    if t.Type? then t.node else Opaque
  }

  /** After a type the walk goes on to parts of it, or to declarations. */
  lemma PartsAreSmaller(w: World, p: Place)
    requires p.target.Type?
    ensures forall c :: c in Next(ViewsIn(w), p) && c.target.Type? ==> c.target.node < p.target.node
  {
    if p.steps != [] {
      match p.target.node
      case Literal(members) =>
        if p.steps[0].Member? {
          var m := FindProperty(members, p.steps[0].name);
          assert m.Some? ==> m.value < p.target.node;
        }
      case Reference(head, _, args) => assert args != [] ==> args[0] in args && args[0] < p.target.node;
      case _ =>
    }
  }

  ghost predicate Follows(w: World, parent: Target, c: Place) {
    InWorld(w, c.target) && (parent.Type? && c.target.Type? ==> c.target.node < parent.node)
  }

  lemma NextFollows(w: World, p: Place)
    requires Closed(w) && InWorld(w, p.target)
    ensures forall c :: c in Next(ViewsIn(w), p) ==> Follows(w, p.target, c)
  {
    NextInWorld(w, p);
    if p.target.Type? {
      PartsAreSmaller(w, p);
    }
  }

  lemma WalkFromEach(v: Views, p: Place, seen: set<Key>, fuel: nat)
    requires IsCut(p, seen) || LookupEach(v, Next(v, p), Guarded(p, seen), fuel).Some?
    ensures Lookup(v, p, seen, fuel + 1).Some?
  {
  }

  lemma EachFromFirst(v: Views, places: seq<Place>, seen: set<Key>, first: nat, rest: nat)
    requires places != [] && Lookup(v, places[0], seen, first).Some?
    requires LookupEach(v, places[1..], Lookup(v, places[0], seen, first).value.seen, rest).Some?
    ensures LookupEach(v, places, seen, Max(first, rest)).Some?
  {
    MoreFuel(v, places[0], seen, first, Max(first, rest));
    MoreFuelEach(v, places[1..], Lookup(v, places[0], seen, first).value.seen, rest, Max(first, rest));
  }

  /** Places that answer, or only the empty path, lead nowhere. */
  lemma NothingNext(w: World, p: Place)
    requires !p.target.Type? && !IsEntry(p)
    ensures Next(ViewsIn(w), p) == []
  {
  }

  /** The measure: the guard entries not made yet for paths within the bound, then the type. */
  lemma {:induction false} WalkEnds(w: World, p: Place, seen: set<Key>, len: nat) returns (fuel: nat)
    requires Closed(w) && InWorld(w, p.target) && Bounded(ViewsIn(w), p, seen, len)
    ensures Lookup(ViewsIn(w), p, seen, fuel).Some?
    decreases |Unseen(w, seen, len)|, if p.target.Type? then 1 else 0, NodeOf(p.target), 2, 0
  {
    fuel := 0;
    if !IsCut(p, seen) {
      NextFollows(w, p);
      NextBounded(ViewsIn(w), p, seen, len);
      if IsEntry(p) {
        assert Visit(ViewsIn(w), p, seen, []) == Some(p);
        UnseenShrinks(w, seen, Guarded(p, seen), len);
        fuel := EachEnds(w, p.target, Next(ViewsIn(w), p), Guarded(p, seen), len);
      } else if p.target.Type? {
        fuel := EachEnds(w, p.target, Next(ViewsIn(w), p), seen, len);
      } else {
        NothingNext(w, p);
      }
    }
    WalkFromEach(ViewsIn(w), p, seen, fuel);
    fuel := fuel + 1;
  }

  lemma {:induction false} EachEnds(w: World, parent: Target, places: seq<Place>, seen: set<Key>, len: nat) returns (fuel: nat)
    requires Closed(w) && EachBounded(ViewsIn(w), places, seen, len) && forall c :: c in places ==> Follows(w, parent, c)
    ensures LookupEach(ViewsIn(w), places, seen, fuel).Some?
    decreases |Unseen(w, seen, len)|, if parent.Type? then 1 else 2, NodeOf(parent), 1, |places|
  {
    fuel := 0;
    if places != [] {
      assert Follows(w, parent, places[0]);
      assert GuardBefore(ViewsIn(w), places, seen, 0) == Some(seen);
      var first := WalkEnds(w, places[0], seen, len);
      ResultIs(ViewsIn(w), places[0], seen, first);
      var seen' := Lookup(ViewsIn(w), places[0], seen, first).value.seen;
      UnseenShrinks(w, seen, seen', len);
      RestBounded(ViewsIn(w), places, seen, len);
      var rest := EachEnds(w, parent, places[1..], seen', len);
      fuel := Max(first, rest);
      EachFromFirst(ViewsIn(w), places, seen, first, rest);
    }
  }

  // ---------- A walk that ends is bounded ----------

  lemma BoundedLonger(v: Views, p: Place, seen: set<Key>, len: nat, more: nat)
    requires Bounded(v, p, seen, len) && len <= more
    ensures Bounded(v, p, seen, more)
  {
  }

  lemma BoundedFromNext(v: Views, p: Place, seen: set<Key>, len: nat)
    requires IsCut(p, seen) || EachBounded(v, Next(v, p), Guarded(p, seen), len)
    requires |p.steps| <= len
    ensures Bounded(v, p, seen, len)
  {
    forall route | Visit(v, p, seen, route).Some? && IsEntry(Visit(v, p, seen, route).value)
      ensures |Visit(v, p, seen, route).value.steps| <= len
    {
      if route != [] {
        var guard := GuardBefore(v, Next(v, p), Guarded(p, seen), route[0]).value;
        assert Bounded(v, Next(v, p)[route[0]], guard, len);
      }
    }
  }

  lemma {:induction false} EndedIsBounded(v: Views, p: Place, seen: set<Key>, fuel: nat) returns (len: nat)
    requires Lookup(v, p, seen, fuel).Some?
    ensures Bounded(v, p, seen, len)
    decreases fuel, 0
  {
    len := 0;
    if !IsCut(p, seen) && !v(p).Answer? {
      len := EachEndedIsBounded(v, Next(v, p), Guarded(p, seen), fuel - 1);
    }
    var more := Max(len, |p.steps|);
    forall j: nat | !IsCut(p, seen) && j < |Next(v, p)| && GuardBefore(v, Next(v, p), Guarded(p, seen), j).Some?
      ensures Bounded(v, Next(v, p)[j], GuardBefore(v, Next(v, p), Guarded(p, seen), j).value, more)
    {
      BoundedLonger(v, Next(v, p)[j], GuardBefore(v, Next(v, p), Guarded(p, seen), j).value, len, more);
    }
    BoundedFromNext(v, p, seen, more);
    len := more;
  }

  lemma {:induction false} EachEndedIsBounded(v: Views, places: seq<Place>, guard: set<Key>, fuel: nat) returns (len: nat)
    requires LookupEach(v, places, guard, fuel).Some?
    ensures EachBounded(v, places, guard, len)
    decreases fuel, 1 + |places|
  {
    len := 0;
    if places != [] {
      var after := Lookup(v, places[0], guard, fuel).value.seen;
      ResultIs(v, places[0], guard, fuel);
      var first := EndedIsBounded(v, places[0], guard, fuel);
      var rest := EachEndedIsBounded(v, places[1..], after, fuel);
      len := Max(first, rest);
      forall j: nat | j < |places| && GuardBefore(v, places, guard, j).Some?
        ensures Bounded(v, places[j], GuardBefore(v, places, guard, j).value, len)
      {
        if j == 0 {
          BoundedLonger(v, places[0], guard, first, len);
        } else {
          assert places[1..][j - 1] == places[j];
          BoundedLonger(v, places[j], GuardBefore(v, places[1..], after, j - 1).value, rest, len);
        }
      }
    }
  }

  /** In every closed world: a walk ends exactly when some length bounds the path at every declaration it comes to. */
  lemma EndsIffBounded(w: World, p: Place, seen: set<Key>)
    requires Closed(w) && InWorld(w, p.target)
    ensures Ends(ViewsIn(w), p, seen) <==> exists len: nat :: Bounded(ViewsIn(w), p, seen, len)
  {
    if Ends(ViewsIn(w), p, seen) {
      var fuel: nat :| Lookup(ViewsIn(w), p, seen, fuel).Some?;
      var len := EndedIsBounded(ViewsIn(w), p, seen, fuel);
    }
    if len: nat :| Bounded(ViewsIn(w), p, seen, len) {
      var fuel := WalkEnds(w, p, seen, len);
    }
  }

  // ---------- Bounded routes ----------

  /** At every declaration that some route leads to, at most `len` steps are left; the guard plays no part. */
  ghost predicate RoutesBounded(v: Views, p: Place, len: nat) {
    forall route :: Follow(v, p, route).Some? && IsEntry(Follow(v, p, route).value) ==> |Follow(v, p, route).value.steps| <= len
  }

  lemma {:induction false} VisitFollowsRoute(v: Views, p: Place, seen: set<Key>, route: seq<nat>)
    requires Visit(v, p, seen, route).Some?
    ensures Follow(v, p, route) == Visit(v, p, seen, route)
    decreases |route|
  {
    if route != [] {
      var guard := GuardBefore(v, Next(v, p), Guarded(p, seen), route[0]).value;
      VisitFollowsRoute(v, Next(v, p)[route[0]], guard, route[1..]);
    }
  }

  /** If a length bounds the path on all routes, the walk ends with every guard. */
  lemma RoutesBoundedWalkEnds(w: World, p: Place, seen: set<Key>, len: nat) returns (fuel: nat)
    requires Closed(w) && InWorld(w, p.target) && RoutesBounded(ViewsIn(w), p, len)
    ensures Lookup(ViewsIn(w), p, seen, fuel).Some?
    ensures forall more: nat :: fuel <= more ==> Lookup(ViewsIn(w), p, seen, more) == Lookup(ViewsIn(w), p, seen, fuel)
  {
    forall route | Visit(ViewsIn(w), p, seen, route).Some? ensures Follow(ViewsIn(w), p, route) == Visit(ViewsIn(w), p, seen, route) {
      VisitFollowsRoute(ViewsIn(w), p, seen, route);
    }
    fuel := WalkEnds(w, p, seen, len);
    forall more: nat | fuel <= more ensures Lookup(ViewsIn(w), p, seen, more) == Lookup(ViewsIn(w), p, seen, fuel) {
      MoreFuel(ViewsIn(w), p, seen, fuel, more);
    }
  }
}
