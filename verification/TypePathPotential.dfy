/**
 Conditions on the declarations under which every walk ends: a potential that makes up for the steps that indexed access
 adds, and as a special case that no declaration reaches itself through indexed access. An alias defined by indexed
 access on itself has none, and is walked forever.
 */
module TypePathPotential {
  import opened Outcomes
  import opened TypePathLookup
  import opened TypePathCompleteness
  import opened TypePathTermination

  // ---------- Potentials ----------

  type Potential = map<DeclId, nat>

  /**
   Every declaration that the type leads to has at most this potential left: one less for every indexed access on the
   way, one more for every member or element.
   */
  ghost predicate Sinks(w: World, h: Potential, scope: Scope, node: TypeNode, left: int) {
    match node
    case Literal(members) =>
      forall m | m in members :: m.Property? && m.annotation.Some? ==> Sinks(w, h, scope, m.annotation.value, left + 1)
    case Parenthesized(inner) => Sinks(w, h, scope, inner, left)
    case Intersection(parts) => forall p | p in parts :: Sinks(w, h, scope, p, left)
    case Union(branches) => forall b | b in branches :: Sinks(w, h, scope, b, left)
    case ArrayOf(element) => Sinks(w, h, scope, element, left + 1)
    case Operator(_, operand) => Sinks(w, h, scope, operand, left)
    case IndexedAccess(owner, key) => key.Some? ==> Sinks(w, h, scope, owner, left - 1)
    case Reference(head, qualified, args) =>
      if head in PASSTHROUGH && args != [] then Sinks(w, h, scope, args[0], left)
      else if head in ARRAYS && args != [] then Sinks(w, h, scope, args[0], left + 1)
      else qualified || TargetSinks(h, Resolve(w, scope, head), left)
    case Opaque => true
  }

  ghost predicate TargetSinks(h: Potential, t: Target, left: int) {
    t.Named? ==> t.id in h && h[t.id] <= left
  }

  ghost predicate DeclSinks(w: World, h: Potential, d: Declared, left: int) {
    match d.decl
    case Alias(body) => Sinks(w, h, d.scope, body, left)
    case Interface(members, bases) =>
      && (forall m | m in members :: m.Property? && m.annotation.Some? ==> Sinks(w, h, d.scope, m.annotation.value, left + 1))
      && forall b | b in bases :: TargetSinks(h, BaseTarget(w, d.scope, b), left)
  }

  /** No way from a declaration to a declaration gains more steps than the potential falls. */
  ghost predicate Sinking(w: World, h: Potential) {
    && Closed(w)
    && h.Keys == w.decls.Keys
    && forall id :: id in w.decls ==> DeclSinks(w, h, w.decls[id], h[id])
  }

  lemma {:induction false} SinksMore(w: World, h: Potential, scope: Scope, node: TypeNode, left: int, more: int)
    requires Sinks(w, h, scope, node, left) && left <= more
    ensures Sinks(w, h, scope, node, more)
  {
    match node
    case Literal(members) =>
      forall m | m in members && m.Property? && m.annotation.Some? ensures Sinks(w, h, scope, m.annotation.value, more + 1) {
        assert m < node && m.annotation.value < node;
        SinksMore(w, h, scope, m.annotation.value, left + 1, more + 1);
      }
    case Parenthesized(inner) => SinksMore(w, h, scope, inner, left, more);
    case Intersection(parts) =>
      forall p | p in parts ensures Sinks(w, h, scope, p, more) {
        SinksMore(w, h, scope, p, left, more);
      }
    case Union(branches) =>
      forall b | b in branches ensures Sinks(w, h, scope, b, more) {
        SinksMore(w, h, scope, b, left, more);
      }
    case ArrayOf(element) => SinksMore(w, h, scope, element, left + 1, more + 1);
    case Operator(_, operand) => SinksMore(w, h, scope, operand, left, more);
    case IndexedAccess(owner, key) =>
      if key.Some? {
        SinksMore(w, h, scope, owner, left - 1, more - 1);
      }
    case Reference(head, _, args) =>
      if IsUtility(head) && args != [] {
        assert args[0] in args && args[0] < node;
        if head in PASSTHROUGH {
          SinksMore(w, h, scope, args[0], left, more);
        } else {
          SinksMore(w, h, scope, args[0], left + 1, more + 1);
        }
      }
    case Opaque =>
  }

  // ---------- A potential bounds every route ----------

  /** Steps and potential together stay within the bound. */
  ghost predicate Within(w: World, h: Potential, p: Place, bound: nat) {
    match p.target
    case Type(scope, node) => Sinks(w, h, scope, node, bound - |p.steps|)
    case Named(_) => TargetSinks(h, p.target, bound - |p.steps|)
    case OutOfReach => true
  }

  lemma NextOfTypeWithin(w: World, h: Potential, p: Place, bound: nat)
    requires Closed(w) && p.target.Type? && p.steps != [] && Within(w, h, p, bound)
    ensures forall c :: c in Next(ViewsIn(w), p) ==> Within(w, h, c, bound)
  {
    var steps := p.steps;
    match p.target.node
    case Literal(members) =>
      if steps[0].Member? {
        var m := FindProperty(members, steps[0].name);
        assert m.Some? ==> m.value in members;
      }
    case _ =>
  }

  lemma NextOfDeclWithin(w: World, h: Potential, p: Place, bound: nat)
    requires Sinking(w, h) && IsEntry(p) && p.target.id in w.decls && Within(w, h, p, bound)
    ensures forall c :: c in Next(ViewsIn(w), p) ==> Within(w, h, c, bound)
  {
    var d, left, more := w.decls[p.target.id], h[p.target.id], bound - |p.steps|;
    assert DeclSinks(w, h, d, left);
    match d.decl
    case Alias(body) => SinksMore(w, h, d.scope, body, left, more);
    case Interface(members, bases) =>
      if p.steps[0].Member? {
        var m := FindProperty(members, p.steps[0].name);
        if m.Some? && m.value.annotation.Some? {
          assert m.value in members;
          SinksMore(w, h, d.scope, m.value.annotation.value, left + 1, more + 1);
        }
      }
  }

  lemma NextWithin(w: World, h: Potential, p: Place, bound: nat)
    requires Sinking(w, h) && InWorld(w, p.target) && Within(w, h, p, bound)
    ensures forall c :: c in Next(ViewsIn(w), p) ==> InWorld(w, c.target) && Within(w, h, c, bound)
  {
    NextInWorld(w, p);
    if IsEntry(p) {
      NextOfDeclWithin(w, h, p, bound);
    } else if p.target.Type? && p.steps != [] {
      NextOfTypeWithin(w, h, p, bound);
    } else {
      NothingFollows(w, p);
    }
  }

  lemma NothingFollows(w: World, p: Place)
    requires p.steps == [] || (!p.target.Type? && !IsEntry(p))
    ensures Next(ViewsIn(w), p) == []
  {
  }

  lemma {:induction false} RouteStaysWithin(w: World, h: Potential, p: Place, route: seq<nat>, bound: nat)
    requires Sinking(w, h) && InWorld(w, p.target) && Within(w, h, p, bound)
    requires Follow(ViewsIn(w), p, route).Some?
    ensures Within(w, h, Follow(ViewsIn(w), p, route).value, bound) && InWorld(w, Follow(ViewsIn(w), p, route).value.target)
    decreases |route|
  {
    if route != [] {
      NextWithin(w, h, p, bound);
      var c := Next(ViewsIn(w), p)[route[0]];
      assert c in Next(ViewsIn(w), p);
      RouteStaysWithin(w, h, c, route[1..], bound);
    }
  }

  // ---------- From any type ----------

  /** How many indexed accesses lie inside each other. */
  function IndexDepth(node: TypeNode): nat {
    match node
    case Literal(members) => MembersDepth(members)
    case Parenthesized(inner) => IndexDepth(inner)
    case Intersection(parts) => EachDepth(parts)
    case Union(branches) => EachDepth(branches)
    case ArrayOf(element) => IndexDepth(element)
    case Operator(_, operand) => IndexDepth(operand)
    case IndexedAccess(owner, _) => 1 + IndexDepth(owner)
    case Reference(_, _, args) => EachDepth(args)
    case Opaque => 0
  }

  function EachDepth(nodes: seq<TypeNode>): (d: nat)
    ensures forall n :: n in nodes ==> IndexDepth(n) <= d
  {
    if nodes == [] then 0 else Max(IndexDepth(nodes[0]), EachDepth(nodes[1..]))
  }

  function MemberDepth(m: Signature): nat {
    match m
    case Property(_, _, annotation) => if annotation.Some? then IndexDepth(annotation.value) else 0
    case _ => 0
  }

  function MembersDepth(members: seq<Signature>): (d: nat)
    ensures forall m :: m in members ==> MemberDepth(m) <= d
  {
    if members == [] then 0 else Max(MemberDepth(members[0]), MembersDepth(members[1..]))
  }

  /** With the largest potential left after all indexed accesses, any type sinks. */
  lemma {:induction false} EverythingSinks(w: World, h: Potential, top: nat, scope: Scope, node: TypeNode, left: int)
    requires Closed(w) && h.Keys == w.decls.Keys && (forall id :: id in h ==> h[id] <= top) && top + IndexDepth(node) <= left
    ensures Sinks(w, h, scope, node, left)
  {
    match node
    case Literal(members) =>
      forall m | m in members && m.Property? && m.annotation.Some? ensures Sinks(w, h, scope, m.annotation.value, left + 1) {
        assert m < node && m.annotation.value < node && MemberDepth(m) <= MembersDepth(members);
        EverythingSinks(w, h, top, scope, m.annotation.value, left + 1);
      }
    case Parenthesized(inner) => EverythingSinks(w, h, top, scope, inner, left);
    case Intersection(parts) =>
      forall p | p in parts ensures Sinks(w, h, scope, p, left) {
        EverythingSinks(w, h, top, scope, p, left);
      }
    case Union(branches) =>
      forall b | b in branches ensures Sinks(w, h, scope, b, left) {
        EverythingSinks(w, h, top, scope, b, left);
      }
    case ArrayOf(element) => EverythingSinks(w, h, top, scope, element, left + 1);
    case Operator(_, operand) => EverythingSinks(w, h, top, scope, operand, left);
    case IndexedAccess(owner, _) => EverythingSinks(w, h, top, scope, owner, left - 1);
    case Reference(head, _, args) =>
      if args != [] {
        assert args[0] in args && args[0] < node;
        EverythingSinks(w, h, top, scope, args[0], left);
        EverythingSinks(w, h, top, scope, args[0], left + 1);
      }
    case Opaque =>
  }

  lemma {:induction false} HighestPlusOne(rank: Potential) returns (top: nat)
    ensures forall id :: id in rank ==> rank[id] < top
  {
    top := 0;
    if rank != map[] {
      var id :| id in rank;
      var rest := rank - {id};
      top := HighestPlusOne(rest);
      forall k | k in rank && k != id ensures rank[k] < top {
        assert k in rest && rest[k] == rank[k];
      }
      top := Max(top, rank[id] + 1);
    }
  }

  lemma SomeBound(w: World, h: Potential, p: Place) returns (bound: nat)
    requires Sinking(w, h) && InWorld(w, p.target)
    ensures Within(w, h, p, bound)
  {
    var top := HighestPlusOne(h);
    bound := |p.steps| + top;
    if p.target.Type? {
      bound := bound + IndexDepth(p.target.node);
      EverythingSinks(w, h, top, p.target.scope, p.target.node, bound - |p.steps|);
    }
  }

  /** Where a potential falls by what every way gains, all walks end: from any type, for every path and every guard. */
  lemma SinkingWalksEnd(w: World, h: Potential, p: Place, seen: set<Key>) returns (fuel: nat)
    requires Sinking(w, h) && InWorld(w, p.target)
    ensures Lookup(ViewsIn(w), p, seen, fuel).Some?
    ensures forall more: nat :: fuel <= more ==> Lookup(ViewsIn(w), p, seen, more) == Lookup(ViewsIn(w), p, seen, fuel)
  {
    var bound := SomeBound(w, h, p);
    forall route | Follow(ViewsIn(w), p, route).Some? && IsEntry(Follow(ViewsIn(w), p, route).value)
      ensures |Follow(ViewsIn(w), p, route).value.steps| <= bound
    {
      RouteStaysWithin(w, h, p, route, bound);
    }
    fuel := RoutesBoundedWalkEnds(w, p, seen, bound);
  }

  // ---------- Rankings ----------

  type Rank = map<DeclId, nat>

  /**
   References from the type lead to declarations of at most the given rank, and to strictly lower ones from inside
   the owner of an indexed access.
   */
  ghost predicate Ranked(w: World, rank: Rank, scope: Scope, node: TypeNode, r: nat, indexed: bool) {
    match node
    case Literal(members) =>
      forall m | m in members :: m.Property? && m.annotation.Some? ==>
        Ranked(w, rank, scope, m.annotation.value, r, indexed)
    case Parenthesized(inner) => Ranked(w, rank, scope, inner, r, indexed)
    case Intersection(parts) => forall p | p in parts :: Ranked(w, rank, scope, p, r, indexed)
    case Union(branches) => forall b | b in branches :: Ranked(w, rank, scope, b, r, indexed)
    case ArrayOf(element) => Ranked(w, rank, scope, element, r, indexed)
    case Operator(_, operand) => Ranked(w, rank, scope, operand, r, indexed)
    case IndexedAccess(owner, key) => Ranked(w, rank, scope, owner, r, true)
    case Reference(head, qualified, args) =>
      if IsUtility(head) && args != [] then Ranked(w, rank, scope, args[0], r, indexed)
      else RankedTarget(rank, Resolve(w, scope, head), r, indexed)
    case Opaque => true
  }

  ghost predicate RankedTarget(rank: Rank, t: Target, r: nat, indexed: bool) {
    t.Named? ==> t.id in rank && (if indexed then rank[t.id] < r else rank[t.id] <= r)
  }

  ghost predicate RankedAt(w: World, rank: Rank, t: Target, r: nat, indexed: bool) {
    match t
    case Type(scope, node) => Ranked(w, rank, scope, node, r, indexed)
    case Named(_) => RankedTarget(rank, t, r, indexed)
    case OutOfReach => true
  }

  ghost predicate RankedDecl(w: World, rank: Rank, d: Declared, r: nat) {
    match d.decl
    case Alias(body) => Ranked(w, rank, d.scope, body, r, false)
    case Interface(members, bases) =>
      && (forall m | m in members :: m.Property? && m.annotation.Some? ==>
            Ranked(w, rank, d.scope, m.annotation.value, r, false))
      && forall b | b in bases :: RankedTarget(rank, BaseTarget(w, d.scope, b), r, false)
  }

  /** No declaration reaches itself through indexed access: a ranking that drops across every such reference. */
  ghost predicate Stratified(w: World, rank: Rank) {
    && Closed(w)
    && rank.Keys == w.decls.Keys
    && forall id :: id in w.decls ==> RankedDecl(w, rank, w.decls[id], rank[id])
  }

  lemma Scaled(k: nat, a: int, b: int)
    requires a <= b
    ensures k * a <= k * b
  {
  }

  /** A ranking times the depth of indexed access is a potential. */
  lemma {:induction false} RankedSinks(w: World, rank: Rank, h: Potential, k: nat, scope: Scope, node: TypeNode, r: nat, indexed: bool, left: int)
    requires Ranked(w, rank, scope, node, r, indexed) && h.Keys == rank.Keys && forall id :: id in rank ==> h[id] == k * rank[id]
    requires if indexed then k * (r - 1) + IndexDepth(node) <= left else k * r <= left && IndexDepth(node) <= k
    ensures Sinks(w, h, scope, node, left)
  {
    match node
    case Literal(members) =>
      forall m | m in members && m.Property? && m.annotation.Some? ensures Sinks(w, h, scope, m.annotation.value, left + 1) {
        assert m < node && m.annotation.value < node && MemberDepth(m) <= MembersDepth(members);
        RankedSinks(w, rank, h, k, scope, m.annotation.value, r, indexed, left + 1);
      }
    case Parenthesized(inner) => RankedSinks(w, rank, h, k, scope, inner, r, indexed, left);
    case Intersection(parts) =>
      forall p | p in parts ensures Sinks(w, h, scope, p, left) {
        RankedSinks(w, rank, h, k, scope, p, r, indexed, left);
      }
    case Union(branches) =>
      forall b | b in branches ensures Sinks(w, h, scope, b, left) {
        RankedSinks(w, rank, h, k, scope, b, r, indexed, left);
      }
    case ArrayOf(element) => RankedSinks(w, rank, h, k, scope, element, r, indexed, left + 1);
    case Operator(_, operand) => RankedSinks(w, rank, h, k, scope, operand, r, indexed, left);
    case IndexedAccess(owner, _) =>
      assert k * r == k * (r - 1) + k;
      RankedSinks(w, rank, h, k, scope, owner, r, true, left - 1);
    case Reference(head, _, args) =>
      if IsUtility(head) && args != [] {
        assert args[0] in args && args[0] < node;
        RankedSinks(w, rank, h, k, scope, args[0], r, indexed, left);
        SinksMore(w, h, scope, args[0], left, left + 1);
      } else {
        ReferenceSinks(rank, h, k, Resolve(w, scope, head), r, indexed, left);
      }
    case Opaque =>
  }

  lemma ReferenceSinks(rank: Rank, h: Potential, k: nat, t: Target, r: nat, indexed: bool, left: int)
    requires RankedTarget(rank, t, r, indexed) && h.Keys == rank.Keys && forall id :: id in rank ==> h[id] == k * rank[id]
    requires if indexed then k * (r - 1) <= left else k * r <= left
    ensures TargetSinks(h, t, left)
  {
    if t.Named? {
      Scaled(k, rank[t.id], if indexed then r - 1 else r);
    }
  }

  function DeclDepth(d: Declared): nat {
    match d.decl
    case Alias(body) => IndexDepth(body)
    case Interface(members, _) => MembersDepth(members)
  }

  lemma DeepestDecl(w: World) returns (k: nat)
    ensures forall id :: id in w.decls ==> DeclDepth(w.decls[id]) < k
  {
    var depths: Potential := map id | id in w.decls :: DeclDepth(w.decls[id]);
    k := HighestPlusOne(depths);
    forall id | id in w.decls ensures DeclDepth(w.decls[id]) < k {
      assert id in depths;
    }
  }

  lemma RankedDeclSinks(w: World, rank: Rank, h: Potential, k: nat, id: DeclId)
    requires Stratified(w, rank) && id in w.decls && DeclDepth(w.decls[id]) < k
    requires h.Keys == rank.Keys && forall id :: id in rank ==> h[id] == k * rank[id]
    ensures DeclSinks(w, h, w.decls[id], h[id])
  {
    var d, r := w.decls[id], rank[id];
    assert RankedDecl(w, rank, d, r);
    match d.decl
    case Alias(body) => RankedSinks(w, rank, h, k, d.scope, body, r, false, h[id]);
    case Interface(members, bases) =>
      forall m | m in members && m.Property? && m.annotation.Some? ensures Sinks(w, h, d.scope, m.annotation.value, h[id] + 1) {
        assert MemberDepth(m) <= MembersDepth(members);
        RankedSinks(w, rank, h, k, d.scope, m.annotation.value, r, false, h[id] + 1);
      }
      forall b | b in bases ensures TargetSinks(h, BaseTarget(w, d.scope, b), h[id]) {
        ReferenceSinks(rank, h, k, BaseTarget(w, d.scope, b), r, false, h[id]);
      }
  }

  lemma StratifiedIsSinking(w: World, rank: Rank) returns (h: Potential)
    requires Stratified(w, rank)
    ensures Sinking(w, h)
  {
    var k := DeepestDecl(w);
    h := map id | id in rank :: k * rank[id];
    forall id | id in w.decls ensures DeclSinks(w, h, w.decls[id], h[id]) {
      RankedDeclSinks(w, rank, h, k, id);
    }
  }

  /** Where no declaration reaches itself through indexed access, all walks end. */
  lemma StratifiedWalksEnd(w: World, rank: Rank, p: Place, seen: set<Key>) returns (fuel: nat)
    requires Stratified(w, rank) && InWorld(w, p.target)
    ensures Lookup(ViewsIn(w), p, seen, fuel).Some?
    ensures forall more: nat :: fuel <= more ==> Lookup(ViewsIn(w), p, seen, more) == Lookup(ViewsIn(w), p, seen, fuel)
  {
    var h := StratifiedIsSinking(w, rank);
    fuel := SinkingWalksEnd(w, h, p, seen);
  }

  // ---------- A declaration indexed on itself ----------

  /** `interface X { a: {}; b: X['a'] }`: the member gives back the step that the indexed access adds. */
  function OwnMember(): World {
    World(map[0 := Declared(Scope("f", {}), Interface(
                [Property("a", Some("a"), Some(Literal([]))),
                 Property("b", Some("b"), Some(IndexedAccess(Reference("X", false, []), Some("a"))))], []))],
          map[("f", "X") := Binding(0, [Named(0)])], {})
  }

  /** It has no ranking, yet all walks of it end. */
  lemma OwnMemberWalksEnd(p: Place, seen: set<Key>) returns (fuel: nat)
    requires InWorld(OwnMember(), p.target)
    ensures forall rank :: !Stratified(OwnMember(), rank)
    ensures Lookup(ViewsIn(OwnMember()), p, seen, fuel).Some?
  {
    var w, h: Potential := OwnMember(), map[0 := 0];
    var d, scope, x := w.decls[0], Scope("f", {}), Reference("X", false, []);
    var own := IndexedAccess(x, Some("a"));
    assert Resolve(w, scope, "X") == Named(0);
    assert Sinks(w, h, scope, x, 0);
    assert Sinks(w, h, scope, own, 1) && Sinks(w, h, scope, Literal([]), 1);
    assert DeclSinks(w, h, d, 0);
    forall rank ensures !Stratified(w, rank) {
      var b := d.decl.members[1];
      assert b in d.decl.members && b.annotation == Some(own);
      if 0 in rank {
        assert !Ranked(w, rank, scope, x, rank[0], true);
        assert !Ranked(w, rank, scope, own, rank[0], false);
        assert !RankedDecl(w, rank, d, rank[0]);
      }
    }
    fuel := SinkingWalksEnd(w, h, p, seen);
  }

  /** `interface A { x: A['y']['z'] }`: the way back adds a step, but asks for a member that is not there. */
  function LostMember(): World {
    World(map[0 := Declared(Scope("f", {}), Interface([Property("x", Some("x"), Some(BelowMissing()))], []))],
          map[("f", "A") := Binding(0, [Named(0)])], {})
  }

  /** `A['y']`. */
  function MissingMember(): TypeNode {
    IndexedAccess(Reference("A", false, []), Some("y"))
  }

  /** `A['y']['z']`. */
  function BelowMissing(): TypeNode {
    IndexedAccess(MissingMember(), Some("z"))
  }

  lemma EndsThrough(v: Views, p: Place, c: Place, seen: set<Key>, fuel: nat)
    requires v(p) == AnyOf([c]) && Lookup(v, c, Guarded(p, seen), fuel).Some?
    ensures Lookup(v, p, seen, fuel + 1).Some?
  {
    if !(IsEntry(p) && EntryKey(p) in seen) {
      WalkThrough(v, p, c, seen, fuel, Lookup(v, c, Guarded(p, seen), fuel).value);
    }
  }

  /** It has no potential, yet all walks of the declaration end: a potential is enough, but not needed. */
  lemma LostMemberWalksEnd(steps: seq<Step>, seen: set<Key>)
    ensures forall h :: !Sinking(LostMember(), h)
    ensures Lookup(ViewsIn(LostMember()), Place(Named(0), steps), seen, 5).Some?
  {
    NoPotential();
    var v, scope, entry := ViewsIn(LostMember()), Scope("f", {}), Place(Named(0), steps);
    var x := Property("x", Some("x"), Some(BelowMissing()));
    if IsEntry(entry) && EntryKey(entry) in seen {
      assert Lookup(v, entry, seen, 5) == Some(Walk(Unknown, seen));
    } else if |steps| > 1 && steps[0] == Member("x") {
      var rest, guard := steps[1..], Guarded(entry, seen);
      var inner, outer := [Member("z")] + rest, [Member("y")] + ([Member("z")] + rest);
      var back := Place(Named(0), outer);
      var owner, whole := Place(Type(scope, MissingMember()), inner), Place(Type(scope, BelowMissing()), rest);
      var self := Place(Type(scope, Reference("A", false, [])), outer);
      assert FindProperty([x], "x") == Some(x) && FindProperty([x], "y") == None;
      assert v(entry) == AnyOf([whole]) && v(whole) == AnyOf([owner]) && v(owner) == AnyOf([self]);
      assert v(self) == AnyOf([back]) && v(back) == AnyOf([]);
      assert LookupEach(v, [], Guarded(back, guard), 0) == Some(Walks([], Guarded(back, guard)));
      assert Lookup(v, back, guard, 1).Some?;
      EndsThrough(v, self, back, guard, 1);
      EndsThrough(v, owner, self, guard, 2);
      EndsThrough(v, whole, owner, guard, 3);
      EndsThrough(v, entry, whole, seen, 4);
    } else {
      NoStep(steps);
      assert LookupEach(v, [], Guarded(entry, seen), 4) == Some(Walks([], Guarded(entry, seen)));
    }
  }

  lemma NoStep(steps: seq<Step>)
    requires |steps| <= 1 || steps[0] != Member("x")
    ensures var view := ViewOf(LostMember(), Place(Named(0), steps)); view.Answer? || view == AnyOf([])
  {
    if steps != [] && steps[0].Member? {
      var x := Property("x", Some("x"), Some(BelowMissing()));
      assert FindProperty([x], steps[0].name) == if steps[0].name == "x" then Some(x) else None;
    }
  }

  lemma NoPotential()
    ensures forall h :: !Sinking(LostMember(), h)
  {
    var w, scope, a := LostMember(), Scope("f", {}), Reference("A", false, []);
    var x := Property("x", Some("x"), Some(BelowMissing()));
    forall h ensures !Sinking(w, h) {
      if 0 in h {
        assert Resolve(w, scope, "A") == Named(0);
        assert !Sinks(w, h, scope, a, h[0] - 1);
        assert !Sinks(w, h, scope, MissingMember(), h[0]);
        assert !Sinks(w, h, scope, BelowMissing(), h[0] + 1);
        assert x in w.decls[0].decl.members && !DeclSinks(w, h, w.decls[0], h[0]);
      }
    }
  }

  // ---------- A walk that never ends ----------

  /** `type A = A['x']`: every entry of the alias makes the path longer, so no recursion depth is enough. */
  function SelfIndexed(): World {
    World(map[0 := Declared(Scope("f", {}), Alias(IndexedAccess(Reference("A", false, []), Some("x"))))],
          map[("f", "A") := Binding(0, [Named(0)])], {})
  }

  lemma OnlyThrough(v: Views, p: Place, c: Place, seen: set<Key>, fuel: nat)
    requires v(p) == AnyOf([c]) && !(IsEntry(p) && EntryKey(p) in seen)
    requires fuel > 0 ==> Lookup(v, c, Guarded(p, seen), fuel - 1).None?
    ensures Lookup(v, p, seen, fuel).None?
  {
    assert fuel > 0 ==> LookupEach(v, [c], Guarded(p, seen), fuel - 1).None?;
  }

  lemma {:induction false} SelfIndexedNeverEnds(steps: seq<Step>, seen: set<Key>, fuel: nat)
    requires steps != [] && forall k: Key :: k in seen ==> k.1 < |steps|
    ensures Closed(SelfIndexed()) && Lookup(ViewsIn(SelfIndexed()), Place(Named(0), steps), seen, fuel).None?
    decreases fuel
  {
    var w, scope := SelfIndexed(), Scope("f", {});
    var v, longer := ViewsIn(w), [Member("x")] + steps;
    var entry, reference := Place(Named(0), steps), Reference("A", false, []);
    var body := Place(Type(scope, IndexedAccess(reference, Some("x"))), steps);
    var owner := Place(Type(scope, reference), longer);
    var seen' := Guarded(entry, seen);
    assert ("f", "A") in w.names;
    if fuel >= 3 {
      SelfIndexedNeverEnds(longer, seen', fuel - 3);
    }
    assert v(entry) == AnyOf([body]) && v(body) == AnyOf([owner]) && v(owner) == AnyOf([Place(Named(0), longer)]);
    if fuel >= 2 {
      OnlyThrough(v, owner, Place(Named(0), longer), seen', fuel - 2);
    }
    if fuel >= 1 {
      OnlyThrough(v, body, owner, seen', fuel - 1);
    }
    assert EntryKey(entry) !in seen;
    OnlyThrough(v, entry, body, seen, fuel);
  }
}
