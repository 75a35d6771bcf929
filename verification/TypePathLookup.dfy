/**
 The presence check of a schema key path against a declared configuration type. The walk answers found, missing or
 unknown; a guard shared by all branches and keyed by declaration and remaining path length cuts recursive types.
 */
module TypePathLookup {
  import opened Outcomes

  // ---------- Declared types ----------

  datatype Step = Member(name: string) | Element

  datatype TypeOperator = ReadOnly | KeyOf

  /** `unique symbol` is opaque: the walk looks through it to the keyword `symbol`, which it does not see into. */
  datatype TypeNode =
    | Literal(members: seq<Signature>)
    | Parenthesized(inner: TypeNode)
    | Intersection(parts: seq<TypeNode>)
    | Union(branches: seq<TypeNode>)
    | ArrayOf(element: TypeNode)
    | Operator(op: TypeOperator, operand: TypeNode)
    | IndexedAccess(owner: TypeNode, key: Option<string>)
    | Reference(head: string, qualified: bool, args: seq<TypeNode>)  // `head` is the leftmost name of a qualified one
    | Opaque

  /**
   A member of an object type. A key is None when the name is computed; `spelling` is the name as written, so a quoted
   name is spelled with its quotes.
   */
  datatype Signature =
    | Property(spelling: string, key: Option<string>, annotation: Option<TypeNode>)
    | MethodOrAccessor(key: Option<string>, annotation: Option<TypeNode>)
    | IndexSignature(everyName: bool, annotation: Option<TypeNode>)
    | CallSignature

  datatype Heritage = NamedBase(name: string) | ExpressionBase

  datatype Decl = Interface(members: seq<Signature>, bases: seq<Heritage>) | Alias(body: TypeNode)

  type File = string
  type DeclId = nat

  /** Where a type stands: its file, and the type parameters of the declaration around it. */
  datatype Scope = Scope(file: File, params: set<string>)

  datatype Declared = Declared(scope: Scope, decl: Decl)

  /** What a walk can stand on: a type seen from a scope, a declaration, or something out of reach. */
  datatype Target = Type(scope: Scope, node: TypeNode) | Named(id: DeclId) | OutOfReach

  /**
   A name a walk can resolve: the declaration it takes, and all that the name means, such as the declarations merged
   under it or the one that is really exported.
   */
  datatype Binding = Binding(taken: DeclId, meaning: seq<Target>)

  /**
   The declarations in reach, what each name resolves to in each file, and the names a file declares or imports itself.
   A name that resolves to an enum, or not at all, is out of reach.
   */
  datatype World = World(decls: map<DeclId, Declared>, names: map<(File, string), Binding>, own: set<(File, string)>)

  predicate InWorld(w: World, t: Target) {
    t.Named? ==> t.id in w.decls
  }

  ghost predicate Closed(w: World) {
    forall n :: n in w.names ==> w.names[n].taken in w.decls && forall t :: t in w.names[n].meaning ==> InWorld(w, t)
  }

  /** The declaration the walk takes for a name. */
  function Resolve(w: World, scope: Scope, name: string): (t: Target)
    ensures Closed(w) ==> InWorld(w, t)
  {
    if (scope.file, name) in w.names then Named(w.names[(scope.file, name)].taken) else OutOfReach
  }

  const PASSTHROUGH := {"Partial", "Required", "Readonly", "NonNullable"}
  const ARRAYS := {"Array", "ReadonlyArray"}

  predicate IsUtility(head: string) {
    head in PASSTHROUGH || head in ARRAYS
  }

  /** The first property spelled like this, if any. */
  function FindProperty(members: seq<Signature>, name: string): (r: Option<Signature>)
    ensures r.Some? ==> r.value in members && r.value.Property? && r.value.spelling == name
    ensures r.None? ==> forall m :: m in members && m.Property? ==> m.spelling != name
  {
    if members == [] then None
    else if members[0].Property? && members[0].spelling == name then Some(members[0])
    else FindProperty(members[1..], name)
  }

  // ---------- One step of the walk ----------

  /** A target with the steps left to walk from it. */
  datatype Place = Place(target: Target, steps: seq<Step>)

  datatype Verdict = Found | Missing | Unknown

  /** What the walk does at a place: answer, or go on to other places and combine or compare what they answer. */
  datatype View = Answer(verdict: Verdict) | AnyOf(places: seq<Place>) | AllOf(places: seq<Place>)

  function Through(t: Target, steps: seq<Step>): View {
    AnyOf([Place(t, steps)])
  }

  function TypePlaces(scope: Scope, nodes: seq<TypeNode>, steps: seq<Step>): (r: seq<Place>)
    ensures |r| == |nodes| && forall i :: 0 <= i < |r| ==> r[i] == Place(Type(scope, nodes[i]), steps)
  {
    seq(|nodes|, i requires 0 <= i < |nodes| => Place(Type(scope, nodes[i]), steps))
  }

  function BaseTarget(w: World, scope: Scope, base: Heritage): Target {
    if base.NamedBase? then Resolve(w, scope, base.name) else OutOfReach
  }

  function BasePlaces(w: World, scope: Scope, bases: seq<Heritage>, steps: seq<Step>): (r: seq<Place>)
    ensures |r| == |bases| && forall i :: 0 <= i < |r| ==> r[i] == Place(BaseTarget(w, scope, bases[i]), steps)
  {
    seq(|bases|, i requires 0 <= i < |bases| => Place(BaseTarget(w, scope, bases[i]), steps))
  }

  /** Into a property that was looked for; None when the members hold none. */
  function ViewProperty(scope: Scope, property: Option<Signature>, steps: seq<Step>): View
    requires steps != [] && (property.Some? ==> property.value.Property?)
  {
    if property.None? then Answer(Missing)
    else if |steps| == 1 then Answer(Found)
    else if property.value.annotation.None? then Answer(Unknown)
    else Through(Type(scope, property.value.annotation.value), steps[1..])
  }

  function ViewDecl(w: World, d: Declared, steps: seq<Step>): View
    requires steps != []
  {
    match d.decl
    case Alias(body) => Through(Type(d.scope, body), steps)
    case Interface(members, bases) =>
      if steps[0].Element? then Answer(Unknown)
      else
        var direct := FindProperty(members, steps[0].name);
        if direct.Some? then ViewProperty(d.scope, direct, steps) else AnyOf(BasePlaces(w, d.scope, bases, steps))
  }

  function ViewType(w: World, scope: Scope, node: TypeNode, steps: seq<Step>): View
    requires steps != []
  {
    match node
    case Literal(members) =>
      if steps[0].Element? then Answer(Unknown) else ViewProperty(scope, FindProperty(members, steps[0].name), steps)
    case Parenthesized(inner) => Through(Type(scope, inner), steps)
    case Intersection(parts) => AnyOf(TypePlaces(scope, parts, steps))
    case Union(branches) => AllOf(TypePlaces(scope, branches, steps))
    case ArrayOf(element) => if steps[0].Element? then Through(Type(scope, element), steps[1..]) else Answer(Unknown)
    case Operator(_, operand) => Through(Type(scope, operand), steps)
    case IndexedAccess(owner, key) =>
      if key.Some? then Through(Type(scope, owner), [Member(key.value)] + steps) else Answer(Unknown)
    case Reference(head, qualified, args) =>
      if head in PASSTHROUGH && args != [] then Through(Type(scope, args[0]), steps)
      else if head in ARRAYS && args != [] then
        if steps[0].Element? then Through(Type(scope, args[0]), steps[1..]) else Answer(Unknown)
      else if qualified then Answer(Unknown)
      else Through(Resolve(w, scope, head), steps)
    case Opaque => Answer(Unknown)
  }

  function ViewOf(w: World, p: Place): View {
    if p.steps == [] then Answer(Found)
    else match p.target
      case OutOfReach => Answer(Unknown)
      case Named(id) => if id in w.decls then ViewDecl(w, w.decls[id], p.steps) else Answer(Unknown)
      case Type(scope, node) => ViewType(w, scope, node, p.steps)
  }

  /** The view from every place; of the world itself, or of any other graph of places. */
  type Views = Place -> View

  function ViewsIn(w: World): Views {
    (p: Place) => ViewOf(w, p)
  }

  /** The places the walk goes on to. */
  function Next(v: Views, p: Place): seq<Place> {
    match v(p)
    case Answer(_) => []
    case AnyOf(places) => places
    case AllOf(places) => places
  }

  lemma NextInWorld(w: World, p: Place)
    requires Closed(w) && InWorld(w, p.target)
    ensures forall c :: c in Next(ViewsIn(w), p) ==> InWorld(w, c.target)
  {
  }

  // ---------- The guarded walk ----------

  /** A guard entry: a declaration entered with this many steps left. */
  type Key = (DeclId, nat)

  predicate IsEntry(p: Place) {
    p.target.Named? && p.steps != []
  }

  function EntryKey(p: Place): Key
    requires IsEntry(p)
  {
    (p.target.id, |p.steps|)
  }

  datatype Walk = Walk(verdict: Verdict, seen: set<Key>)
  datatype Walks = Walks(verdicts: seq<Verdict>, seen: set<Key>)

  /** Any found wins, else any unknown taints, else missing. */
  function Combine(results: seq<Verdict>): Verdict {
    if Found in results then Found else if Unknown in results then Unknown else Missing
  }

  /** Presence on a union is definite only when every branch agrees. */
  function Agree(results: seq<Verdict>): Verdict {
    if forall r | r in results :: r == Found then Found
    else if forall r | r in results :: r == Missing then Missing
    else Unknown
  }

  function Guarded(p: Place, seen: set<Key>): set<Key> {
    if IsEntry(p) then seen + {EntryKey(p)} else seen
  }

  /**
   The walk, with a bound on the recursion depth; None means the bound was hit. The guard is threaded through
   siblings in order, exactly as one mutable set shared by all calls.
   */
  function Lookup(v: Views, p: Place, seen: set<Key>, fuel: nat): (r: Option<Walk>)
    ensures r.Some? ==> seen <= r.value.seen
    decreases fuel, 0
  {
    if fuel == 0 then None
    else if IsEntry(p) && EntryKey(p) in seen then Some(Walk(Unknown, seen))
    else match v(p)
      case Answer(verdict) => Some(Walk(verdict, Guarded(p, seen)))
      case AnyOf(places) =>
        var r := LookupEach(v, places, Guarded(p, seen), fuel - 1);
        if r.None? then None else Some(Walk(Combine(r.value.verdicts), r.value.seen))
      case AllOf(places) =>
        var r := LookupEach(v, places, Guarded(p, seen), fuel - 1);
        if r.None? then None else Some(Walk(Agree(r.value.verdicts), r.value.seen))
  }

  /** Walk every place in order, threading the guard. */
  function LookupEach(v: Views, places: seq<Place>, seen: set<Key>, fuel: nat): (r: Option<Walks>)
    ensures r.Some? ==> seen <= r.value.seen && |r.value.verdicts| == |places|
    decreases fuel, 1 + |places|
  {
    if places == [] then Some(Walks([], seen))
    else
      var first := Lookup(v, places[0], seen, fuel);
      if first.None? then None
      else
        var rest := LookupEach(v, places[1..], first.value.seen, fuel);
        if rest.None? then None
        else Some(Walks([first.value.verdict] + rest.value.verdicts, rest.value.seen))
  }

  // ---------- The walk place by place ----------

  /** The guard with which place j is walked. */
  function GuardAt(v: Views, places: seq<Place>, seen: set<Key>, fuel: nat, j: nat): set<Key>
    requires j < |places| && LookupEach(v, places, seen, fuel).Some?
  {
    if j == 0 then seen else GuardAt(v, places[1..], Lookup(v, places[0], seen, fuel).value.seen, fuel, j - 1)
  }

  /** The walk of place j is one of the walks: its guard, its verdict, and what it leaves in the guard. */
  lemma {:induction false} WalkAt(v: Views, places: seq<Place>, seen: set<Key>, fuel: nat, j: nat)
    requires j < |places| && LookupEach(v, places, seen, fuel).Some?
    ensures var guard := GuardAt(v, places, seen, fuel, j);
      var r := Lookup(v, places[j], guard, fuel);
      && r.Some? && r.value.verdict == LookupEach(v, places, seen, fuel).value.verdicts[j]
      && seen <= guard && r.value.seen <= LookupEach(v, places, seen, fuel).value.seen
  {
    if j > 0 {
      WalkAt(v, places[1..], Lookup(v, places[0], seen, fuel).value.seen, fuel, j - 1);
    }
  }

  /** A guard entry made by the walks comes from one of them. */
  lemma {:induction false} MadeByOne(v: Views, places: seq<Place>, seen: set<Key>, fuel: nat, k: Key) returns (j: nat)
    requires LookupEach(v, places, seen, fuel).Some?
    requires k in LookupEach(v, places, seen, fuel).value.seen && k !in seen
    ensures j < |places| && k !in GuardAt(v, places, seen, fuel, j)
    ensures Lookup(v, places[j], GuardAt(v, places, seen, fuel, j), fuel).Some?
    ensures k in Lookup(v, places[j], GuardAt(v, places, seen, fuel, j), fuel).value.seen
  {
    var after := Lookup(v, places[0], seen, fuel).value.seen;
    if k in after {
      j := 0;
    } else {
      j := MadeByOne(v, places[1..], after, fuel, k);
      j := j + 1;
    }
  }

  /** What an earlier walk leaves in the guard is there for a later one. */
  lemma {:induction false} EarlierLeaves(v: Views, places: seq<Place>, seen: set<Key>, fuel: nat, i: nat, j: nat)
    requires i < j < |places| && LookupEach(v, places, seen, fuel).Some?
    requires Lookup(v, places[i], GuardAt(v, places, seen, fuel, i), fuel).Some?
    ensures Lookup(v, places[i], GuardAt(v, places, seen, fuel, i), fuel).value.seen <= GuardAt(v, places, seen, fuel, j)
  {
    var after := Lookup(v, places[0], seen, fuel).value.seen;
    if i == 0 {
      WalkAt(v, places[1..], after, fuel, j - 1);
    } else {
      EarlierLeaves(v, places[1..], after, fuel, i - 1, j - 1);
    }
  }

  /** An entry in a later guard was there at first, or an earlier walk made it. */
  lemma {:induction false} GuardMadeByEarlier(v: Views, places: seq<Place>, seen: set<Key>, fuel: nat, j: nat, k: Key) returns (i: nat)
    requires j < |places| && LookupEach(v, places, seen, fuel).Some?
    requires k in GuardAt(v, places, seen, fuel, j) && k !in seen
    ensures i < j && k !in GuardAt(v, places, seen, fuel, i)
    ensures Lookup(v, places[i], GuardAt(v, places, seen, fuel, i), fuel).Some?
    ensures k in Lookup(v, places[i], GuardAt(v, places, seen, fuel, i), fuel).value.seen
  {
    var after := Lookup(v, places[0], seen, fuel).value.seen;
    if k in after {
      i := 0;
    } else {
      i := GuardMadeByEarlier(v, places[1..], after, fuel, j - 1, k);
      i := i + 1;
    }
  }

  // ---------- More fuel never changes an answer ----------

  lemma {:induction false} MoreFuel(v: Views, p: Place, seen: set<Key>, fuel: nat, more: nat)
    requires fuel <= more && Lookup(v, p, seen, fuel).Some?
    ensures Lookup(v, p, seen, more) == Lookup(v, p, seen, fuel)
    decreases fuel, 0
  {
    if !(IsEntry(p) && EntryKey(p) in seen) && !v(p).Answer? {
      MoreFuelEach(v, Next(v, p), Guarded(p, seen), fuel - 1, more - 1);
    }
  }

  lemma {:induction false} MoreFuelEach(v: Views, places: seq<Place>, seen: set<Key>, fuel: nat, more: nat)
    requires fuel <= more && LookupEach(v, places, seen, fuel).Some?
    ensures LookupEach(v, places, seen, more) == LookupEach(v, places, seen, fuel)
    decreases fuel, 1 + |places|
  {
    if places != [] {
      MoreFuel(v, places[0], seen, fuel, more);
      MoreFuelEach(v, places[1..], Lookup(v, places[0], seen, fuel).value.seen, fuel, more);
    }
  }

  /** One place after another: the walk of the first is the walk of the second under its guard. */
  lemma WalkThrough(v: Views, p: Place, c: Place, seen: set<Key>, fuel: nat, r: Walk)
    requires v(p) == AnyOf([c]) && !(IsEntry(p) && EntryKey(p) in seen)
    requires Lookup(v, c, Guarded(p, seen), fuel) == Some(r)
    ensures Lookup(v, p, seen, fuel + 1) == Some(r)
  {
    assert [c][1..] == [] && [r.verdict] + [] == [r.verdict];
    assert LookupEach(v, [], r.seen, fuel) == Some(Walks([], r.seen));
    assert LookupEach(v, [c], Guarded(p, seen), fuel) == Some(Walks([r.verdict], r.seen));
    assert forall x: Verdict :: x in [r.verdict] <==> x == r.verdict;
  }
}
