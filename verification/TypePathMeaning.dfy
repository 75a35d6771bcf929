/**
 What it means for a path to exist in a declared type, and for which declarations the walk takes each type as it is
 meant. A reading fixes which branch every union takes and what every type out of reach contains; a path can exist
 under some readings and not under others.
 */
module TypePathMeaning {
  import opened Outcomes
  import opened TypePathLookup

  datatype Reading = Reading(branch: Place -> nat, hidden: Place -> bool)

  // ---------- What names and members mean ----------

  /** All that a name means where it stands; a type parameter, and a name out of reach, may be anything. */
  function Meant(w: World, scope: Scope, name: string): seq<Target> {
    if name !in scope.params && (scope.file, name) in w.names then w.names[(scope.file, name)].meaning else [OutOfReach]
  }

  function MeantBase(w: World, scope: Scope, base: Heritage): seq<Target> {
    if base.NamedBase? then Meant(w, scope, base.name) else [OutOfReach]
  }

  /** Utilities whose type has the members of their argument, at least by name. */
  predicate KeepsMembers(name: string) {
    name == "Partial" || name == "Required" || name == "Readonly" || name == "NonNullable"
  }

  /** Utilities whose type has their argument as its element. */
  predicate MakesArray(name: string) {
    name == "Array" || name == "ReadonlyArray"
  }

  predicate SeenThrough(name: string) {
    KeepsMembers(name) || MakesArray(name)
  }

  /** The utility name is not the global one where it stands. */
  predicate Redeclared(w: World, scope: Scope, head: string) {
    head in scope.params || (scope.file, head) in w.own
  }

  /** The first member declared under the name, whatever it is and however its name is written. */
  function FindMember(members: seq<Signature>, name: string): (r: Option<Signature>)
    ensures r.Some? ==> r.value in members && (r.value.Property? || r.value.MethodOrAccessor?) && r.value.key == Some(name)
  {
    if members == [] then None
    else if (members[0].Property? || members[0].MethodOrAccessor?) && members[0].key == Some(name) then Some(members[0])
    else FindMember(members[1..], name)
  }

  /** A member that has no certain name but stands for this one: an index signature, or a computed name. */
  predicate Covers(rd: Reading, p: Place, m: Signature) {
    match m
    case Property(_, key, _) => key.None? && rd.hidden(p)
    case MethodOrAccessor(key, _) => key.None? && rd.hidden(p)
    case IndexSignature(everyName, _) => everyName || rd.hidden(p)
    case CallSignature => false
  }

  function Annotation(m: Signature): Option<TypeNode> {
    if m.CallSignature? then None else m.annotation
  }

  // ---------- Presence ----------

  /** The path exists under the reading, shown within d unfoldings. */
  ghost predicate Holds(w: World, rd: Reading, p: Place, d: nat)
    decreases d, 3
  {
    if d == 0 then false
    else if p.steps == [] then true
    else match p.target
      case OutOfReach => rd.hidden(p)
      case Named(id) => id in w.decls && DeclHolds(w, rd, p, w.decls[id], d)
      case Type(scope, node) => TypeHolds(w, rd, p, scope, node, d)
  }

  ghost predicate DeclHolds(w: World, rd: Reading, p: Place, declared: Declared, d: nat)
    requires d > 0 && p.steps != []
    decreases d, 2
  {
    match declared.decl
    case Alias(body) => Holds(w, rd, Place(Type(declared.scope, body), p.steps), d - 1)
    case Interface(members, bases) =>
      if p.steps[0].Element? then rd.hidden(p)
      else if FindMember(members, p.steps[0].name).Some? then
        MemberHolds(w, rd, p, declared.scope, FindMember(members, p.steps[0].name).value, d)
      else
        || (exists m :: m in members && Covers(rd, p, m) && MemberHolds(w, rd, p, declared.scope, m, d))
        || exists b, t :: b in bases && t in MeantBase(w, declared.scope, b) && Holds(w, rd, Place(t, p.steps), d - 1)
  }

  ghost predicate TypeHolds(w: World, rd: Reading, p: Place, scope: Scope, node: TypeNode, d: nat)
    requires d > 0 && p.steps != []
    decreases d, 2
  {
    var steps := p.steps;
    match node
    case Literal(members) =>
      if steps[0].Element? then rd.hidden(p)
      else if FindMember(members, steps[0].name).Some? then
        MemberHolds(w, rd, p, scope, FindMember(members, steps[0].name).value, d)
      else exists m :: m in members && Covers(rd, p, m) && MemberHolds(w, rd, p, scope, m, d)
    case Parenthesized(inner) => Holds(w, rd, Place(Type(scope, inner), steps), d - 1)
    case Intersection(parts) => exists part :: part in parts && Holds(w, rd, Place(Type(scope, part), steps), d - 1)
    case Union(branches) =>
      branches == [] || Holds(w, rd, Place(Type(scope, branches[rd.branch(p) % |branches|]), steps), d - 1)
    case ArrayOf(element) =>
      if steps[0].Element? then Holds(w, rd, Place(Type(scope, element), steps[1..]), d - 1) else rd.hidden(p)
    case Operator(op, operand) =>
      if op.ReadOnly? then Holds(w, rd, Place(Type(scope, operand), steps), d - 1) else rd.hidden(p)
    case IndexedAccess(owner, key) =>
      if key.Some? then Holds(w, rd, Place(Type(scope, owner), [Member(key.value)] + steps), d - 1) else rd.hidden(p)
    case Reference(head, qualified, args) =>
      if qualified then rd.hidden(p)
      else if SeenThrough(head) && args != [] && !Redeclared(w, scope, head) then
        if KeepsMembers(head) then Holds(w, rd, Place(Type(scope, args[0]), steps), d - 1)
        else if steps[0].Element? then Holds(w, rd, Place(Type(scope, args[0]), steps[1..]), d - 1)
        else rd.hidden(p)
      else exists t :: t in Meant(w, scope, head) && Holds(w, rd, Place(t, steps), d - 1)
    case Opaque => rd.hidden(p)
  }

  /** The named member exists, and the rest of the path exists in its declared type. */
  ghost predicate MemberHolds(w: World, rd: Reading, p: Place, scope: Scope, m: Signature, d: nat)
    requires d > 0 && p.steps != []
    decreases d, 1
  {
    if |p.steps| == 1 then true
    else if Annotation(m).None? then rd.hidden(p)
    else Holds(w, rd, Place(Type(scope, Annotation(m).value), p.steps[1..]), d - 1)
  }

  ghost predicate Present(w: World, rd: Reading, p: Place) {
    exists d: nat :: Holds(w, rd, p, d)
  }

  // ---------- The forms the walk does not take as they are meant ----------

  datatype Form =
    | KeyOfType           // `keyof T`, walked as T
    | QualifiedUtility    // `Partial.Inner<T>`: a namespace called like a utility, walked as the utility
    | RedeclaredUtility   // a utility name that the file declares or imports itself
    | ShadowingParameter  // a type parameter called like a declaration
    | SplitName           // a name that means more than, or something else than, the first declaration found
    | WrittenName         // a property name written in quotes, computed, or otherwise not as it is
    | MethodMember        // a method or accessor
    | IndexMember         // an index signature

  /** The name is taken as it is meant, or its form of being mistaken is allowed. */
  ghost predicate NameAllowed(w: World, forms: set<Form>, scope: Scope, name: string) {
    Meant(w, scope, name) == [Resolve(w, scope, name)] || (if name in scope.params then ShadowingParameter else SplitName) in forms
  }

  ghost predicate MemberAllowed(w: World, forms: set<Form>, scope: Scope, m: Signature)
    decreases m
  {
    match m
    case Property(spelling, key, annotation) =>
      (key == Some(spelling) || WrittenName in forms) && (annotation.Some? ==> TypeAllowed(w, forms, scope, annotation.value))
    case MethodOrAccessor(_, _) => MethodMember in forms
    case IndexSignature(_, _) => IndexMember in forms
    case CallSignature => true
  }

  /** Where the walk looks in the type, only these forms are not as the walk takes them. */
  ghost predicate TypeAllowed(w: World, forms: set<Form>, scope: Scope, node: TypeNode)
    decreases node
  {
    match node
    case Literal(members) => forall m | m in members :: MemberAllowed(w, forms, scope, m)
    case Parenthesized(inner) => TypeAllowed(w, forms, scope, inner)
    case Intersection(parts) => forall p | p in parts :: TypeAllowed(w, forms, scope, p)
    case Union(branches) => forall b | b in branches :: TypeAllowed(w, forms, scope, b)
    case ArrayOf(element) => TypeAllowed(w, forms, scope, element)
    case Operator(op, operand) => (op.ReadOnly? || KeyOfType in forms) && TypeAllowed(w, forms, scope, operand)
    case IndexedAccess(owner, _) => TypeAllowed(w, forms, scope, owner)
    case Reference(head, qualified, args) =>
      if SeenThrough(head) && args != [] then
        && (qualified ==> QualifiedUtility in forms)
        && (!qualified && Redeclared(w, scope, head) ==> RedeclaredUtility in forms)
        && TypeAllowed(w, forms, scope, args[0])
      else qualified || NameAllowed(w, forms, scope, head)
    case Opaque => true
  }

  ghost predicate DeclAllowed(w: World, forms: set<Form>, d: Declared) {
    match d.decl
    case Alias(body) => TypeAllowed(w, forms, d.scope, body)
    case Interface(members, bases) =>
      && (forall m | m in members :: MemberAllowed(w, forms, d.scope, m))
      && forall b | b in bases && b.NamedBase? :: NameAllowed(w, forms, d.scope, b.name)
  }

  ghost predicate TargetAllowed(w: World, forms: set<Form>, t: Target) {
    InWorld(w, t) && (t.Type? ==> TypeAllowed(w, forms, t.scope, t.node))
  }

  /** A closed world in which every declaration uses only these forms. */
  ghost predicate WorldAllowed(w: World, forms: set<Form>) {
    Closed(w) && forall id :: id in w.decls ==> DeclAllowed(w, forms, w.decls[id])
  }

  ghost predicate Plain(w: World, p: Place) {
    WorldAllowed(w, {}) && TargetAllowed(w, {}, p.target)
  }

  // ---------- The walk's view is the meaning ----------

  /** At a plain place, presence is what the walk's view makes of it: this verdict, or the presence further on. */
  ghost predicate ViewMeans(w: World, rd: Reading, p: Place, d: nat)
    requires d > 0
  {
    match ViewOf(w, p)
    case Answer(v) => Holds(w, rd, p, d) <==> v == Found || (v == Unknown && rd.hidden(p))
    case AnyOf(places) => Holds(w, rd, p, d) <==> exists c :: c in places && Holds(w, rd, c, d - 1)
    case AllOf(places) => Holds(w, rd, p, d) <==> places == [] || Holds(w, rd, places[rd.branch(p) % |places|], d - 1)
  }

  lemma NextOfTypeIsPlain(w: World, p: Place)
    requires Plain(w, p) && p.steps != [] && p.target.Type?
    ensures forall c :: c in Next(ViewsIn(w), p) ==> TargetAllowed(w, {}, c.target)
  {
    var scope, node, steps := p.target.scope, p.target.node, p.steps;
    assert TypeAllowed(w, {}, scope, node);
    match node
    case Literal(members) =>
      if steps[0].Member? {
        var m := FindProperty(members, steps[0].name);
        assert m.Some? ==> MemberAllowed(w, {}, scope, m.value);
      }
    case Parenthesized(inner) => assert TypeAllowed(w, {}, scope, inner);
    case Intersection(parts) => assert forall part :: part in parts ==> TypeAllowed(w, {}, scope, part);
    case Union(branches) => assert forall b :: b in branches ==> TypeAllowed(w, {}, scope, b);
    case ArrayOf(element) => assert TypeAllowed(w, {}, scope, element);
    case Operator(_, operand) => assert TypeAllowed(w, {}, scope, operand);
    case IndexedAccess(owner, _) => assert TypeAllowed(w, {}, scope, owner);
    case Reference(head, qualified, args) =>
      assert SeenThrough(head) && args != [] ==> TypeAllowed(w, {}, scope, args[0]);
    case Opaque =>
  }

  lemma NextIsPlain(w: World, p: Place)
    requires Plain(w, p)
    ensures forall c :: c in Next(ViewsIn(w), p) ==> Plain(w, c)
  {
    NextInWorld(w, p);
    if p.steps != [] && p.target.Named? {
      var d := w.decls[p.target.id];
      assert DeclAllowed(w, {}, d);
      if d.decl.Interface? && p.steps[0].Member? {
        var m := FindProperty(d.decl.members, p.steps[0].name);
        assert m.Some? ==> MemberAllowed(w, {}, d.scope, m.value);
      }
    } else if p.steps != [] && p.target.Type? {
      NextOfTypeIsPlain(w, p);
    }
  }

  /** In plain members a name is found as it is written, and nothing else covers it. */
  lemma {:induction false} PlainMembers(w: World, scope: Scope, members: seq<Signature>, name: string)
    requires forall m | m in members :: MemberAllowed(w, {}, scope, m)
    ensures FindMember(members, name) == FindProperty(members, name)
    ensures forall m, rd: Reading, p :: m in members ==> !Covers(rd, p, m)
  {
    if members != [] {
      PlainMembers(w, scope, members[1..], name);
      assert MemberAllowed(w, {}, scope, members[0]);
    }
    forall m, rd: Reading, p | m in members ensures !Covers(rd, p, m) {
      assert MemberAllowed(w, {}, scope, m);
    }
  }

  lemma ThroughMeans(w: World, rd: Reading, p: Place, c: Place, d: nat)
    requires d > 0 && ViewOf(w, p) == AnyOf([c]) && (Holds(w, rd, p, d) <==> Holds(w, rd, c, d - 1))
    ensures ViewMeans(w, rd, p, d)
  {
    assert c in [c];
  }

  lemma PropertyMeans(w: World, rd: Reading, p: Place, scope: Scope, property: Option<Signature>, d: nat)
    requires d > 0 && p.steps != [] && (property.Some? ==> property.value.Property?)
    requires ViewOf(w, p) == ViewProperty(scope, property, p.steps)
    requires Holds(w, rd, p, d) <==> property.Some? && MemberHolds(w, rd, p, scope, property.value, d)
    ensures ViewMeans(w, rd, p, d)
  {
    if property.Some? && |p.steps| > 1 && property.value.annotation.Some? {
      ThroughMeans(w, rd, p, Place(Type(scope, property.value.annotation.value), p.steps[1..]), d);
    }
  }

  lemma BasesMean(w: World, rd: Reading, p: Place, scope: Scope, bases: seq<Heritage>, d: nat)
    requires d > 0 && forall b | b in bases && b.NamedBase? :: NameAllowed(w, {}, scope, b.name)
    ensures (exists b, t :: b in bases && t in MeantBase(w, scope, b) && Holds(w, rd, Place(t, p.steps), d - 1))
      <==> exists c :: c in BasePlaces(w, scope, bases, p.steps) && Holds(w, rd, c, d - 1)
  {
    var places := BasePlaces(w, scope, bases, p.steps);
    forall b | b in bases ensures MeantBase(w, scope, b) == [BaseTarget(w, scope, b)] {
    }
    if b, t :| b in bases && t in MeantBase(w, scope, b) && Holds(w, rd, Place(t, p.steps), d - 1) {
      var i :| 0 <= i < |bases| && bases[i] == b;
      assert places[i] in places;
    }
    if c :| c in places && Holds(w, rd, c, d - 1) {
      var i :| 0 <= i < |places| && places[i] == c;
      assert bases[i] in bases && c.target in MeantBase(w, scope, bases[i]);
    }
  }

  lemma DeclMeans(w: World, rd: Reading, p: Place, d: nat)
    requires Plain(w, p) && d > 0 && p.steps != [] && p.target.Named?
    ensures ViewMeans(w, rd, p, d)
  {
    var declared := w.decls[p.target.id];
    assert DeclAllowed(w, {}, declared);
    match declared.decl
    case Alias(body) => ThroughMeans(w, rd, p, Place(Type(declared.scope, body), p.steps), d);
    case Interface(members, bases) =>
      if p.steps[0].Member? {
        PlainMembers(w, declared.scope, members, p.steps[0].name);
        var direct := FindProperty(members, p.steps[0].name);
        if direct.Some? {
          PropertyMeans(w, rd, p, declared.scope, direct, d);
        } else {
          BasesMean(w, rd, p, declared.scope, bases, d);
        }
      }
  }

  lemma PartsMean(w: World, rd: Reading, scope: Scope, parts: seq<TypeNode>, steps: seq<Step>, d: nat)
    requires d > 0
    ensures (exists part :: part in parts && Holds(w, rd, Place(Type(scope, part), steps), d - 1))
      <==> exists c :: c in TypePlaces(scope, parts, steps) && Holds(w, rd, c, d - 1)
  {
    var places := TypePlaces(scope, parts, steps);
    if part :| part in parts && Holds(w, rd, Place(Type(scope, part), steps), d - 1) {
      var i :| 0 <= i < |parts| && parts[i] == part;
      assert places[i] in places;
    }
    if c :| c in places && Holds(w, rd, c, d - 1) {
      var i :| 0 <= i < |places| && places[i] == c;
      assert parts[i] in parts;
    }
  }

  lemma ReferenceMeans(w: World, rd: Reading, p: Place, d: nat)
    requires Plain(w, p) && d > 0 && p.steps != [] && p.target.Type? && p.target.node.Reference?
    ensures ViewMeans(w, rd, p, d)
  {
    var scope, node := p.target.scope, p.target.node;
    if SeenThrough(node.head) && node.args != [] {
      var inner := Type(scope, node.args[0]);
      if KeepsMembers(node.head) {
        ThroughMeans(w, rd, p, Place(inner, p.steps), d);
      } else if p.steps[0].Element? {
        ThroughMeans(w, rd, p, Place(inner, p.steps[1..]), d);
      }
    } else if !node.qualified {
      var t := Resolve(w, scope, node.head);
      assert Meant(w, scope, node.head) == [t];
      ThroughMeans(w, rd, p, Place(t, p.steps), d);
    }
  }

  lemma ViewIsMeaning(w: World, rd: Reading, p: Place, d: nat)
    requires Plain(w, p) && d > 0
    ensures ViewMeans(w, rd, p, d)
  {
    if p.steps != [] && p.target.Named? {
      DeclMeans(w, rd, p, d);
    } else if p.steps != [] && p.target.Type? {
      var scope, steps := p.target.scope, p.steps;
      match p.target.node
      case Literal(members) =>
        if steps[0].Member? {
          PlainMembers(w, scope, members, steps[0].name);
          PropertyMeans(w, rd, p, scope, FindProperty(members, steps[0].name), d);
        }
      case Parenthesized(inner) => ThroughMeans(w, rd, p, Place(Type(scope, inner), steps), d);
      case Intersection(parts) => PartsMean(w, rd, scope, parts, steps, d);
      case Union(branches) =>
      case ArrayOf(element) =>
        if steps[0].Element? {
          ThroughMeans(w, rd, p, Place(Type(scope, element), steps[1..]), d);
        }
      case Operator(_, operand) => ThroughMeans(w, rd, p, Place(Type(scope, operand), steps), d);
      case IndexedAccess(owner, key) =>
        if key.Some? {
          ThroughMeans(w, rd, p, Place(Type(scope, owner), [Member(key.value)] + steps), d);
        }
      case Reference(_, _, _) => ReferenceMeans(w, rd, p, d);
      case Opaque =>
    }
  }
}
