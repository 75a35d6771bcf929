/**
 The forms of declaration the walk misreads: one input for each, and the exact conditions under which members, wrappers
 and whole worlds are read right.
 */
module TypePathForms {
  import opened Outcomes
  import opened TypePathLookup
  import opened TypePathMeaning
  import opened TypePathSoundness

  // ---------- One misread input for each form ----------

  datatype Sample = Sample(world: World, place: Place)

  function Here(): Scope {
    Scope("f", {})
  }

  /** `{ a }`. */
  function WithA(): TypeNode {
    Literal([Property("a", Some("a"), None)])
  }

  function At(node: TypeNode, name: string): Place {
    Place(Type(Here(), node), [Member(name)])
  }

  const NOTHING := World(map[], map[], {})

  function SampleOf(form: Form): Sample {
    match form
    case KeyOfType => Sample(NOTHING, At(Operator(KeyOf, WithA()), "a"))
    case QualifiedUtility => Sample(NOTHING, At(Reference("Partial", true, [WithA()]), "a"))
    case RedeclaredUtility => Sample(World(map[], map[], {("f", "Partial")}), At(Reference("Partial", false, [WithA()]), "a"))
    case ShadowingParameter =>  // interface T { a }  type Box<T> = T
      Sample(World(map[0 := Declared(Here(), Interface([Property("a", Some("a"), None)], [])),
                       1 := Declared(Scope("f", {"T"}), Alias(Reference("T", false, [])))],
                   map[("f", "T") := Binding(0, [Named(0)])], {}),
             Place(Named(1), [Member("a")]))
    case SplitName =>  // interface C { a }  interface C { b }
      Sample(World(map[0 := Declared(Here(), Interface([Property("a", Some("a"), None)], [])),
                       1 := Declared(Here(), Interface([Property("b", Some("b"), None)], []))],
                   map[("f", "C") := Binding(0, [Named(0), Named(1)])], {}),
             At(Reference("C", false, []), "b"))
    case WrittenName => Sample(NOTHING, At(Literal([Property("'a'", Some("a"), None)]), "a"))
    case MethodMember => Sample(NOTHING, At(Literal([MethodOrAccessor(Some("m"), None)]), "m"))
    case IndexMember =>  // interface C { [key: string]: number }
      Sample(World(map[0 := Declared(Here(), Interface([IndexSignature(true, Some(Opaque))], []))], map[], {}),
             Place(Named(0), [Member("a")]))
  }

  /** The forms that make the walk find what is not there; the others make it miss what is. */
  predicate FindsTooMuch(form: Form) {
    form.KeyOfType? || form.QualifiedUtility? || form.RedeclaredUtility? || form.ShadowingParameter?
  }

  lemma SampleUsesItsForm(form: Form, forms: set<Form>)
    requires form in forms
    ensures WorldAllowed(SampleOf(form).world, forms) && TargetAllowed(SampleOf(form).world, forms, SampleOf(form).place.target)
  {
    var w := SampleOf(form).world;
    assert TypeAllowed(w, forms, Here(), WithA());
  }

  /** Nothing is hidden. */
  function Bare(): Reading {
    Reading((_: Place) => 0, (_: Place) => false)
  }

  lemma ShadowingFound()
    ensures var s := SampleOf(ShadowingParameter); Misreports(s.world, Bare(), s.place, {}, 4)
  {
    var w, p := SampleOf(ShadowingParameter).world, SampleOf(ShadowingParameter).place;
    var v, a := ViewsIn(w), Property("a", Some("a"), None);
    assert FindProperty([a], "a") == Some(a);
    var c, t := Place(Type(Scope("f", {"T"}), Reference("T", false, [])), p.steps), Place(Named(0), p.steps);
    assert v(p) == AnyOf([c]) && v(c) == AnyOf([t]) && v(t) == Answer(Found);
    var entered: set<Key> := {(1, 1)};
    assert Guarded(p, {}) == entered;
    WalkThrough(v, c, t, entered, 2, Walk(Found, Guarded(t, entered)));
    WalkThrough(v, p, c, {}, 3, Walk(Found, Guarded(t, entered)));
    forall d: nat ensures !Holds(w, Bare(), p, d) {
      if d > 1 {
        assert Meant(w, Scope("f", {"T"}), "T") == [OutOfReach];
        assert !Holds(w, Bare(), Place(OutOfReach, p.steps), d - 2);
        assert !Holds(w, Bare(), c, d - 1);
      }
    }
  }

  lemma SampleFound(form: Form)
    requires FindsTooMuch(form) && !form.ShadowingParameter?
    ensures Misreports(SampleOf(form).world, Bare(), SampleOf(form).place, {}, 4)
  {
    var w, p := SampleOf(form).world, SampleOf(form).place;
    var v, a, c := ViewsIn(w), Property("a", Some("a"), None), At(WithA(), "a");
    assert FindProperty([a], "a") == Some(a);
    assert v(p) == AnyOf([c]) && v(c) == Answer(Found);
    WalkThrough(v, p, c, {}, 3, Walk(Found, {}));
    assert Meant(w, Here(), "Partial") == [OutOfReach];
    forall d: nat ensures !Holds(w, Bare(), p, d) {
      if d > 0 {
        assert !Holds(w, Bare(), Place(OutOfReach, p.steps), d - 1);
      }
    }
  }

  lemma SplitMissed()
    ensures var s := SampleOf(SplitName); Misreports(s.world, Bare(), s.place, {}, 4)
  {
    var w, p := SampleOf(SplitName).world, SampleOf(SplitName).place;
    var v, t, b := ViewsIn(w), Place(Named(0), p.steps), Property("b", Some("b"), None);
    assert v(p) == AnyOf([t]) && v(t) == AnyOf([]);
    assert LookupEach(v, [], Guarded(t, {}), 2) == Some(Walks([], Guarded(t, {})));
    WalkThrough(v, p, t, {}, 3, Walk(Missing, Guarded(t, {})));
    assert FindMember([b], "b") == Some(b);
    assert Holds(w, Bare(), Place(Named(1), p.steps), 1);
    assert Holds(w, Bare(), p, 2);
  }

  lemma IndexMissed()
    ensures var s := SampleOf(IndexMember); Misreports(s.world, Bare(), s.place, {}, 4)
  {
    var w, p := SampleOf(IndexMember).world, SampleOf(IndexMember).place;
    var m := IndexSignature(true, Some(Opaque));
    assert FindMember([m], "a") == None;
    assert ViewsIn(w)(p) == AnyOf([]);
    assert m in [m] && Covers(Bare(), p, m) && MemberHolds(w, Bare(), p, Here(), m, 1);
    assert Holds(w, Bare(), p, 1);
  }

  lemma SampleMissed(form: Form)
    requires !FindsTooMuch(form)
    ensures Misreports(SampleOf(form).world, Bare(), SampleOf(form).place, {}, 4)
  {
    var w, p := SampleOf(form).world, SampleOf(form).place;
    match form
    case SplitName => SplitMissed();
    case WrittenName =>
      var m := Property("'a'", Some("a"), None);
      assert FindMember([m], "a") == Some(m);
      assert FindProperty([m], "a") == None;
      assert Holds(w, Bare(), p, 1);
    case MethodMember =>
      var m := MethodOrAccessor(Some("m"), None);
      assert FindMember([m], "m") == Some(m);
      assert Holds(w, Bare(), p, 1);
    case IndexMember => IndexMissed();
  }

  /** The walk is right about every place of every world that only uses some forms. */
  ghost predicate ReadsRight(forms: set<Form>) {
    forall w: World, p: Place :: WorldAllowed(w, forms) && TargetAllowed(w, forms, p.target) ==> NeverMisreports(w, p)
  }

  /**
   The whole condition: the walk is right about all worlds that use none of the forms, and each form alone is enough
   for a definite verdict that is wrong.
   */
  lemma ReadsRightIff(forms: set<Form>)
    ensures ReadsRight(forms) <==> forms == {}
  {
    if forms == {} {
      forall w: World, p: Place | WorldAllowed(w, forms) && TargetAllowed(w, forms, p.target) ensures NeverMisreports(w, p) {
        PlainWalksNeverMisreport(w, p);
      }
    } else {
      var form :| form in forms;
      SampleUsesItsForm(form, forms);
      if form.ShadowingParameter? {
        ShadowingFound();
      } else if FindsTooMuch(form) {
        SampleFound(form);
      } else {
        SampleMissed(form);
      }
      assert !NeverMisreports(SampleOf(form).world, SampleOf(form).place);
    }
  }

  // ---------- Members ----------

  ghost predicate MemberReadRight(w: World, scope: Scope, m: Signature) {
    forall steps :: NeverMisreports(w, Place(Type(scope, Literal([m])), steps))
  }

  /** A property written as its name, or a member that has no name at all. */
  predicate WalkedMember(m: Signature) {
    m.CallSignature? || (m.Property? && m.key == Some(m.spelling))
  }

  /**
   In any plain world: an object type with a single member is read right exactly when the member is a property written
   as its name, or a call signature. Index signatures, methods, accessors and quoted or computed names are not.
   */
  lemma MemberReadRightIff(w: World, scope: Scope, m: Signature)
    requires WorldAllowed(w, {}) && (Annotation(m).Some? ==> TypeAllowed(w, {}, scope, Annotation(m).value))
    ensures MemberReadRight(w, scope, m) <==> WalkedMember(m)
  {
    if WalkedMember(m) {
      assert MemberAllowed(w, {}, scope, m);
      forall steps ensures NeverMisreports(w, Place(Type(scope, Literal([m])), steps)) {
        PlainWalksNeverMisreport(w, Place(Type(scope, Literal([m])), steps));
      }
    } else {
      var named := (m.Property? || m.MethodOrAccessor?) && m.key.Some?;
      var name := if named then m.key.value else if m.Property? then m.spelling else "a";
      var p := Place(Type(scope, Literal([m])), [Member(name)]);
      var found := m.Property? && m.spelling == name;
      var rd := Reading((_: Place) => 0, (_: Place) => !found);
      assert FindMember([m], name) == if named then Some(m) else None;
      assert FindProperty([m], name) == if found then Some(m) else None;
      assert Lookup(ViewsIn(w), p, {}, 1) == Some(Walk(if found then Found else Missing, {}));
      if found {
        forall d: nat ensures !Holds(w, rd, p, d) {
        }
      } else {
        assert m in [m] && (named || Covers(rd, p, m));
        assert Holds(w, rd, p, 1);
      }
      assert Misreports(w, rd, p, {}, 1);
      assert !NeverMisreports(w, p);
    }
  }

  // ---------- Wrappers ----------

  /** A type former applied around an inner type: an operator, or a utility reference. */
  datatype Wrapper = OperatorOn(op: TypeOperator) | UtilityOf(head: string, qualified: bool)

  function Wrap(k: Wrapper, inner: TypeNode): TypeNode {
    match k
    case OperatorOn(op) => Operator(op, inner)
    case UtilityOf(head, qualified) => Reference(head, qualified, [inner])
  }

  /** An operator, or a reference with the name of a utility that is seen through; one that is not qualified means the global utility. */
  ghost predicate Wraps(w: World, scope: Scope, k: Wrapper) {
    k.UtilityOf? ==> SeenThrough(k.head) && (!k.qualified ==> !Redeclared(w, scope, k.head))
  }

  ghost predicate WrapperReadRight(w: World, scope: Scope, k: Wrapper) {
    forall inner, steps :: TypeAllowed(w, {}, scope, inner) ==> NeverMisreports(w, Place(Type(scope, Wrap(k, inner)), steps))
  }

  predicate TransparentWrapper(k: Wrapper) {
    match k
    case OperatorOn(op) => op == ReadOnly
    case UtilityOf(_, qualified) => !qualified
  }

  /** The walk finds a member through every other wrapper, though no reading need have it. */
  lemma WrapperMisread(w: World, scope: Scope, k: Wrapper)
    requires WorldAllowed(w, {}) && Wraps(w, scope, k) && !TransparentWrapper(k)
    ensures !WrapperReadRight(w, scope, k)
  {
    var byElement := k.UtilityOf? && MakesArray(k.head);
    var steps := if byElement then [Element, Member("a")] else [Member("a")];
    var p, c := Place(Type(scope, Wrap(k, WithA())), steps), Place(Type(scope, WithA()), [Member("a")]);
    var v, a := ViewsIn(w), Property("a", Some("a"), None);
    assert FindProperty([a], "a") == Some(a);
    assert steps[|steps| - 1..] == [Member("a")];
    assert v(p) == AnyOf([c]) && v(c) == Answer(Found);
    WalkThrough(v, p, c, {}, 1, Walk(Found, {}));
    forall d: nat ensures !Holds(w, Bare(), p, d) {
    }
    assert Misreports(w, Bare(), p, {}, 2);
    assert TypeAllowed(w, {}, scope, WithA());
  }

  /** In any plain world: a wrapper is read right around all plain types exactly when it is `readonly` or an unqualified utility. */
  lemma WrapperReadRightIff(w: World, scope: Scope, k: Wrapper)
    requires WorldAllowed(w, {}) && Wraps(w, scope, k)
    ensures WrapperReadRight(w, scope, k) <==> TransparentWrapper(k)
  {
    if TransparentWrapper(k) {
      forall inner, steps | TypeAllowed(w, {}, scope, inner) ensures NeverMisreports(w, Place(Type(scope, Wrap(k, inner)), steps)) {
        PlainWalksNeverMisreport(w, Place(Type(scope, Wrap(k, inner)), steps));
      }
    } else {
      WrapperMisread(w, scope, k);
    }
  }
}
