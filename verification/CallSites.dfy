/** Call-site indexing for local helpers: a one-file index that must agree with the index of every package source. */
module CallSites {
  import opened Outcomes
  import opened SyntaxTree

  datatype Name = Name(id: nat, text: string, symbol: Option<Symbol>)

  /** A function declaration with its file; a helper may lack a name. */
  datatype Owner = Owner(declaration: Declaration, file: nat, exported: bool, name: Option<Name>)

  datatype SourceFile = SourceFile(isModule: bool, tree: Node)

  /** `packageFiles` are the files the whole-program index covers, each once. */
  datatype Project = Project(files: seq<SourceFile>, packageFiles: seq<nat>) {
    predicate Valid() {
      && (forall i :: 0 <= i < |packageFiles| ==> packageFiles[i] < |files|)
      && forall i, k :: 0 <= i < k < |packageFiles| ==> packageFiles[i] != packageFiles[k]
    }
  }

  // ---------- What the indexes hold ----------

  function CallsInFiles(p: Project, files: seq<nat>, d: Declaration): seq<nat>
    requires forall i :: 0 <= i < |files| ==> files[i] < |p.files|
  {
    if files == [] then []
    else CallsInFiles(p, files[..|files| - 1], d) + CallsIn(p.files[files[|files| - 1]].tree, d)
  }

  type Index = map<Declaration, seq<nat>>

  function Find(index: Index, d: Declaration): seq<nat> {
    if d in index then index[d] else []
  }

  /** An index holding for every declaration what it held before and then the calls found in a tree. */
  ghost predicate Adds(index: Index, node: Node, index': Index) {
    forall d: Declaration :: Find(index', d) == Find(index, d) + CallsIn(node, d)
  }

  ghost predicate AddsEach(index: Index, nodes: seq<Node>, index': Index) {
    forall d: Declaration :: Find(index', d) == Find(index, d) + CallsInEach(nodes, d)
  }

  lemma Regroup(a: seq<nat>, b: seq<nat>, c: seq<nat>)
    ensures (a + b) + c == a + (b + c)
  {
  }

  lemma AddsOneMore(index: Index, nodes: seq<Node>, i: nat, middle: Index, index': Index)
    requires i < |nodes| && AddsEach(index, nodes[..i], middle) && Adds(middle, nodes[i], index')
    ensures AddsEach(index, nodes[..i + 1], index')
  {
    forall d: Declaration ensures Find(index', d) == Find(index, d) + CallsInEach(nodes[..i + 1], d) {
      CallsInOneMore(nodes, i, d);
      Regroup(Find(index, d), CallsInEach(nodes[..i], d), CallsIn(nodes[i], d));
      assert Find(index', d) == Find(middle, d) + CallsIn(nodes[i], d);
    }
  }

  /** A call comes under the declaration it reaches. */
  ghost predicate AddsOwn(index: Index, node: Node, middle: Index) {
    forall d: Declaration :: Find(middle, d) == Find(index, d) + OwnCall(node, d)
  }

  /** A call first, then the calls below it. */
  lemma AddsCall(index: Index, node: Node, middle: Index, index': Index)
    requires node.Call? && AddsOwn(index, node, middle) && AddsEach(middle, node.children, index')
    ensures Adds(index, node, index')
  {
    forall d: Declaration ensures Find(index', d) == Find(index, d) + CallsIn(node, d) {
      Regroup(Find(index, d), OwnCall(node, d), CallsInEach(node.children, d));
      assert Find(index', d) == Find(middle, d) + CallsInEach(node.children, d);
    }
  }

  method IndexCalls(node: Node, index: Index) returns (index': Index)
    ensures Adds(index, node, index')
    decreases node
  {
    match node {
      case Identifier(_, _, _, _) =>
        index' := index;
      case Call(id, target, children) =>
        var middle := index;
        if target.Some? {
          middle := middle[target.value := Find(middle, target.value) + [id]];
        }
        index' := IndexEach(children, middle);
        AddsCall(index, node, middle, index');
      case Wrapper(inner) =>
        index' := IndexCalls(inner, index);
      case ExportClause(children) =>
        index' := IndexEach(children, index);
      case Other(children) =>
        index' := IndexEach(children, index);
    }
  }

  method IndexEach(nodes: seq<Node>, index: Index) returns (index': Index)
    ensures AddsEach(index, nodes, index')
    decreases nodes
  {
    index' := index;
    for i := 0 to |nodes|
      invariant AddsEach(index, nodes[..i], index')
    {
      ghost var middle := index';
      index' := IndexCalls(nodes[i], index');
      AddsOneMore(index, nodes, i, middle, index');
    }
    assert nodes[..|nodes|] == nodes;
  }

  ghost predicate Indexes(p: Project, files: seq<nat>, index: Index)
    requires forall i :: 0 <= i < |files| ==> files[i] < |p.files|
  {
    forall d: Declaration :: Find(index, d) == CallsInFiles(p, files, d)
  }

  method BuildCallSiteIndex(p: Project, files: seq<nat>) returns (index: Index)
    requires forall i :: 0 <= i < |files| ==> files[i] < |p.files|
    ensures Indexes(p, files, index)
    ensures HoldsCalls(p, files, index)
  {
    index := map[];
    for i := 0 to |files|
      invariant Indexes(p, files[..i], index)
    {
      assert files[..i + 1][..i] == files[..i];
      index := IndexCalls(p.files[files[i]].tree, index);
    }
    assert files[..|files|] == files;
    HoldsExactly(p, files, index);
  }

  /** The index holds exactly the calls within the files, each under the declaration it reaches. */
  ghost predicate HoldsCalls(p: Project, files: seq<nat>, index: Index)
    requires forall i :: 0 <= i < |files| ==> files[i] < |p.files|
  {
    forall d, id :: id in Find(index, d) <==> CalledIn(p, files, d, id)
  }

  lemma HoldsExactly(p: Project, files: seq<nat>, index: Index)
    requires forall i :: 0 <= i < |files| ==> files[i] < |p.files|
    requires Indexes(p, files, index)
    ensures HoldsCalls(p, files, index)
  {
    forall d, id ensures id in Find(index, d) <==> CalledIn(p, files, d, id) {
      CallsInFilesExactly(p, files, d, id);
    }
  }

  /** Within one of the files a call reaches the declaration. */
  ghost predicate CalledIn(p: Project, files: seq<nat>, d: Declaration, id: nat)
    requires forall i :: 0 <= i < |files| ==> files[i] < |p.files|
  {
    exists f, call :: f in files && Within(p.files[f].tree, call) && Reaches(call, d) && call.id == id
  }

  lemma {:induction false} CallsInFilesExactly(p: Project, files: seq<nat>, d: Declaration, id: nat)
    requires forall i :: 0 <= i < |files| ==> files[i] < |p.files|
    ensures id in CallsInFiles(p, files, d) <==> CalledIn(p, files, d, id)
  {
    if files != [] {
      var front, last := files[..|files| - 1], files[|files| - 1];
      assert files == front + [last];
      CallsInFilesExactly(p, front, d, id);
      CallsInExactly(p.files[last].tree, d, id);
      if f, call :| f in files && Within(p.files[f].tree, call) && Reaches(call, d) && call.id == id {
        assert f in front || f == last;
      }
    }
  }

  // ---------- The proof that a helper is local ----------

  datatype Use = Use(id: nat, text: string, symbol: Option<Symbol>, hops: nat, role: Role)

  function ChildRole(node: Node, i: nat): Role {
    if node.Call? && i == 0 then Callee else if node.ExportClause? then Exported else Plain
  }

  /** The identifier is used in the tree; wrappers pass the role of the whole on to the inside. */
  ghost predicate Uses(node: Node, role: Role, u: Use)
    decreases node
  {
    match node
    case Identifier(id, text, symbol, hops) => u == Use(id, text, symbol, hops, role)
    case Wrapper(inner) => Uses(inner, role, u)
    case Call(_, _, children) => exists i: nat :: i < |children| && Uses(children[i], ChildRole(node, i), u)
    case ExportClause(children) => exists i: nat :: i < |children| && Uses(children[i], ChildRole(node, i), u)
    case Other(children) => exists i: nat :: i < |children| && Uses(children[i], ChildRole(node, i), u)
  }

  /** The uses are the identifiers in the tree, each in the role it has at its place. */
  lemma {:induction false} UsesIffAt(node: Node, role: Role, u: Use)
    ensures Uses(node, role, u) <==> exists place :: IsUseAt(node, place, role, u)
    decreases node
  {
    if Uses(node, role, u) {
      var place := PlaceOfUse(node, role, u);
    }
    if place :| IsUseAt(node, place, role, u) {
      UseAtPlace(node, place, role, u);
    }
  }

  predicate IsUseAt(node: Node, place: Place, role: Role, u: Use) {
    NodeAt(node, place) == Some(Identifier(u.id, u.text, u.symbol, u.hops)) && u.role == RoleAt(node, place, role)
  }

  lemma {:induction false} PlaceOfUse(node: Node, role: Role, u: Use) returns (place: Place)
    requires Uses(node, role, u)
    ensures IsUseAt(node, place, role, u)
    decreases node
  {
    if node.Identifier? {
      place := [];
    } else if node.Wrapper? {
      place := PlaceOfUse(node.inner, role, u);
      assert ([0] + place)[1..] == place;
      place := [0] + place;
    } else {
      var i: nat :| i < |node.children| && Uses(node.children[i], ChildRole(node, i), u);
      place := PlaceOfUse(node.children[i], ChildRole(node, i), u);
      assert ([i] + place)[1..] == place;
      place := [i] + place;
    }
  }

  lemma {:induction false} UseAtPlace(node: Node, place: Place, role: Role, u: Use)
    requires IsUseAt(node, place, role, u)
    ensures Uses(node, role, u)
    decreases |place|
  {
    if place != [] {
      var i, c := place[0], Children(node)[place[0]];
      UseAtPlace(c, place[1..], if node.Wrapper? then role else ChildRole(node, i), u);
    }
  }

  /** A reference to the owner, other than its own name, that is not the callee of a call. */
  predicate Escaping(name: Name, u: Use) {
    u.id != name.id && u.text == name.text && u.role != Callee && u.symbol.Some? && u.symbol == name.symbol
  }

  ghost predicate Escapes(name: Name, node: Node, role: Role) {
    exists u :: Uses(node, role, u) && Escaping(name, u)
  }

  /** An unexported, resolved function of a module file whose references there are all direct callees. */
  ghost predicate Local(p: Project, o: Owner)
    requires o.file < |p.files|
  {
    && !o.exported
    && p.files[o.file].isModule
    && Resolved(o)
    && !Escapes(o.name.value, p.files[o.file].tree, Plain)
  }

  predicate Resolved(o: Owner) {
    o.name.Some? && o.name.value.symbol.Some?
  }

  /** At the place another identifier of that name and symbol stands. */
  predicate RefersAt(tree: Node, place: Place, name: Name) {
    NodeAt(tree, place).Some? && NodeAt(tree, place).value.Identifier? &&
    var n := NodeAt(tree, place).value;
    n.id != name.id && n.text == name.text && n.symbol == name.symbol
  }

  /** In terms of places: a local helper is a function of a module that is referred to as a direct callee only. */
  lemma LocalIffCalleesOnly(p: Project, o: Owner)
    requires o.file < |p.files|
    ensures Local(p, o) <==>
      && !o.exported && p.files[o.file].isModule && o.name.Some? && o.name.value.symbol.Some?
      && var tree := p.files[o.file].tree;
         forall place :: RefersAt(tree, place, o.name.value) ==> RoleAt(tree, place, Plain) == Callee
  {
    if Resolved(o) {
      var tree, name := p.files[o.file].tree, o.name.value;
      if u :| Uses(tree, Plain, u) && Escaping(name, u) {
        UsesIffAt(tree, Plain, u);
        var place :| IsUseAt(tree, place, Plain, u);
        assert RefersAt(tree, place, name);
      }
      if place :| RefersAt(tree, place, name) && RoleAt(tree, place, Plain) != Callee {
        var n := NodeAt(tree, place).value;
        var u := Use(n.id, n.text, n.symbol, n.hops, RoleAt(tree, place, Plain));
        UsesIffAt(tree, Plain, u);
        assert IsUseAt(tree, place, Plain, u) && Escaping(name, u);
      }
    }
  }

  method ScanForEscape(name: Name, node: Node, role: Role) returns (proven: bool)
    ensures proven <==> !Escapes(name, node, role)
    decreases node
  {
    match node {
      case Identifier(id, text, symbol, hops) =>
        var u := Use(id, text, symbol, hops, role);
        assert Uses(node, role, u);
        return !Escaping(name, u);
      case Wrapper(inner) =>
        proven := ScanForEscape(name, inner, role);
        assert forall u :: Uses(node, role, u) <==> Uses(inner, role, u);
      case Call(_, _, children) =>
        proven := ScanEach(name, node, children);
        EscapesInChild(name, node, role, children);
      case ExportClause(children) =>
        proven := ScanEach(name, node, children);
        EscapesInChild(name, node, role, children);
      case Other(children) =>
        proven := ScanEach(name, node, children);
        EscapesInChild(name, node, role, children);
    }
  }

  lemma EscapesInChild(name: Name, node: Node, role: Role, children: seq<Node>)
    requires !node.Identifier? && !node.Wrapper? && children == node.children
    ensures Escapes(name, node, role) <==> exists i: nat :: i < |children| && Escapes(name, children[i], ChildRole(node, i))
  {
    if i: nat :| i < |children| && Escapes(name, children[i], ChildRole(node, i)) {
      var u :| Uses(children[i], ChildRole(node, i), u) && Escaping(name, u);
      assert Uses(node, role, u);
    }
    if u :| Uses(node, role, u) && Escaping(name, u) {
      var i: nat :| i < |children| && Uses(children[i], ChildRole(node, i), u);
      assert Escapes(name, children[i], ChildRole(node, i));
    }
  }

  method ScanEach(name: Name, node: Node, nodes: seq<Node>) returns (proven: bool)
    ensures proven <==> forall i: nat :: i < |nodes| ==> !Escapes(name, nodes[i], ChildRole(node, i))
    decreases nodes
  {
    proven := true;
    for i := 0 to |nodes|
      invariant proven <==> forall k: nat :: k < i ==> !Escapes(name, nodes[k], ChildRole(node, k))
    {
      if proven {
        proven := ScanForEscape(name, nodes[i], ChildRole(node, i));
      }
    }
  }

  // ---------- Scoping ----------

  ghost predicate UsedIn(p: Project, f: nat, u: Use) {
    f < |p.files| && Uses(p.files[f].tree, Plain, u)
  }

  function Unwrapped(node: Node): Node {
    if node.Wrapper? then Unwrapped(node.inner) else node
  }

  /** The call names the symbol directly. */
  predicate CallsByName(call: Node, symbol: Symbol) {
    call.Call? && call.children != [] &&
    var callee := Unwrapped(call.children[0]);
    callee.Identifier? && callee.symbol == Some(symbol)
  }

  /** Lookup in scope finds a declaration by its own name, and what a module declares only inside its file. */
  ghost predicate LookupInScope(p: Project, o: Owner)
    requires o.file < |p.files| && Resolved(o)
  {
    forall f, u :: UsedIn(p, f, u) && u.symbol == o.name.value.symbol && u.hops == 0 ==>
      u.text == o.name.value.text && (f == o.file || !p.files[o.file].isModule)
  }

  /** A name that comes in through imports goes through an export: a modifier, or a name resolved with fewer imports. */
  ghost predicate ImportsNeedExports(p: Project, o: Owner)
    requires Resolved(o)
  {
    forall f, u :: UsedIn(p, f, u) && u.symbol == o.name.value.symbol && u.hops > 0 ==>
      o.exported || exists g, e :: UsedIn(p, g, e) && e.role == Exported && e.symbol == u.symbol && e.hops < u.hops
  }

  /** A call reaches the function by its name, or by a value that came from a reference which is not itself called. */
  ghost predicate CallsNeedReferences(p: Project, o: Owner)
    requires Resolved(o)
  {
    forall f: nat, call :: f < |p.files| && Within(p.files[f].tree, call) && Reaches(call, o.declaration) ==>
      || CallsByName(call, o.name.value.symbol.value)
      || exists g, u :: UsedIn(p, g, u) && u.role != Callee && u.id != o.name.value.id && u.symbol == o.name.value.symbol
  }

  /** The name in the declaration itself is not in an export clause. */
  ghost predicate NameIsNoExport(p: Project, o: Owner)
    requires Resolved(o)
  {
    forall f, u :: UsedIn(p, f, u) && u.id == o.name.value.id ==> u.role == Plain
  }

  /** The language rules by which symbols and calls of the function were resolved. */
  ghost predicate WellScoped(p: Project, o: Owner)
    requires o.file < |p.files|
  {
    Resolved(o) ==> LookupInScope(p, o) && ImportsNeedExports(p, o) && CallsNeedReferences(p, o) && NameIsNoExport(p, o)
  }

  /** A name of a local helper is never resolved through imports. */
  lemma {:induction false} NeverImported(p: Project, o: Owner, f: nat, u: Use)
    requires o.file < |p.files| && WellScoped(p, o) && Local(p, o)
    requires UsedIn(p, f, u) && u.symbol == o.name.value.symbol
    ensures u.hops == 0 && f == o.file
    decreases u.hops
  {
    if u.hops > 0 {
      var g, e :| UsedIn(p, g, e) && e.role == Exported && e.symbol == u.symbol && e.hops < u.hops;
      NeverImported(p, o, g, e);
      assert Escaping(o.name.value, e);
      assert false;
    }
  }

  /** The callee of a call in a tree is a use of its name. */
  lemma {:induction false} CalleeIsUsed(node: Node, role: Role, place: Place, call: Node) returns (u: Use)
    requires NodeAt(node, place) == Some(call) && call.Call? && call.children != [] && Unwrapped(call.children[0]).Identifier?
    ensures Uses(node, role, u) && u.symbol == Unwrapped(call.children[0]).symbol
    decreases node
  {
    if place == [] {
      u := UnwrappedIsUsed(node.children[0], Callee);
      assert Uses(node.children[0], ChildRole(node, 0), u);
    } else if node.Wrapper? {
      u := CalleeIsUsed(node.inner, role, place[1..], call);
    } else {
      var i, c := place[0], node.children[place[0]];
      u := CalleeIsUsed(c, ChildRole(node, i), place[1..], call);
      assert Uses(node.children[i], ChildRole(node, i), u);
    }
  }

  lemma {:induction false} UnwrappedIsUsed(node: Node, role: Role) returns (u: Use)
    requires Unwrapped(node).Identifier?
    ensures Uses(node, role, u) && u.symbol == Unwrapped(node).symbol
    decreases node
  {
    if node.Wrapper? {
      u := UnwrappedIsUsed(node.inner, role);
    } else {
      u := Use(node.id, node.text, node.symbol, node.hops, role);
    }
  }

  /** A function that is called in a tree has a call there. */
  lemma CallIsWithin(node: Node, d: Declaration) returns (call: Node)
    requires CallsIn(node, d) != []
    ensures Within(node, call) && Reaches(call, d)
  {
    var id := CallsIn(node, d)[0];
    CallsInExactly(node, d, id);
    call :| Within(node, call) && Reaches(call, d) && call.id == id;
  }

  /** A function whose file passes the scan is called in that file only. */
  lemma LocalIsConfined(p: Project, o: Owner, f: nat)
    requires o.file < |p.files| && WellScoped(p, o) && Local(p, o)
    requires f < |p.files| && f != o.file
    ensures CallsIn(p.files[f].tree, o.declaration) == []
  {
    if CallsIn(p.files[f].tree, o.declaration) != [] {
      var call := CallIsWithin(p.files[f].tree, o.declaration);
      if CallsByName(call, o.name.value.symbol.value) {
        var place :| NodeAt(p.files[f].tree, place) == Some(call);
        var u := CalleeIsUsed(p.files[f].tree, Plain, place, call);
        NeverImported(p, o, f, u);
      } else {
        var g, u :| UsedIn(p, g, u) && u.role != Callee && u.id != o.name.value.id && u.symbol == o.name.value.symbol;
        NeverImported(p, o, g, u);
        assert Escaping(o.name.value, u);
      }
      assert false;
    }
  }

  // ---------- The two indexes ----------

  function LocalCalls(p: Project, o: Owner): seq<nat>
    requires o.file < |p.files|
  {
    CallsIn(p.files[o.file].tree, o.declaration)
  }

  function GlobalCalls(p: Project, o: Owner): seq<nat>
    requires p.Valid()
  {
    CallsInFiles(p, p.packageFiles, o.declaration)
  }

  lemma {:induction false} OnlyOwnFile(p: Project, files: seq<nat>, o: Owner)
    requires forall i :: 0 <= i < |files| ==> files[i] < |p.files|
    requires forall i, k :: 0 <= i < k < |files| ==> files[i] != files[k]
    requires o.file < |p.files|
    requires forall f :: 0 <= f < |p.files| && f != o.file ==> CallsIn(p.files[f].tree, o.declaration) == []
    ensures CallsInFiles(p, files, o.declaration) == if o.file in files then LocalCalls(p, o) else []
  {
    if files != [] {
      var n := |files| - 1;
      OnlyOwnFile(p, files[..n], o);
      assert files == files[..n] + [files[n]];
      var front, last := CallsInFiles(p, files[..n], o.declaration), CallsIn(p.files[files[n]].tree, o.declaration);
      if files[n] == o.file {
        assert front == [] && front + last == last;
      } else {
        assert last == [] && front + last == front;
      }
    }
  }

  lemma OneFile(p: Project, o: Owner)
    requires o.file < |p.files|
    ensures CallsInFiles(p, [o.file], o.declaration) == LocalCalls(p, o)
  {
    assert [o.file][..0] == [];
  }

  /** A local helper's one-file index agrees with the global one exactly when its file is covered or calls it nowhere. */
  lemma IndexesAgreeIff(p: Project, o: Owner)
    requires p.Valid() && o.file < |p.files| && WellScoped(p, o) && Local(p, o)
    ensures LocalCalls(p, o) == GlobalCalls(p, o) <==> o.file in p.packageFiles || LocalCalls(p, o) == []
  {
    forall f: nat | f < |p.files| && f != o.file ensures CallsIn(p.files[f].tree, o.declaration) == [] {
      LocalIsConfined(p, o, f);
    }
    OnlyOwnFile(p, p.packageFiles, o);
  }

  // ---------- Every part of the scan is needed ----------

  datatype Part = NoExportModifier | ModuleFile | NoEscape

  /** The part of the scan's condition holds. */
  ghost predicate Passes(p: Project, o: Owner, part: Part)
    requires o.file < |p.files| && Resolved(o)
  {
    match part
    case NoExportModifier => !o.exported
    case ModuleFile => p.files[o.file].isModule
    case NoEscape => !Escapes(o.name.value, p.files[o.file].tree, Plain)
  }

  /** `function helper` in one file, and a call of it in another that only the missing part lets through. */
  function Leaking(part: Part): (Project, Owner) {
    var name := Identifier(1, "helper", Some(5), 0);
    var clause := if part.NoEscape? then [ExportClause([Identifier(2, "helper", Some(5), 0)])] else [];
    var caller := Call(10, Some(7), [Identifier(11, "helper", Some(5), if part.ModuleFile? then 0 else 1)]);
    (Project([SourceFile(!part.ModuleFile?, Other([name] + clause)), SourceFile(true, Other([caller]))], [0, 1]),
     Owner(7, 0, part.NoExportModifier?, Some(Name(1, "helper", Some(5)))))
  }

  lemma LeakingUses(part: Part, f: nat, u: Use)
    requires UsedIn(Leaking(part).0, f, u)
    ensures f == 0 ==> u == Use(1, "helper", Some(5), 0, Plain) || (part.NoEscape? && u == Use(2, "helper", Some(5), 0, Exported))
    ensures f == 1 ==> u == Use(11, "helper", Some(5), if part.ModuleFile? then 0 else 1, Callee)
  {
    var tree := Leaking(part).0.files[f].tree;
    var i: nat :| i < |tree.children| && Uses(tree.children[i], ChildRole(tree, i), u);
    var child := tree.children[i];
    if !child.Identifier? {
      var j: nat :| j < |child.children| && Uses(child.children[j], ChildRole(child, j), u);
    }
  }

  lemma LeakingCall(part: Part, f: nat, call: Node)
    requires f < 2 && Within(Leaking(part).0.files[f].tree, call) && call.Call?
    ensures CallsByName(call, 5)
  {
    var tree := Leaking(part).0.files[f].tree;
    var place :| NodeAt(tree, place) == Some(call);
    if place != [] {
      var c := tree.children[place[0]];
      assert NodeAt(c, place[1..]) == Some(call);
      if |place| > 1 {
        NothingBelow(Children(c)[place[1]], place[1..][1..]);
      }
    }
  }

  lemma NothingBelow(node: Node, place: Place)
    requires node.Identifier?
    ensures NodeAt(node, place) == if place == [] then Some(node) else None
  {
  }

  lemma LeakingIsScoped(part: Part)
    ensures WellScoped(Leaking(part).0, Leaking(part).1)
  {
    var p, o := Leaking(part).0, Leaking(part).1;
    forall f, u | UsedIn(p, f, u)
      ensures f < 2 && (f == 0 ==> u == Use(1, "helper", Some(5), 0, Plain) || (part.NoEscape? && u == Use(2, "helper", Some(5), 0, Exported)))
      ensures f == 1 ==> u == Use(11, "helper", Some(5), if part.ModuleFile? then 0 else 1, Callee)
    {
      LeakingUses(part, f, u);
    }
    if part.NoEscape? {
      var tree, e := p.files[0].tree, Use(2, "helper", Some(5), 0, Exported);
      assert Uses(tree.children[1].children[0], Exported, e);
      assert Uses(tree.children[1], ChildRole(tree, 1), e);
      assert UsedIn(p, 0, e);
    }
    forall f: nat, call | f < |p.files| && Within(p.files[f].tree, call) && call.Call? ensures CallsByName(call, 5) {
      LeakingCall(part, f, call);
    }
  }

  /** Where only one part fails, a call can be in another file, and the one-file index misses it. */
  lemma EveryPartIsNeeded(part: Part)
    ensures var (p, o) := Leaking(part);
      && p.Valid() && o.file < |p.files| && o.file in p.packageFiles && WellScoped(p, o) && Resolved(o)
      && (forall other: Part :: Passes(p, o, other) <==> other != part)
      && LocalCalls(p, o) != GlobalCalls(p, o)
  {
    var (p, o) := Leaking(part);
    LeakingIsScoped(part);
    var e := Use(2, "helper", Some(5), 0, Exported);
    if part.NoEscape? {
      var tree := p.files[0].tree;
      assert Uses(tree.children[1].children[0], Exported, e);
      assert Uses(tree.children[1], ChildRole(tree, 1), e);
      assert Escaping(o.name.value, e);
    } else {
      forall u | UsedIn(p, 0, u) ensures !Escaping(o.name.value, u) {
        LeakingUses(part, 0, u);
      }
    }
    LeakingCalls(part);
  }

  lemma LeakingCalls(part: Part)
    ensures LocalCalls(Leaking(part).0, Leaking(part).1) == [] && GlobalCalls(Leaking(part).0, Leaking(part).1) == [10]
  {
    var p, o := Leaking(part).0, Leaking(part).1;
    var mine, other := p.files[0].tree, p.files[1].tree;
    NoCalls(mine.children, 7);
    CallerCalls(other.children[0]);
    TwoFiles(p, 7);
    assert [] + [10] == [10];
  }

  lemma TwoFiles(p: Project, d: Declaration)
    requires |p.files| == 2
    ensures CallsInFiles(p, [0, 1], d) == CallsIn(p.files[0].tree, d) + CallsIn(p.files[1].tree, d)
  {
    assert [0, 1][..1] == [0] && [0][..0] == [];
    assert CallsInFiles(p, [0], d) == [] + CallsIn(p.files[0].tree, d);
  }

  lemma CallerCalls(caller: Node)
    requires caller.Call? && caller.target == Some(7) && caller.id == 10 && forall c :: c in caller.children ==> c.Identifier?
    ensures CallsIn(Other([caller]), 7) == [10]
  {
    NoIdentifierCalls(caller.children, 7);
    assert CallsIn(caller, 7) == [10] + [];
    CallsInOne(caller, 7);
  }

  lemma {:induction false} NoCalls(nodes: seq<Node>, d: Declaration)
    requires forall n :: n in nodes ==> n.Identifier? || (n.ExportClause? && forall c :: c in n.children ==> c.Identifier?)
    ensures CallsInEach(nodes, d) == []
  {
    if nodes != [] {
      var last := nodes[|nodes| - 1];
      NoCalls(nodes[..|nodes| - 1], d);
      if last.ExportClause? {
        NoIdentifierCalls(last.children, d);
      }
    }
  }

  lemma {:induction false} NoIdentifierCalls(nodes: seq<Node>, d: Declaration)
    requires forall n :: n in nodes ==> n.Identifier?
    ensures CallsInEach(nodes, d) == []
  {
    if nodes != [] {
      NoIdentifierCalls(nodes[..|nodes| - 1], d);
      assert nodes[|nodes| - 1] in nodes;
    }
  }

  class EventRelationCollector {
    const project: Project
    var fileCallSites: map<nat, Index>
    var localCalleeProofs: map<Owner, bool>
    var globalCallSites: Option<Index>

    ghost predicate Valid()
      reads this
    {
      && project.Valid()
      && (forall f :: f in fileCallSites ==> f < |project.files| && Indexes(project, [f], fileCallSites[f]))
      && (forall o :: o in localCalleeProofs ==> o.file < |project.files| && localCalleeProofs[o] == Local(project, o))
      && (globalCallSites.Some? ==> Indexes(project, project.packageFiles, globalCallSites.value))
    }

    constructor (project: Project)
      requires project.Valid()
      ensures Valid() && this.project == project && globalCallSites == None
    {
      this.project := project;
      fileCallSites, localCalleeProofs, globalCallSites := map[], map[], None;
    }

    method ProvenLocalCallee(o: Owner) returns (proven: bool)
      requires Valid() && o.file < |project.files|
      modifies this`localCalleeProofs
      ensures Valid() && proven == Local(project, o)
    {
      if o in localCalleeProofs {
        return localCalleeProofs[o];
      }
      if o.exported || !project.files[o.file].isModule {
        localCalleeProofs := localCalleeProofs[o := false];
        return false;
      }
      proven := Resolved(o);
      if proven {
        proven := ScanForEscape(o.name.value, project.files[o.file].tree, Plain);
      }
      localCalleeProofs := localCalleeProofs[o := proven];
    }

    /** The global index once it exists or the helper is not local, and otherwise its own file's. */
    method CallSitesFor(o: Owner) returns (calls: seq<nat>)
      requires Valid() && o.file < |project.files|
      modifies this
      ensures Valid()
      ensures globalCallSites.Some? <==> old(globalCallSites).Some? || !Local(project, o)
      ensures calls == if globalCallSites.Some? then GlobalCalls(project, o) else LocalCalls(project, o)
    {
      if globalCallSites.None? {
        var proven := ProvenLocalCallee(o);
        if !proven {
          var index := BuildCallSiteIndex(project, project.packageFiles);
          globalCallSites := Some(index);
        }
      }
      if globalCallSites.Some? {
        return Find(globalCallSites.value, o.declaration);
      }
      if o.file !in fileCallSites {
        var index := BuildCallSiteIndex(project, [o.file]);
        fileCallSites := fileCallSites[o.file := index];
      }
      OneFile(project, o);
      calls := Find(fileCallSites[o.file], o.declaration);
    }
  }

  lemma OwnFileIsEnough(p: Project, o: Owner)
    requires p.Valid() && o.file in p.packageFiles && o.file < |p.files| && WellScoped(p, o) && Local(p, o)
    ensures LocalCalls(p, o) == GlobalCalls(p, o)
  {
    IndexesAgreeIff(p, o);
  }

  method Ask(collector: EventRelationCollector, o: Owner) returns (calls: seq<nat>)
    requires collector.Valid() && o.file < |collector.project.files|
    requires o.file in collector.project.packageFiles && WellScoped(collector.project, o)
    modifies collector
    ensures collector.Valid() && calls == GlobalCalls(collector.project, o)
  {
    calls := collector.CallSitesFor(o);
    if collector.globalCallSites.None? {
      OwnFileIsEnough(collector.project, o);
    }
  }

  /** Any order of requests gives every helper of a package source the calls of the whole program. */
  method AskInOrder(collector: EventRelationCollector, requests: seq<Owner>) returns (answers: seq<seq<nat>>)
    requires collector.Valid()
    requires forall o :: o in requests ==> o.file in collector.project.packageFiles && WellScoped(collector.project, o)
    modifies collector
    ensures collector.Valid() && |answers| == |requests|
    ensures forall i :: 0 <= i < |requests| ==> answers[i] == GlobalCalls(collector.project, requests[i])
  {
    answers := [];
    for i := 0 to |requests|
      invariant collector.Valid() && |answers| == i
      invariant forall k :: 0 <= k < i ==> answers[k] == GlobalCalls(collector.project, requests[k])
    {
      assert requests[i] in requests;
      var calls := Ask(collector, requests[i]);
      answers := answers + [calls];
    }
  }
}
