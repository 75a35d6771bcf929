/**
 Syntax trees with what the checker resolves, and the places in them: a place is the child positions on the way down. All
 places are listed once each and in source order, a node before what is below it.
 */
module SyntaxTree {
  import opened Outcomes

  type Declaration = nat
  type Symbol = nat

  /**
   A node with the declaration a call reaches, and the symbol an identifier means. The callee of a call is its first child.
   `hops` counts the imports an identifier is resolved through; 0 is lookup in scope.
   */
  datatype Node =
    | Call(id: nat, target: Option<Declaration>, children: seq<Node>)
    | Identifier(id: nat, text: string, symbol: Option<Symbol>, hops: nat)
    | Wrapper(inner: Node)               // parentheses, a cast, `!`, `satisfies`: the value of the inner expression
    | ExportClause(children: seq<Node>)  // `export { ... }`, `export default name`
    | Other(children: seq<Node>)

  function Children(node: Node): (nodes: seq<Node>)
    ensures forall c :: c in nodes ==> c < node
  {
    match node
    case Call(_, _, children) => children
    case Identifier(_, _, _, _) => []
    case Wrapper(inner) => [inner]
    case ExportClause(children) => children
    case Other(children) => children
  }

  type Place = seq<nat>

  function NodeAt(node: Node, place: Place): Option<Node>
    decreases |place|
  {
    if place == [] then Some(node)
    else if place[0] < |Children(node)| then NodeAt(Children(node)[place[0]], place[1..])
    else None
  }

  /** Somewhere under the node, or the node itself. */
  ghost predicate Within(node: Node, n: Node) {
    exists place :: NodeAt(node, place) == Some(n)
  }

  // ---------- All places ----------

  function Below(i: nat, places: seq<Place>): (r: seq<Place>)
    ensures |r| == |places| && forall k :: 0 <= k < |r| ==> r[k] == [i] + places[k]
  {
    seq(|places|, k requires 0 <= k < |places| => [i] + places[k])
  }

  function Places(node: Node): seq<Place>
    decreases node, |Children(node)| + 1
  {
    [[]] + PlacesBelow(node, |Children(node)|)
  }

  /** The places in the first n children. */
  function PlacesBelow(node: Node, n: nat): seq<Place>
    requires n <= |Children(node)|
    decreases node, n
  {
    if n == 0 then []
    else
      assert Children(node)[n - 1] in Children(node);
      PlacesBelow(node, n - 1) + Below(n - 1, Places(Children(node)[n - 1]))
  }

  /** Every place that has a node is listed, and no other. */
  lemma {:induction false} ListsEveryPlace(node: Node, place: Place)
    ensures place in Places(node) <==> NodeAt(node, place).Some?
    decreases node, |Children(node)| + 1
  {
    assert Places(node) == [[]] + PlacesBelow(node, |Children(node)|);
    ListsPlacesBelow(node, |Children(node)|, place);
  }

  lemma {:induction false} ListsPlacesBelow(node: Node, n: nat, place: Place)
    requires n <= |Children(node)|
    ensures place in PlacesBelow(node, n) <==> place != [] && place[0] < n && NodeAt(node, place).Some?
    decreases node, n
  {
    if n > 0 {
      var child := Children(node)[n - 1];
      assert child in Children(node);
      ListsPlacesBelow(node, n - 1, place);
      var inner := Places(child);
      if place != [] {
        ListsEveryPlace(child, place[1..]);
        assert place == [place[0]] + place[1..];
        InBelow(n - 1, inner, place);
      }
    }
  }

  lemma InBelow(i: nat, places: seq<Place>, place: Place)
    requires place != []
    ensures place in Below(i, places) <==> place[0] == i && place[1..] in places
  {
    if place[0] == i && place[1..] in places {
      var k :| 0 <= k < |places| && places[k] == place[1..];
      assert Below(i, places)[k] == [i] + place[1..] == place;
    }
    if place in Below(i, places) {
      var k :| 0 <= k < |places| && Below(i, places)[k] == place;
      assert ([i] + places[k])[1..] == places[k];
    }
  }

  /** Earlier in the source: an outer node, or one further left. */
  predicate Before(a: Place, b: Place)
    decreases |a|
  {
    b != [] && (a == [] || a[0] < b[0] || (a[0] == b[0] && Before(a[1..], b[1..])))
  }

  lemma {:induction false} NotBeforeItself(a: Place)
    ensures !Before(a, a)
    decreases |a|
  {
    if a != [] {
      NotBeforeItself(a[1..]);
    }
  }

  ghost predicate InSourceOrder(places: seq<Place>) {
    forall i, k :: 0 <= i < k < |places| ==> Before(places[i], places[k])
  }

  lemma BelowInOrder(i: nat, places: seq<Place>)
    requires InSourceOrder(places)
    ensures InSourceOrder(Below(i, places))
  {
    forall j, k | 0 <= j < k < |places| ensures Before([i] + places[j], [i] + places[k]) {
      assert ([i] + places[j])[1..] == places[j] && ([i] + places[k])[1..] == places[k];
    }
  }

  /** The places are listed in source order, so none is listed twice. */
  lemma {:induction false} ListedInOrder(node: Node)
    ensures InSourceOrder(Places(node))
    decreases node, |Children(node)| + 1
  {
    var all := |Children(node)|;
    assert Places(node) == [[]] + PlacesBelow(node, all);
    PlacesBelowInOrder(node, all);
    forall k | 0 <= k < |PlacesBelow(node, all)| ensures Before([], PlacesBelow(node, all)[k]) {
      ListsPlacesBelow(node, all, PlacesBelow(node, all)[k]);
    }
  }

  lemma {:induction false} PlacesBelowInOrder(node: Node, n: nat)
    requires n <= |Children(node)|
    ensures InSourceOrder(PlacesBelow(node, n))
    decreases node, n
  {
    if n > 0 {
      var child := Children(node)[n - 1];
      assert child in Children(node);
      PlacesBelowInOrder(node, n - 1);
      ListedInOrder(child);
      BelowInOrder(n - 1, Places(child));
      var front, last := PlacesBelow(node, n - 1), Below(n - 1, Places(child));
      forall i, k | 0 <= i < |front| && 0 <= k < |last| ensures Before(front[i], last[k]) {
        ListsPlacesBelow(node, n - 1, front[i]);
      }
    }
  }

  // ---------- Calls ----------

  predicate Reaches(n: Node, d: Declaration) {
    n.Call? && n.target == Some(d)
  }

  /** The call at a place, if it is one that reaches the declaration. */
  function CallAt(node: Node, place: Place, d: Declaration): Option<nat> {
    var n := NodeAt(node, place);
    if n.Some? && Reaches(n.value, d) then Some(n.value.id) else None
  }

  /** The calls at some places that reach a declaration. */
  function CallsAt(node: Node, places: seq<Place>, d: Declaration): seq<nat> {
    if places == [] then []
    else
      var front, last := places[..|places| - 1], places[|places| - 1];
      CallsAt(node, front, d) + if CallAt(node, last, d).Some? then [CallAt(node, last, d).value] else []
  }

  function OwnCall(node: Node, d: Declaration): seq<nat> {
    if Reaches(node, d) then [node.id] else []
  }

  /** The calls in a tree that reach a declaration, outer before inner, in source order. */
  function CallsIn(node: Node, d: Declaration): seq<nat>
    decreases node
  {
    match node
    case Call(_, _, children) => OwnCall(node, d) + CallsInEach(children, d)
    case Identifier(_, _, _, _) => []
    case Wrapper(inner) => CallsIn(inner, d)
    case ExportClause(children) => CallsInEach(children, d)
    case Other(children) => CallsInEach(children, d)
  }

  function CallsInEach(nodes: seq<Node>, d: Declaration): seq<nat> {
    if nodes == [] then [] else CallsInEach(nodes[..|nodes| - 1], d) + CallsIn(nodes[|nodes| - 1], d)
  }

  lemma {:induction false} CallsAtConcat(node: Node, a: seq<Place>, b: seq<Place>, d: Declaration)
    ensures CallsAt(node, a + b, d) == CallsAt(node, a, d) + CallsAt(node, b, d)
  {
    if b == [] {
      assert a + b == a;
    } else {
      var front := b[..|b| - 1];
      assert (a + b)[..|a + b| - 1] == a + front;
      CallsAtConcat(node, a, front, d);
    }
  }

  lemma {:induction false} CallsAtBelow(node: Node, i: nat, places: seq<Place>, d: Declaration)
    requires i < |Children(node)|
    ensures CallsAt(node, Below(i, places), d) == CallsAt(Children(node)[i], places, d)
  {
    if places != [] {
      var front, last := places[..|places| - 1], places[|places| - 1];
      assert Below(i, places)[..|places| - 1] == Below(i, front);
      CallsAtBelow(node, i, front, d);
      assert ([i] + last)[1..] == last;
    }
  }

  lemma CallsInChildren(node: Node, d: Declaration)
    ensures CallsIn(node, d) == OwnCall(node, d) + CallsInEach(Children(node), d)
  {
    if node.Wrapper? {
      CallsInOne(node.inner, d);
    }
    if !node.Call? {
      NothingFirst(CallsInEach(Children(node), d));
    }
  }

  lemma CallsInOne(node: Node, d: Declaration)
    ensures CallsInEach([node], d) == CallsIn(node, d)
  {
    assert [node][..0] == [];
    assert CallsInEach([], d) == [];
    NothingFirst(CallsIn(node, d));
  }

  lemma NothingFirst(s: seq<nat>)
    ensures [] + s == s
  {
  }

  lemma CallsInOneMore(nodes: seq<Node>, i: nat, d: Declaration)
    requires i < |nodes|
    ensures CallsInEach(nodes[..i + 1], d) == CallsInEach(nodes[..i], d) + CallsIn(nodes[i], d)
  {
    assert nodes[..i + 1][..i] == nodes[..i];
  }

  lemma PlacesOneMore(node: Node, n: nat)
    requires 0 < n <= |Children(node)|
    ensures PlacesBelow(node, n) == PlacesBelow(node, n - 1) + Below(n - 1, Places(Children(node)[n - 1]))
  {
  }

  lemma CallsAtChild(node: Node, front: seq<Place>, i: nat, places: seq<Place>, d: Declaration)
    requires i < |Children(node)|
    ensures CallsAt(node, front + Below(i, places), d) == CallsAt(node, front, d) + CallsAt(Children(node)[i], places, d)
  {
    CallsAtConcat(node, front, Below(i, places), d);
    CallsAtBelow(node, i, places, d);
  }

  lemma CallsAtTop(node: Node, d: Declaration)
    ensures CallsAt(node, [[]], d) == OwnCall(node, d)
  {
    var top: seq<Place> := [[]];
    assert top[..0] == [];
  }

  /** The calls are those at all places of the tree, in source order and once for each place. */
  lemma {:induction false} CallsInAtPlaces(node: Node, d: Declaration)
    ensures CallsIn(node, d) == CallsAt(node, Places(node), d)
    decreases node, |Children(node)| + 1
  {
    var all := |Children(node)|;
    CallsAtConcat(node, [[]], PlacesBelow(node, all), d);
    CallsInBelow(node, all, d);
    assert Children(node)[..all] == Children(node);
    CallsAtTop(node, d);
    CallsInChildren(node, d);
  }

  lemma {:induction false} CallsInBelow(node: Node, n: nat, d: Declaration)
    requires n <= |Children(node)|
    ensures CallsInEach(Children(node)[..n], d) == CallsAt(node, PlacesBelow(node, n), d)
    decreases node, n
  {
    if n > 0 {
      assert Children(node)[n - 1] in Children(node);
      CallsInBelow(node, n - 1, d);
      CallsInAtPlaces(Children(node)[n - 1], d);
      PlacesOneMore(node, n);
      CallsInOneMoreChild(node, n - 1, d, PlacesBelow(node, n - 1), Places(Children(node)[n - 1]));
    }
  }

  lemma CallsInOneMoreChild(node: Node, i: nat, d: Declaration, front: seq<Place>, places: seq<Place>)
    requires i < |Children(node)| && CallsInEach(Children(node)[..i], d) == CallsAt(node, front, d)
    requires CallsIn(Children(node)[i], d) == CallsAt(Children(node)[i], places, d)
    ensures CallsInEach(Children(node)[..i + 1], d) == CallsAt(node, front + Below(i, places), d)
  {
    CallsAtChild(node, front, i, places, d);
    CallsInOneMore(Children(node), i, d);
  }

  lemma {:induction false} CallsAtMembers(node: Node, places: seq<Place>, d: Declaration, id: nat)
    ensures id in CallsAt(node, places, d) <==> exists place :: place in places && CallAt(node, place, d) == Some(id)
  {
    if places != [] {
      var front, last := places[..|places| - 1], places[|places| - 1];
      assert places == front + [last];
      CallsAtMembers(node, front, d, id);
      if place :| place in places && CallAt(node, place, d) == Some(id) {
        assert place in front || place == last;
      }
    }
  }

  /** Listed are exactly the calls within the tree that reach the declaration. */
  lemma CallsInExactly(node: Node, d: Declaration, id: nat)
    ensures id in CallsIn(node, d) <==> exists call :: Within(node, call) && Reaches(call, d) && call.id == id
  {
    CallsInAtPlaces(node, d);
    CallsAtMembers(node, Places(node), d, id);
    if place :| place in Places(node) && CallAt(node, place, d) == Some(id) {
      assert Within(node, NodeAt(node, place).value);
    }
    if call :| Within(node, call) && Reaches(call, d) && call.id == id {
      var place :| NodeAt(node, place) == Some(call);
      ListsEveryPlace(node, place);
      assert CallAt(node, place, d) == Some(id);
    }
  }

  /** No two places hold calls with the same name. */
  ghost predicate NamesCallsApart(node: Node, d: Declaration) {
    forall a, b :: CallAt(node, a, d).Some? && CallAt(node, a, d) == CallAt(node, b, d) ==> a == b
  }

  ghost predicate Distinct<T>(s: seq<T>) {
    forall i, k :: 0 <= i < k < |s| ==> s[i] != s[k]
  }

  lemma {:induction false} CallsAtDistinct(node: Node, places: seq<Place>, d: Declaration)
    requires Distinct(places) && NamesCallsApart(node, d)
    ensures Distinct(CallsAt(node, places, d))
  {
    if places != [] {
      var front, last := places[..|places| - 1], places[|places| - 1];
      CallsAtDistinct(node, front, d);
      if CallAt(node, last, d).Some? {
        CallsAtMembers(node, front, d, CallAt(node, last, d).value);
      }
    }
  }

  /** Then every call is listed once. */
  lemma ListedOnce(node: Node, d: Declaration)
    requires NamesCallsApart(node, d)
    ensures Distinct(CallsIn(node, d))
  {
    ListedInOrder(node);
    forall i, k | 0 <= i < k < |Places(node)| ensures Places(node)[i] != Places(node)[k] {
      NotBeforeItself(Places(node)[i]);
    }
    CallsInAtPlaces(node, d);
    CallsAtDistinct(node, Places(node), d);
  }

  // ---------- Roles ----------

  /** How an identifier is used: as the callee of a call, named in an export clause, or otherwise. */
  datatype Role = Callee | Exported | Plain

  /** The role of a place below a node that has a role itself: that in its nearest parent which is no wrapper. */
  function RoleAt(node: Node, place: Place, role: Role): Role
    requires NodeAt(node, place).Some?
    decreases |place|
  {
    if place == [] then role
    else
      RoleAt(Children(node)[place[0]], place[1..],
             match node
             case Wrapper(_) => role
             case Call(_, _, _) => if place[0] == 0 then Callee else Plain
             case ExportClause(_) => Exported
             case _ => Plain)
  }
}
