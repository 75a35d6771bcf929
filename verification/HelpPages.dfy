/**
 Collecting help pages by invoking the command line: one page per distinct output, with every invocation that led to
 it. Pages can list themselves or each other as subcommands, so the page graph may have cycles.
 */
module HelpPages {

  type Output = string
  /** Invocation arguments after the program name. */
  type Args = seq<string>

  datatype Help = Help(output: Output, commands: seq<string>)

  datatype Child = Child(name: string, page: Output)

  /** A page is identified by its output; children keep the order in which their names were first set. */
  datatype Page = Page(commands: seq<string>, invocations: seq<Args>, children: seq<Child>)

  type Pages = map<Output, Page>

  ghost predicate NoDuplicates(s: seq<Args>) {
    forall i, k :: 0 <= i < k < |s| ==> s[i] != s[k]
  }

  /** Every page has an invocation, lists none twice, and its children are pages. */
  ghost predicate WellFormed(pages: Pages) {
    forall k :: k in pages ==>
      && pages[k].invocations != [] && NoDuplicates(pages[k].invocations)
      && forall c :: c in pages[k].children ==> c.page in pages
  }

  /** Later pages keep what earlier ones recorded: invocations are only appended. */
  ghost predicate Grows(before: Pages, after: Pages) {
    forall k :: k in before ==>
      && k in after
      && after[k].commands == before[k].commands
      && after[k].children == before[k].children
      && before[k].invocations <= after[k].invocations
  }

  /** Equal help implies equal help below every name. */
  ghost predicate SameBelow(read: Args -> Help) {
    forall a: Args, b: Args, name: string :: read(a).output == read(b).output ==>
      read(a + [name]).output == read(b + [name]).output
  }

  /** The same, with the help below a page and a name given by a function. */
  ghost predicate Below(read: Args -> Help, below: (Output, string) -> Output) {
    forall a: Args, name: string :: read(a + [name]).output == below(read(a).output, name)
  }

  lemma BelowExists(read: Args -> Help) returns (below: (Output, string) -> Output)
    requires SameBelow(read)
    ensures Below(read, below)
  {
    below := (o: Output, name: string) =>
      if exists a :: read(a).output == o then (var a :| read(a).output == o; read(a + [name]).output) else "";
  }

  lemma BelowAt(read: Args -> Help, below: (Output, string) -> Output, a: Args, name: string)
    requires Below(read, below)
    ensures read(a + [name]).output == below(read(a).output, name)
  {
  }

  /** Every listed invocation yields its page's help, and every child is the page below its name. */
  ghost predicate Truthful(read: Args -> Help, below: (Output, string) -> Output, pages: Pages) {
    forall k :: k in pages ==>
      && (forall inv :: inv in pages[k].invocations ==> read(inv).output == k)
      && (forall c :: c in pages[k].children ==> c.page == below(k, c.name))
  }

  /** The invocation is listed on the page of its output. */
  ghost predicate Listed(read: Args -> Help, pages: Pages, inv: Args) {
    read(inv).output in pages && inv in pages[read(inv).output].invocations
  }

  /** The child that one command of an invocation leads to. */
  function ChildFor(read: Args -> Help, args: Args, name: string): Child {
    Child(name, read(args + [name]).output)
  }

  /**
   The page holds the help of its first invocation. Every subcommand of that is listed, and its page is the child of
   that name.
   */
  ghost predicate Explored(read: Args -> Help, pages: Pages, k: Output)
    requires k in pages
  {
    && pages[k].invocations != []
    && read(pages[k].invocations[0]) == Help(k, pages[k].commands)
    && forall name :: name in pages[k].commands ==>
      && Listed(read, pages, pages[k].invocations[0] + [name])
      && ChildFor(read, pages[k].invocations[0], name) in pages[k].children
  }

  lemma ListedStays(read: Args -> Help, before: Pages, after: Pages, inv: Args)
    requires Grows(before, after) && Listed(read, before, inv)
    ensures Listed(read, after, inv)
  {
    var k := read(inv).output;
    var i :| 0 <= i < |before[k].invocations| && before[k].invocations[i] == inv;
    assert after[k].invocations[i] == inv;
  }

  lemma ExploredStays(read: Args -> Help, before: Pages, after: Pages, k: Output)
    requires Grows(before, after) && k in before && Explored(read, before, k)
    ensures Explored(read, after, k)
  {
    forall name | name in after[k].commands ensures Listed(read, after, after[k].invocations[0] + [name]) {
      ListedStays(read, before, after, before[k].invocations[0] + [name]);
    }
  }

  lemma StillThere(before: Pages, after: Pages, key: Output, inv: Args)
    requires Grows(before, after) && key in before && inv in before[key].invocations
    ensures inv in after[key].invocations
  {
    var i :| 0 <= i < |before[key].invocations| && before[key].invocations[i] == inv;
    assert after[key].invocations[i] == inv;
  }

  lemma GrowsOn(a: Pages, b: Pages, c: Pages)
    requires Grows(a, b) && Grows(b, c)
    ensures Grows(a, c)
  {
  }

  /** Set one name of an insertion-ordered map. */
  function SetChild(children: seq<Child>, name: string, page: Output): (r: seq<Child>)
    ensures Child(name, page) in r && forall c :: c in children && c.name != name ==> c in r
    ensures forall c :: c in r ==> c in children || c == Child(name, page)
  {
    if children == [] then [Child(name, page)]
    else if children[0].name == name then [Child(name, page)] + children[1..]
    else [children[0]] + SetChild(children[1..], name, page)
  }

  function WithInvocation(pages: Pages, key: Output, inv: Args): Pages
    requires key in pages
  {
    pages[key := pages[key].(invocations := pages[key].invocations + [inv])]
  }

  lemma AppendInvocation(pages: Pages, key: Output, inv: Args)
    requires WellFormed(pages) && key in pages && inv !in pages[key].invocations
    ensures WellFormed(WithInvocation(pages, key, inv)) && Grows(pages, WithInvocation(pages, key, inv))
  {
    var after := WithInvocation(pages, key, inv);
    forall k | k in after
      ensures after[k].invocations != [] && NoDuplicates(after[k].invocations)
      ensures forall c :: c in after[k].children ==> c.page in after
    {
      assert after[k].children == pages[k].children;
    }
  }

  lemma AppendTruthful(read: Args -> Help, below: (Output, string) -> Output, pages: Pages, key: Output, inv: Args)
    requires Truthful(read, below, pages) && key in pages && read(inv).output == key
    ensures Truthful(read, below, WithInvocation(pages, key, inv))
  {
  }

  ghost predicate Building(outputs: set<Output>, start: Pages, pages: Pages, key: Output, args: Args, commands: seq<string>) {
    && WellFormed(pages) && pages.Keys <= outputs && Grows(start, pages)
    && key in pages && key !in start
    && pages[key].commands == commands && [args] <= pages[key].invocations
  }

  /** The first n commands are listed, and every other new page is explored. */
  ghost predicate Covered(read: Args -> Help, start: Pages, pages: Pages, key: Output, args: Args, commands: seq<string>, n: nat) {
    && n <= |commands|
    && (forall k :: k in pages && k !in start && k != key ==> Explored(read, pages, k))
    && (forall j :: 0 <= j < n ==> Listed(read, pages, args + [commands[j]]))
    && (forall j :: 0 <= j < n ==> key in pages && ChildFor(read, args, commands[j]) in pages[key].children)
  }

  /** The page `key` is under construction, with its first n commands visited. */
  ghost predicate UnderConstruction(read: Args -> Help, outputs: set<Output>, below: (Output, string) -> Output,
                                    start: Pages, pages: Pages, key: Output, args: Args, commands: seq<string>, n: nat)
  {
    && Help(key, commands) == read(args)
    && Building(outputs, start, pages, key, args, commands)
    && Covered(read, start, pages, key, args, commands, n)
    && (Below(read, below) && Truthful(read, below, start) ==> Truthful(read, below, pages))
  }

  lemma ConstructionStarts(read: Args -> Help, outputs: set<Output>, below: (Output, string) -> Output, start: Pages, args: Args)
    requires WellFormed(start) && start.Keys <= outputs && read(args).output in outputs && read(args).output !in start
    ensures var help := read(args);
      UnderConstruction(read, outputs, below, start, start[help.output := Page(help.commands, [args], [])],
                        help.output, args, help.commands, 0)
  {
  }

  lemma CommandCovered(read: Args -> Help, start: Pages, before: Pages, visited: Pages, after: Pages, key: Output, args: Args,
                       commands: seq<string>, i: nat)
    requires Covered(read, start, before, key, args, commands, i) && i < |commands| && Grows(before, visited)
    requires Listed(read, visited, args + [commands[i]])
    requires forall k :: k in visited && k !in before ==> Explored(read, visited, k)
    requires after.Keys == visited.Keys
    requires forall inv :: Listed(read, visited, inv) ==> Listed(read, after, inv)
    requires forall k :: k in visited && k != key && Explored(read, visited, k) ==> Explored(read, after, k)
    requires key in before && after[key].children == SetChild(visited[key].children, commands[i], read(args + [commands[i]]).output)
    ensures Covered(read, start, after, key, args, commands, i + 1)
  {
    ExploredAll(read, start, before, visited, key);
    forall j | 0 <= j < i + 1 ensures Listed(read, after, args + [commands[j]]) {
      if j < i {
        ListedStays(read, before, visited, args + [commands[j]]);
      }
      assert Listed(read, visited, args + [commands[j]]);
    }
    forall j | 0 <= j < i + 1 ensures ChildFor(read, args, commands[j]) in after[key].children {
      if j < i {
        assert ChildFor(read, args, commands[j]) in visited[key].children;
      }
    }
  }

  /** Visiting the next command and setting it as a child advances the construction. */
  lemma CommandVisited(read: Args -> Help, outputs: set<Output>, below: (Output, string) -> Output, start: Pages,
                       before: Pages, visited: Pages, key: Output, args: Args, commands: seq<string>, i: nat)
    requires UnderConstruction(read, outputs, below, start, before, key, args, commands, i) && i < |commands|
    requires WellFormed(visited) && Grows(before, visited) && visited.Keys <= outputs
    requires Listed(read, visited, args + [commands[i]])
    requires forall k :: k in visited && k !in before ==> Explored(read, visited, k)
    requires Below(read, below) && Truthful(read, below, before) ==> Truthful(read, below, visited)
    ensures var page := read(args + [commands[i]]).output;
      var after := visited[key := visited[key].(children := SetChild(visited[key].children, commands[i], page))];
      UnderConstruction(read, outputs, below, start, after, key, args, commands, i + 1)
  {
    var name, page := commands[i], read(args + [commands[i]]).output;
    var after := visited[key := visited[key].(children := SetChild(visited[key].children, name, page))];
    GrowsOn(start, before, visited);
    ChildSet(read, start, visited, after, key, name, page);
    assert Building(outputs, start, after, key, args, commands);
    CommandCovered(read, start, before, visited, after, key, args, commands, i);
    CommandTruthful(read, below, visited, key, args, name);
  }

  lemma CommandTruthful(read: Args -> Help, below: (Output, string) -> Output, visited: Pages, key: Output, args: Args, name: string)
    requires key in visited && key == read(args).output
    ensures var after := visited[key := visited[key].(children := SetChild(visited[key].children, name, read(args + [name]).output))];
      Below(read, below) && Truthful(read, below, visited) ==> Truthful(read, below, after)
  {
    if Below(read, below) && Truthful(read, below, visited) {
      BelowAt(read, below, args, name);
      ChildTruthful(read, below, visited, key, name, read(args + [name]).output);
    }
  }

  lemma ConstructionDone(read: Args -> Help, outputs: set<Output>, below: (Output, string) -> Output, start: Pages,
                         pages: Pages, key: Output, args: Args, commands: seq<string>)
    requires UnderConstruction(read, outputs, below, start, pages, key, args, commands, |commands|)
    ensures Explored(read, pages, key) && Listed(read, pages, args)
  {
    assert pages[key].invocations[0] == args;
    forall name | name in commands
      ensures Listed(read, pages, args + [name]) && ChildFor(read, args, name) in pages[key].children
    {
      var j :| 0 <= j < |commands| && commands[j] == name;
      assert Listed(read, pages, args + [commands[j]]);
    }
  }

  /** The invocation continues to the first n children: each lists it extended by the child's name. */
  ghost predicate AliasedBelow(pages: Pages, children: seq<Child>, invocation: Args, n: nat) {
    forall i :: 0 <= i < n <= |children| ==>
      children[i].page in pages && invocation + [children[i].name] in pages[children[i].page].invocations
  }

  lemma AliasedStays(before: Pages, after: Pages, children: seq<Child>, invocation: Args, n: nat)
    requires Grows(before, after) && AliasedBelow(before, children, invocation, n)
    ensures AliasedBelow(after, children, invocation, n)
  {
    forall i | 0 <= i < n <= |children|
      ensures children[i].page in after && invocation + [children[i].name] in after[children[i].page].invocations
    {
      StillThere(before, after, children[i].page, invocation + [children[i].name]);
    }
  }

  /** The first n children of a page have been given the invocation. */
  ghost predicate Propagated(start: Pages, pages: Pages, children: seq<Child>, invocation: Args, n: nat) {
    WellFormed(pages) && Grows(start, pages) && pages.Keys == start.Keys && AliasedBelow(pages, children, invocation, n)
  }

  lemma PropagatedFurther(start: Pages, before: Pages, after: Pages, children: seq<Child>, invocation: Args, i: nat)
    requires i < |children| && Propagated(start, before, children, invocation, i)
    requires WellFormed(after) && Grows(before, after) && after.Keys == before.Keys && children[i].page in after
    requires invocation + [children[i].name] in after[children[i].page].invocations
    ensures Propagated(start, after, children, invocation, i + 1)
  {
    GrowsOn(start, before, after);
    AliasedStays(before, after, children, invocation, i);
  }

  class HelpCollector {
    const read: Args -> Help
    /** The distinct outputs the command line can print. */
    ghost const outputs: set<Output>
    /** What lies below a page, for when equal help implies equal help below. */
    ghost const below: (Output, string) -> Output
    var pages: Pages
    /** The pages whose commands are being visited. */
    ghost var exploring: set<Output>

    constructor (read: Args -> Help, ghost outputs: set<Output>, ghost below: (Output, string) -> Output)
      ensures this.read == read && this.outputs == outputs && this.below == below && pages == map[] && exploring == {}
    {
      this.read, this.outputs, this.below, pages, exploring := read, outputs, below, map[], {};
    }

    /**
     Record one more invocation of a page, and below it of the page's children. An invocation that reaches a page on
     the current path joins it without going further down, so propagation ends on cyclic pages.
     */
    method AddAlias(key: Output, invocation: Args, path: set<Output>)
      requires WellFormed(pages) && key in pages
      modifies this`pages
      ensures WellFormed(pages) && Grows(old(pages), pages) && pages.Keys == old(pages.Keys)
      ensures invocation in pages[key].invocations
      ensures invocation in old(pages)[key].invocations ==> pages == old(pages)
      ensures invocation !in old(pages)[key].invocations && key in path ==> pages == WithInvocation(old(pages), key, invocation)
      ensures invocation !in old(pages)[key].invocations && key !in path ==>
        AliasedBelow(pages, old(pages)[key].children, invocation, |old(pages)[key].children|)
      ensures Below(read, below) && Truthful(read, below, old(pages)) && read(invocation).output == key ==>
        Truthful(read, below, pages)
      decreases pages.Keys - path, 1
    {
      if invocation in pages[key].invocations {
        return;
      }
      AppendInvocation(pages, key, invocation);
      pages := WithInvocation(pages, key, invocation);
      ghost var entered := pages;
      if read(invocation).output == key && Truthful(read, below, old(pages)) {
        AppendTruthful(read, below, old(pages), key, invocation);
      }
      assert invocation in entered[key].invocations;
      if key !in path {
        AddBelow(key, pages[key].children, invocation, path + {key});
        GrowsOn(old(pages), entered, pages);
        StillThere(entered, pages, key, invocation);
      }
    }

    /** Propagate an invocation to every child of a page. */
    method AddBelow(key: Output, children: seq<Child>, invocation: Args, path: set<Output>)
      requires WellFormed(pages) && key in pages && children == pages[key].children
      modifies this`pages
      ensures WellFormed(pages) && Grows(old(pages), pages) && pages.Keys == old(pages.Keys)
      ensures AliasedBelow(pages, children, invocation, |children|)
      ensures Below(read, below) && Truthful(read, below, old(pages)) && read(invocation).output == key ==>
        Truthful(read, below, pages)
      decreases pages.Keys - path, 2
    {
      ghost var start := pages;
      ghost var truthful := Below(read, below) && Truthful(read, below, start) && read(invocation).output == key;
      for i := 0 to |children|
        invariant Propagated(start, pages, children, invocation, i)
        invariant truthful ==> Truthful(read, below, pages)
      {
        ghost var before := pages;
        var child := children[i];
        assert child in start[key].children;
        if Below(read, below) {
          BelowAt(read, below, invocation, child.name);
        }
        AddAlias(child.page, invocation + [child.name], path);
        PropagatedFurther(start, before, pages, children, invocation, i);
      }
    }

    /** Read one invocation's help; join its page, or make a new one and visit its commands. */
    method Visit(args: Args, path: set<Output>) returns (key: Output)
      requires WellFormed(pages) && pages.Keys <= outputs && path == exploring
      requires forall a: Args :: read(a).output in outputs
      modifies this`pages, this`exploring
      ensures WellFormed(pages) && Grows(old(pages), pages) && pages.Keys <= outputs && exploring == old(exploring)
      ensures key == read(args).output && Listed(read, pages, args)
      ensures key in old(pages) && key !in exploring && args !in old(pages)[key].invocations ==>
        AliasedBelow(pages, old(pages)[key].children, args, |old(pages)[key].children|)
      ensures key in old(pages) && key in exploring && args !in old(pages)[key].invocations ==>
        pages == WithInvocation(old(pages), key, args)
      ensures forall k :: k in pages && k !in old(pages) ==> Explored(read, pages, k)
      ensures Below(read, below) && Truthful(read, below, old(pages)) ==> Truthful(read, below, pages)
      decreases outputs - pages.Keys, 1
    {
      var help := read(args);
      key := help.output;
      if key in pages {
        AddAlias(key, args, path);
        return;
      }
      ghost var start := pages;
      pages := pages[key := Page(help.commands, [args], [])];
      ConstructionStarts(read, outputs, below, start, args);
      ghost var before := exploring;
      exploring := exploring + {key};
      VisitCommands(key, args, help.commands, path + {key}, start);
      exploring := before;
      ConstructionDone(read, outputs, below, start, pages, key, args, help.commands);
    }

    /** Visit the commands of a page under construction, setting each as its child. */
    method VisitCommands(key: Output, args: Args, commands: seq<string>, path: set<Output>, ghost start: Pages)
      requires UnderConstruction(read, outputs, below, start, pages, key, args, commands, 0)
      requires path == exploring && key in path && forall a: Args :: read(a).output in outputs
      modifies this`pages, this`exploring
      ensures exploring == old(exploring)
      ensures UnderConstruction(read, outputs, below, start, pages, key, args, commands, |commands|)
      decreases outputs - pages.Keys, 3
    {
      for i := 0 to |commands|
        invariant UnderConstruction(read, outputs, below, start, pages, key, args, commands, i) && old(pages.Keys) <= pages.Keys
        invariant exploring == path
      {
        VisitCommand(key, args, commands, i, path, start);
      }
    }

    method VisitCommand(key: Output, args: Args, commands: seq<string>, i: nat, path: set<Output>, ghost start: Pages)
      requires UnderConstruction(read, outputs, below, start, pages, key, args, commands, i) && i < |commands|
      requires path == exploring && key in path && forall a: Args :: read(a).output in outputs
      modifies this`pages, this`exploring
      ensures exploring == old(exploring)
      ensures UnderConstruction(read, outputs, below, start, pages, key, args, commands, i + 1) && old(pages.Keys) <= pages.Keys
      decreases outputs - pages.Keys, 2
    {
      var name := commands[i];
      ghost var before := pages;
      var page := Visit(args + [name], path);
      ghost var visited := pages;
      pages := pages[key := pages[key].(children := SetChild(pages[key].children, name, page))];
      CommandVisited(read, outputs, below, start, before, visited, key, args, commands, i);
    }

    /** Visit every top-level invocation. */
    method Collect(top: seq<Args>)
      requires pages == map[] && exploring == {} && forall a: Args :: read(a).output in outputs
      modifies this`pages, this`exploring
      ensures WellFormed(pages)
      ensures forall a :: a in top ==> Listed(read, pages, a)
      ensures forall k :: k in pages ==> Explored(read, pages, k)
      ensures Below(read, below) ==> Truthful(read, below, pages)
    {
      for i := 0 to |top|
        invariant WellFormed(pages) && pages.Keys <= outputs && exploring == {}
        invariant forall j :: 0 <= j < i ==> Listed(read, pages, top[j])
        invariant forall k :: k in pages ==> Explored(read, pages, k)
        invariant Below(read, below) ==> Truthful(read, below, pages)
      {
        ghost var before := pages;
        var _ := Visit(top[i], {});
        forall k | k in pages ensures Explored(read, pages, k) {
          if k in before {
            ExploredStays(read, before, pages, k);
          }
        }
        forall j | 0 <= j < i ensures Listed(read, pages, top[j]) {
          ListedStays(read, before, pages, top[j]);
        }
      }
    }
  }

  /** Pages that were explored stay explored, and the newly visited ones are. */
  lemma ExploredAll(read: Args -> Help, start: Pages, before: Pages, visited: Pages, key: Output)
    requires Grows(before, visited)
    requires forall k :: k in before && k !in start && k != key ==> Explored(read, before, k)
    requires forall k :: k in visited && k !in before ==> Explored(read, visited, k)
    ensures forall k :: k in visited && k !in start && k != key ==> Explored(read, visited, k)
  {
    forall k | k in visited && k !in start && k != key ensures Explored(read, visited, k) {
      if k in before {
        ExploredStays(read, before, visited, k);
      }
    }
  }

  /** Setting a child of the page under construction changes nothing else. */
  lemma ChildSet(read: Args -> Help, start: Pages, visited: Pages, after: Pages, key: Output, name: string, page: Output)
    requires WellFormed(visited) && Grows(start, visited) && key in visited && key !in start && page in visited
    requires after == visited[key := visited[key].(children := SetChild(visited[key].children, name, page))]
    ensures WellFormed(after) && Grows(start, after) && after.Keys == visited.Keys
    ensures forall inv :: Listed(read, visited, inv) ==> Listed(read, after, inv)
    ensures forall k :: k in visited && k != key && Explored(read, visited, k) ==> Explored(read, after, k)
  {
    forall k | k in after
      ensures after[k].invocations == visited[k].invocations && after[k].commands == visited[k].commands
    {
    }
    forall k | k in visited && k != key && Explored(read, visited, k) ensures Explored(read, after, k) {
      forall n | n in after[k].commands ensures Listed(read, after, after[k].invocations[0] + [n]) {
        assert Listed(read, visited, visited[k].invocations[0] + [n]);
      }
    }
  }

  lemma ChildTruthful(read: Args -> Help, below: (Output, string) -> Output, visited: Pages, key: Output, name: string, page: Output)
    requires Truthful(read, below, visited) && key in visited && page == below(key, name)
    ensures Truthful(read, below, visited[key := visited[key].(children := SetChild(visited[key].children, name, page))])
  {
  }

  /**
   Collect the help of every top-level invocation. For a command line that prints finitely many distinct outputs the
   collection ends, cycles included. Every top-level invocation, and every command of every page's first invocation,
   is listed on the page of its output; no page lists an invocation twice; and when equal help implies equal help
   below, every listed invocation really yields the help of its page.
   */
  method CollectCliHelp(read: Args -> Help, top: seq<Args>, ghost outputs: set<Output>) returns (pages: Pages)
    requires forall a: Args :: read(a).output in outputs
    ensures WellFormed(pages)
    ensures forall a :: a in top ==> Listed(read, pages, a)
    ensures forall k :: k in pages ==> Explored(read, pages, k)
    ensures SameBelow(read) ==> forall k, inv :: k in pages && inv in pages[k].invocations ==> read(inv).output == k
  {
    ghost var below: (Output, string) -> Output := (_, _) => "";
    if SameBelow(read) {
      below := BelowExists(read);
    }
    var collector := new HelpCollector(read, outputs, below);
    collector.Collect(top);
    pages := collector.pages;
  }
}
