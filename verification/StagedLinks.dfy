/**
 Materializing the links of a staged payload: links below `node_modules` are replaced by copies of what they point
 at, dropped, or removed with the `.bin` directory that holds them, until none remains.
 */
module StagedLinks {
  import opened Outcomes

  type Path = seq<string>

  datatype Node = File(content: string) | Link(target: string) | Directory(entries: seq<Entry>)

  /** Directory entries in the order the directory lists them. */
  datatype Entry = Entry(name: string, node: Node)

  const BIN := ".bin"

  ghost predicate WellFormed(entries: seq<Entry>) {
    && (forall i, k :: 0 <= i < k < |entries| ==> entries[i].name != entries[k].name)
    && forall e :: e in entries ==> WellFormedNode(e.node)
  }

  ghost predicate WellFormedNode(n: Node) {
    n.Directory? ==> WellFormed(n.entries)
  }

  /** Symbolic links at or below. */
  function Links(entries: seq<Entry>): nat {
    if entries == [] then 0 else LinksOf(entries[0].node) + Links(entries[1..])
  }

  function LinksOf(n: Node): nat {
    match n
    case File(_) => 0
    case Link(_) => 1
    case Directory(entries) => Links(entries)
  }

  /** The first symbolic link below a directory, if one exists; links are not followed. */
  function FindSymlink(entries: seq<Entry>): Option<Path> {
    if entries == [] then None
    else match entries[0].node
      case Link(_) => Some([entries[0].name])
      case File(_) => FindSymlink(entries[1..])
      case Directory(below) =>
        var nested := FindSymlink(below);
        if nested.Some? then Some([entries[0].name] + nested.value) else FindSymlink(entries[1..])
  }

  // ---------- Paths in a tree ----------

  /** The node at a path, without following links. */
  function At(entries: seq<Entry>, path: Path): Option<Node>
    requires path != []
  {
    if entries == [] then None
    else if entries[0].name != path[0] then At(entries[1..], path)
    else if |path| == 1 then Some(entries[0].node)
    else match entries[0].node
      case Directory(below) => At(below, path[1..])
      case _ => None
  }

  /** The tree with the node at the path removed or replaced. */
  function Update(entries: seq<Entry>, path: Path, n: Option<Node>): seq<Entry>
    requires path != []
  {
    if entries == [] then []
    else if entries[0].name != path[0] then [entries[0]] + Update(entries[1..], path, n)
    else if |path| == 1 then (if n.Some? then [Entry(path[0], n.value)] else []) + entries[1..]
    else match entries[0].node
      case Directory(below) => [Entry(path[0], Directory(Update(below, path[1..], n)))] + entries[1..]
      case _ => entries
  }

  /** A file or a link, as opposed to a directory. */
  type Leaf = n: Node | !n.Directory? witness File("")

  predicate LeafAt(entries: seq<Entry>, path: Path, leaf: Leaf)
    requires path != []
  {
    At(entries, path) == Some(leaf)
  }

  /** The leaf is at the rest of the path below the node. */
  predicate LeafIn(n: Node, rest: Path, leaf: Leaf) {
    if rest == [] then n == leaf else n.Directory? && LeafAt(n.entries, rest, leaf)
  }

  lemma {:induction false} AbsentName(entries: seq<Entry>, path: Path)
    requires path != [] && forall e :: e in entries ==> e.name != path[0]
    ensures At(entries, path) == None
  {
    if entries != [] {
      AbsentName(entries[1..], path);
    }
  }

  lemma {:induction false} FindSymlinkFindsLink(entries: seq<Entry>)
    requires WellFormed(entries)
    ensures FindSymlink(entries).None? <==> Links(entries) == 0
    ensures FindSymlink(entries).Some? ==>
      FindSymlink(entries).value != [] && At(entries, FindSymlink(entries).value).Some? &&
      At(entries, FindSymlink(entries).value).value.Link?
  {
    if entries != [] {
      var first, rest := entries[0], entries[1..];
      FindSymlinkFindsLink(rest);
      if first.node.Directory? {
        FindSymlinkFindsLink(first.node.entries);
      }
      if FindSymlink(rest).Some? {
        var p := FindSymlink(rest).value;
        if p[0] == first.name {
          AbsentName(rest, p);
        }
      }
    }
  }

  /** Whatever holds a link at some depth counts it. */
  lemma {:induction false} PrefixCountsLink(entries: seq<Entry>, path: Path, n: nat)
    requires 0 < n <= |path| && At(entries, path).Some? && At(entries, path).value.Link?
    ensures At(entries, path[..n]).Some? && LinksOf(At(entries, path[..n]).value) >= 1
  {
    if entries[0].name != path[0] {
      PrefixCountsLink(entries[1..], path, n);
    } else if |path| > 1 {
      if n == 1 {
        PrefixCountsLink(entries[0].node.entries, path[1..], 1);
        AtCounts(entries[0].node.entries, path[1..]);
      } else {
        PrefixCountsLink(entries[0].node.entries, path[1..], n - 1);
        assert path[..n][1..] == path[1..][..n - 1];
      }
    } else {
      assert path[..n] == path;
    }
  }

  lemma {:induction false} AtCounts(entries: seq<Entry>, path: Path)
    requires path != [] && At(entries, path).Some?
    ensures LinksOf(At(entries, path).value) <= Links(entries)
  {
    if entries[0].name != path[0] {
      AtCounts(entries[1..], path);
    } else if |path| > 1 {
      AtCounts(entries[0].node.entries, path[1..]);
    }
  }

  /** An update changes the link count by exactly what it takes away and puts in. */
  lemma {:induction false} UpdateCounts(entries: seq<Entry>, path: Path, n: Option<Node>)
    requires path != [] && At(entries, path).Some?
    ensures Links(Update(entries, path, n)) + LinksOf(At(entries, path).value)
         == Links(entries) + if n.Some? then LinksOf(n.value) else 0
  {
    var rest := entries[1..];
    if entries[0].name != path[0] {
      UpdateCounts(rest, path, n);
      assert ([entries[0]] + Update(rest, path, n))[1..] == Update(rest, path, n);
    } else if |path| == 1 {
      if n.Some? {
        assert ([Entry(path[0], n.value)] + rest)[1..] == rest;
      } else {
        assert [] + rest == rest;
      }
    } else {
      UpdateCounts(entries[0].node.entries, path[1..], n);
      var updated := [Entry(path[0], Directory(Update(entries[0].node.entries, path[1..], n)))] + rest;
      assert updated[1..] == rest;
    }
  }

  lemma {:induction false} UpdateNames(entries: seq<Entry>, path: Path, n: Option<Node>, e: Entry)
    requires path != [] && e in Update(entries, path, n)
    ensures exists e' :: e' in entries && e'.name == e.name
  {
    if entries[0].name != path[0] && e != entries[0] {
      UpdateNames(entries[1..], path, n, e);
    } else if entries[0].name == path[0] {
      assert e.name == entries[0].name || e in entries[1..];
    }
  }

  lemma {:induction false} UpdateWellFormed(entries: seq<Entry>, path: Path, n: Option<Node>)
    requires path != [] && WellFormed(entries) && (n.Some? ==> WellFormedNode(n.value))
    ensures WellFormed(Update(entries, path, n))
  {
    if entries != [] {
      var first, rest, updated := entries[0], entries[1..], Update(entries, path, n);
      assert WellFormed(rest);
      if first.name != path[0] {
        UpdateWellFormed(rest, path, n);
        forall e | e in Update(rest, path, n) ensures e.name != first.name {
          UpdateNames(rest, path, n, e);
        }
      } else if |path| > 1 && first.node.Directory? {
        UpdateWellFormed(first.node.entries, path[1..], n);
      }
    }
  }

  lemma PrefixBelow(path: Path, q: Path)
    requires path != [] && q != [] && path[0] == q[0]
    ensures path <= q <==> path[1..] <= q[1..]
    ensures path <= q ==> q[|path|..] == q[1..][|path| - 1..]
  {
    assert path == [path[0]] + path[1..] && q == [q[0]] + q[1..];
  }

  /** After an update, the files and links are those outside the path as before and those of the new node. */
  lemma {:induction false} LeavesAfterUpdate(entries: seq<Entry>, path: Path, n: Option<Node>, q: Path, leaf: Leaf)
    requires path != [] && q != [] && WellFormed(entries) && At(entries, path).Some?
    ensures LeafAt(Update(entries, path, n), q, leaf) <==>
      if path <= q then n.Some? && LeafIn(n.value, q[|path|..], leaf) else LeafAt(entries, q, leaf)
  {
    var first, rest, updated := entries[0], entries[1..], Update(entries, path, n);
    if first.name != path[0] {
      LeavesAfterUpdate(rest, path, n, q, leaf);
      assert updated[1..] == Update(rest, path, n);
      assert q[0] == first.name ==> !(path <= q);
    } else if |path| == 1 {
      assert path <= q <==> q[0] == path[0];
      if n.Some? {
        assert updated[1..] == rest;
      } else {
        assert updated == rest;
      }
      if q[0] == path[0] {
        AbsentName(rest, q);
      }
    } else {
      var below := first.node.entries;
      assert updated[1..] == rest;
      if q[0] == path[0] && |q| > 1 {
        LeavesAfterUpdate(below, path[1..], n, q[1..], leaf);
        PrefixBelow(path, q);
      }
    }
  }

  // ---------- Materializing ----------

  /** What resolving a link's target answers. */
  datatype Resolution = Unreachable | PayloadOrAncestor | Elsewhere

  datatype StagingError = BrokenLink(path: Path) | CopyFailed(path: Path)

  type Resolver = (seq<Entry>, Path) -> Resolution
  type Copier = (seq<Entry>, Path) -> Option<Node>

  /** A dereferencing copy holds no links, and is a tree. */
  ghost predicate Dereferencing(copy: Copier) {
    forall entries, path :: copy(entries, path).Some? ==>
      LinksOf(copy(entries, path).value) == 0 && WellFormedNode(copy(entries, path).value)
  }

  /** Position of the last `.bin` segment. */
  function LastBin(path: Path): (r: Option<nat>)
    ensures r.None? <==> BIN !in path
    ensures r.Some? ==> r.value < |path| && path[r.value] == BIN && BIN !in path[r.value + 1..]
  {
    if path == [] then None
    else if path[|path| - 1] == BIN then Some(|path| - 1)
    else
      var r := LastBin(path[..|path| - 1]);
      assert r.Some? ==> path[r.value + 1..] == path[..|path| - 1][r.value + 1..] + [path[|path| - 1]];
      r
  }

  /** The path starts at, or below, something that was a link. */
  ghost predicate BelowLink(entries: seq<Entry>, q: Path) {
    exists n :: 0 < n <= |q| && At(entries, q[..n]).Some? && At(entries, q[..n]).value.Link?
  }

  /**
   Nothing but links changes: files outside `.bin` directories stay as they are, new files appear only where a link
   was, and no link appears.
   */
  ghost predicate OnlyLinksReplaced(before: seq<Entry>, after: seq<Entry>) {
    && (forall q: Path, c | q != [] && ".bin" !in q :: LeafAt(before, q, File(c)) ==> LeafAt(after, q, File(c)))
    && (forall q: Path, c | q != [] :: LeafAt(after, q, File(c)) ==> LeafAt(before, q, File(c)) || BelowLink(before, q))
    && (forall q: Path, t | q != [] :: LeafAt(after, q, Link(t)) ==> LeafAt(before, q, Link(t)))
  }

  lemma {:induction false} NoLinksNoLeaf(entries: seq<Entry>, q: Path, t: string)
    requires q != [] && Links(entries) == 0
    ensures !LeafAt(entries, q, Link(t))
  {
    if At(entries, q).Some? {
      AtCounts(entries, q);
    }
  }

  lemma PrefixSegments(path: Path, q: Path)
    requires path <= q
    ensures forall x :: x in path ==> x in q
  {
    assert forall i :: 0 <= i < |path| ==> q[i] == path[i];
  }

  /** Removing a `.bin` directory or a link, or putting a link-free copy in place of a link. */
  lemma UpdateReplacesLinks(entries: seq<Entry>, path: Path, n: Option<Node>)
    requires WellFormed(entries) && path != [] && At(entries, path).Some?
    requires At(entries, path).value.Link? || (n.None? && BIN in path)
    requires n.Some? ==> LinksOf(n.value) == 0
    ensures OnlyLinksReplaced(entries, Update(entries, path, n))
  {
    var after := Update(entries, path, n);
    forall q: Path, c | q != [] && BIN !in q && LeafAt(entries, q, File(c)) ensures LeafAt(after, q, File(c)) {
      LeavesAfterUpdate(entries, path, n, q, File(c));
      if path <= q {
        PrefixSegments(path, q);
        BelowLeaf(entries, path, q);
      }
    }
    forall q: Path, c | q != [] && LeafAt(after, q, File(c)) ensures LeafAt(entries, q, File(c)) || BelowLink(entries, q) {
      LeavesAfterUpdate(entries, path, n, q, File(c));
      assert path <= q ==> q[..|path|] == path;
    }
    forall q: Path, t | q != [] && LeafAt(after, q, Link(t)) ensures LeafAt(entries, q, Link(t)) {
      LeavesAfterUpdate(entries, path, n, q, Link(t));
      if path <= q && n.Some? && n.value.Directory? && q[|path|..] != [] {
        NoLinksNoLeaf(n.value.entries, q[|path|..], t);
      }
    }
  }

  /** Nothing lies below a link. */
  lemma {:induction false} BelowLeaf(entries: seq<Entry>, path: Path, q: Path)
    requires path != [] && path <= q && At(entries, path).Some? && At(entries, path).value.Link?
    ensures At(entries, q).None? || q == path
  {
    if entries[0].name != path[0] {
      BelowLeaf(entries[1..], path, q);
    } else if |path| > 1 {
      BelowLeaf(entries[0].node.entries, path[1..], q[1..]);
      assert q[1..] == path[1..] ==> q == path;
    } else {
      assert |q| == 1 ==> q == path;
    }
  }

  lemma ReplacedTransitive(a: seq<Entry>, b: seq<Entry>, c: seq<Entry>)
    requires OnlyLinksReplaced(a, b) && OnlyLinksReplaced(b, c)
    ensures OnlyLinksReplaced(a, c)
  {
    forall q: Path, x | q != [] && LeafAt(c, q, File(x)) ensures LeafAt(a, q, File(x)) || BelowLink(a, q) {
      if !LeafAt(b, q, File(x)) {
        assert BelowLink(b, q);
        var n :| 0 < n <= |q| && At(b, q[..n]).Some? && At(b, q[..n]).value.Link?;
        assert LeafAt(b, q[..n], Link(At(b, q[..n]).value.target));
      }
    }
  }

  /** Links became fewer, and nothing but links and `.bin` directories changed. */
  ghost predicate Progress(before: seq<Entry>, after: seq<Entry>) {
    WellFormed(after) && OnlyLinksReplaced(before, after) && Links(after) < Links(before)
  }

  lemma CopyStep(entries: seq<Entry>, path: Path, n: Node)
    requires WellFormed(entries) && path != [] && At(entries, path).Some? && At(entries, path).value.Link?
    requires LinksOf(n) == 0 && WellFormedNode(n)
    ensures Progress(entries, Update(entries, path, Some(n)))
  {
    UpdateReplacesLinks(entries, path, Some(n));
    UpdateCounts(entries, path, Some(n));
    UpdateWellFormed(entries, path, Some(n));
  }

  lemma RemovalStep(entries: seq<Entry>, path: Path)
    requires WellFormed(entries) && path != [] && At(entries, path).Some?
    requires At(entries, path).value.Link? || (BIN in path && LinksOf(At(entries, path).value) >= 1)
    ensures Progress(entries, Update(entries, path, None))
  {
    UpdateReplacesLinks(entries, path, None);
    UpdateCounts(entries, path, None);
    UpdateWellFormed(entries, path, None);
  }

  // ---------- Round after round ----------

  /** The tree left behind, and how the work ended. */
  datatype Staged = Staged(entries: seq<Entry>, outcome: Result<(), StagingError>)

  /** One round for the link found: drop its `.bin` directory, drop a link to the payload, or put the copy in its place. */
  function Round(entries: seq<Entry>, path: Path, resolve: Resolver, copy: Copier): Staged
    requires path != []
  {
    var bin := LastBin(path);
    if bin.Some? then Staged(Update(entries, path[..bin.value + 1], None), Success(()))
    else match resolve(entries, path)
      case Unreachable => Staged(entries, Failure(BrokenLink(path)))
      case PayloadOrAncestor => Staged(Update(entries, path, None), Success(()))
      case Elsewhere =>
        var copied := copy(entries, path);
        if copied.Some? then Staged(Update(entries, path, copied), Success(()))
        else Staged(Update(entries, path, None), Failure(CopyFailed(path)))
  }

  lemma BinRound(entries: seq<Entry>, path: Path, bin: nat)
    requires WellFormed(entries) && FindSymlink(entries) == Some(path)
    requires bin < |path| && path[bin] == BIN
    ensures Progress(entries, Update(entries, path[..bin + 1], None))
  {
    FindSymlinkFindsLink(entries);
    PrefixCountsLink(entries, path, bin + 1);
    assert path[..bin + 1][bin] == BIN;
    RemovalStep(entries, path[..bin + 1]);
  }

  lemma LinkRound(entries: seq<Entry>, path: Path, copied: Option<Node>)
    requires WellFormed(entries) && FindSymlink(entries) == Some(path)
    requires copied.Some? ==> LinksOf(copied.value) == 0 && WellFormedNode(copied.value)
    ensures path != [] && Progress(entries, Update(entries, path, copied))
  {
    FindSymlinkFindsLink(entries);
    if copied.Some? {
      CopyStep(entries, path, copied.value);
    } else {
      RemovalStep(entries, path);
    }
  }

  lemma Unchanged(entries: seq<Entry>)
    ensures OnlyLinksReplaced(entries, entries)
  {
  }

  /** A round makes progress, or throws: for a broken link before it changed anything, for a failed copy after. */
  lemma RoundProgresses(entries: seq<Entry>, path: Path, resolve: Resolver, copy: Copier)
    requires WellFormed(entries) && Dereferencing(copy) && FindSymlink(entries) == Some(path)
    ensures path != []
    ensures var round := Round(entries, path, resolve, copy);
      Progress(entries, round.entries) || (round.outcome.Failure? && round.entries == entries)
  {
    FindSymlinkFindsLink(entries);
    var bin := LastBin(path);
    if bin.Some? {
      BinRound(entries, path, bin.value);
    } else if resolve(entries, path) != Unreachable {
      LinkRound(entries, path, if resolve(entries, path) == Elsewhere then copy(entries, path) else None);
    }
  }

  lemma RoundShrinks(entries: seq<Entry>, path: Path, resolve: Resolver, copy: Copier)
    requires WellFormed(entries) && Dereferencing(copy) && FindSymlink(entries) == Some(path)
    ensures path != []
    ensures var round := Round(entries, path, resolve, copy);
      WellFormed(round.entries) && (round.outcome.Success? ==> Links(round.entries) < Links(entries))
  {
    RoundProgresses(entries, path, resolve, copy);
  }

  /** Rounds until no link is found or one throws. */
  function Materialized(entries: seq<Entry>, resolve: Resolver, copy: Copier): Staged
    requires WellFormed(entries) && Dereferencing(copy)
    decreases Links(entries)
  {
    var remaining := FindSymlink(entries);
    if remaining.None? then Staged(entries, Success(()))
    else
      RoundShrinks(entries, remaining.value, resolve, copy);
      var round := Round(entries, remaining.value, resolve, copy);
      if round.outcome.Failure? then round else Materialized(round.entries, resolve, copy)
  }

  /**
   Whether the work ends or throws, only links and `.bin` directories were touched. It ends without links; it throws
   only for a link that is really broken, which it leaves in place, or a copy that failed, whose link is gone.
   */
  lemma {:induction false} MaterializedReplacesLinks(entries: seq<Entry>, resolve: Resolver, copy: Copier)
    requires WellFormed(entries) && Dereferencing(copy)
    ensures var done := Materialized(entries, resolve, copy);
      && WellFormed(done.entries) && OnlyLinksReplaced(entries, done.entries)
      && (done.outcome.Success? ==> Links(done.entries) == 0)
      && (done.outcome.Failure? && done.outcome.error.BrokenLink? ==>
            var path := done.outcome.error.path;
            BIN !in path && FindSymlink(done.entries) == Some(path) && resolve(done.entries, path) == Unreachable)
    decreases Links(entries)
  {
    FindSymlinkFindsLink(entries);
    Unchanged(entries);
    var remaining := FindSymlink(entries);
    if remaining.Some? {
      RoundProgresses(entries, remaining.value, resolve, copy);
      var round := Round(entries, remaining.value, resolve, copy);
      if round.outcome.Success? {
        MaterializedReplacesLinks(round.entries, resolve, copy);
        ReplacedTransitive(entries, round.entries, Materialized(round.entries, resolve, copy).entries);
      }
    }
  }

  // ---------- What becomes of every link ----------

  lemma {:induction false} AtReplaced(entries: seq<Entry>, path: Path, n: Option<Node>)
    requires path != [] && WellFormed(entries) && At(entries, path).Some?
    ensures At(Update(entries, path, n), path) == n
  {
    var first, rest := entries[0], entries[1..];
    if first.name != path[0] {
      AtReplaced(rest, path, n);
      assert ([first] + Update(rest, path, n))[1..] == Update(rest, path, n);
    } else if |path| > 1 {
      AtReplaced(first.node.entries, path[1..], n);
    } else if n.None? {
      assert [] + rest == rest;
      AbsentName(rest, path);
    }
  }

  /** An update changes nothing at a path that is neither above nor below it. */
  lemma {:induction false} AtElsewhere(entries: seq<Entry>, path: Path, n: Option<Node>, q: Path)
    requires path != [] && q != [] && !(path <= q) && !(q <= path)
    ensures At(Update(entries, path, n), q) == At(entries, q)
  {
    if entries != [] {
      var first, rest, updated := entries[0], entries[1..], Update(entries, path, n);
      if first.name != path[0] {
        AtElsewhere(rest, path, n, q);
        assert updated[1..] == Update(rest, path, n);
      } else if |path| == 1 {
        assert q[0] != path[0];
        assert n.None? ==> updated == rest;
        assert n.Some? ==> updated[1..] == rest;
      } else if first.node.Directory? {
        assert updated[1..] == rest;
        if q[0] == path[0] {
          PrefixBelow(path, q);
          PrefixBelow(q, path);
          AtElsewhere(first.node.entries, path[1..], n, q[1..]);
        }
      }
    }
  }

  lemma {:induction false} AboveIsThere(entries: seq<Entry>, top: Path, path: Path)
    requires top != [] && top <= path && At(entries, path).Some?
    ensures At(entries, top).Some? && LinksOf(At(entries, path).value) <= LinksOf(At(entries, top).value)
  {
    if entries[0].name != path[0] {
      AboveIsThere(entries[1..], top, path);
    } else if |top| == 1 {
      if |path| > 1 {
        AtCounts(entries[0].node.entries, path[1..]);
      }
    } else {
      PrefixBelow(top, path);
      AboveIsThere(entries[0].node.entries, top[1..], path[1..]);
    }
  }

  /** What one round removes or replaces: a `.bin` directory that holds a link, or the link found. */
  function Touched(path: Path): Path {
    var bin := LastBin(path);
    if bin.Some? then path[..bin.value + 1] else path
  }

  lemma TouchedHoldsLink(entries: seq<Entry>, path: Path)
    requires WellFormed(entries) && FindSymlink(entries) == Some(path)
    ensures path != [] && Touched(path) != [] && At(entries, Touched(path)).Some? && LinksOf(At(entries, Touched(path)).value) >= 1
    ensures BIN in Touched(path) || Touched(path) == path
  {
    FindSymlinkFindsLink(entries);
    PrefixCountsLink(entries, path, |Touched(path)|);
    assert LastBin(path).Some? ==> Touched(path)[LastBin(path).value] == BIN;
  }

  /** The place is settled: no links at or below it, none above it, and no `.bin` above it. */
  ghost predicate Settled(entries: seq<Entry>, q: Path) {
    && q != [] && BIN !in q && !BelowLink(entries, q)
    && (At(entries, q).Some? ==> LinksOf(At(entries, q).value) == 0)
  }

  lemma TouchedIsElsewhere(entries: seq<Entry>, path: Path, q: Path)
    requires WellFormed(entries) && FindSymlink(entries) == Some(path) && Settled(entries, q)
    ensures path != [] && !(Touched(path) <= q) && !(q <= Touched(path))
  {
    var top := Touched(path);
    TouchedHoldsLink(entries, path);
    FindSymlinkFindsLink(entries);
    if top <= q {
      PrefixSegments(top, q);
      PrefixIs(top, q);
    } else if q <= top {
      AboveIsThere(entries, q, top);
    }
  }

  lemma PrefixIs(top: Path, q: Path)
    requires top <= q
    ensures q[..|top|] == top
  {
  }

  lemma RoundLeaves(entries: seq<Entry>, path: Path, resolve: Resolver, copy: Copier, q: Path)
    requires WellFormed(entries) && path != [] && q != [] && !(Touched(path) <= q) && !(q <= Touched(path)) && Touched(path) != []
    ensures At(Round(entries, path, resolve, copy).entries, q) == At(entries, q)
  {
    var n := if LastBin(path).None? && resolve(entries, path) == Elsewhere then copy(entries, path) else None;
    AtElsewhere(entries, Touched(path), n, q);
  }

  lemma NoNewLinkAbove(before: seq<Entry>, after: seq<Entry>, q: Path)
    requires OnlyLinksReplaced(before, after) && !BelowLink(before, q)
    ensures !BelowLink(after, q)
  {
    forall n | 0 < n <= |q| && At(after, q[..n]).Some? ensures !At(after, q[..n]).value.Link? {
      if At(after, q[..n]).value.Link? {
        assert LeafAt(after, q[..n], Link(At(after, q[..n]).value.target));
        assert false;
      }
    }
  }

  /** A settled place stays as it is to the end. */
  lemma {:induction false} SettledStays(entries: seq<Entry>, resolve: Resolver, copy: Copier, q: Path)
    requires WellFormed(entries) && Dereferencing(copy) && Settled(entries, q)
    requires Materialized(entries, resolve, copy).outcome.Success?
    ensures At(Materialized(entries, resolve, copy).entries, q) == At(entries, q)
    decreases Links(entries)
  {
    var remaining := FindSymlink(entries);
    if remaining.Some? {
      var path := remaining.value;
      RoundProgresses(entries, path, resolve, copy);
      TouchedHoldsLink(entries, path);
      TouchedIsElsewhere(entries, path, q);
      RoundLeaves(entries, path, resolve, copy, q);
      var round := Round(entries, path, resolve, copy);
      NoNewLinkAbove(entries, round.entries, q);
      SettledStays(round.entries, resolve, copy, q);
    }
  }

  lemma NothingAboveLink(entries: seq<Entry>, q: Path)
    requires q != [] && At(entries, q).Some?
    ensures forall n :: 0 < n < |q| && At(entries, q[..n]).Some? ==> !At(entries, q[..n]).value.Link?
  {
    forall n | 0 < n < |q| && At(entries, q[..n]).Some? ensures !At(entries, q[..n]).value.Link? {
      if At(entries, q[..n]).value.Link? {
        BelowLeaf(entries, q[..n], q);
      }
    }
  }

  /** How the link at the place ended: a copy of what it led to stands there, or nothing if that was the payload. */
  ghost predicate Replaced(entries: seq<Entry>, done: seq<Entry>, resolve: Resolver, copy: Copier, q: Path)
    requires q != []
  {
    && At(entries, q).Some? && At(entries, q).value.Link?
    && match resolve(entries, q)
       case Unreachable => false
       case PayloadOrAncestor => At(done, q) == None
       case Elsewhere => copy(entries, q).Some? && At(done, q) == copy(entries, q)
  }

  /** The round for a link outside `.bin` directories settles its place. */
  lemma LinkSettled(entries: seq<Entry>, resolve: Resolver, copy: Copier, q: Path)
    requires WellFormed(entries) && Dereferencing(copy) && q != [] && BIN !in q && FindSymlink(entries) == Some(q)
    requires Round(entries, q, resolve, copy).outcome.Success?
    ensures var after := Round(entries, q, resolve, copy).entries; Settled(after, q) && Replaced(entries, after, resolve, copy, q)
  {
    FindSymlinkFindsLink(entries);
    RoundProgresses(entries, q, resolve, copy);
    var n := if resolve(entries, q) == Elsewhere then copy(entries, q) else None;
    AtReplaced(entries, q, n);
    var after := Round(entries, q, resolve, copy).entries;
    NothingAboveLink(entries, q);
    assert q[..|q|] == q;
    forall k | 0 < k <= |q| && At(after, q[..k]).Some? ensures !At(after, q[..k]).value.Link? {
      if At(after, q[..k]).value.Link? {
        assert LeafAt(after, q[..k], Link(At(after, q[..k]).value.target));
        assert false;
      }
    }
  }

  /**
   Every link outside `.bin` directories is replaced when its turn comes, by a copy of what it then leads to, and the
   copy is there at the end; only a link to the payload itself is dropped.
   */
  lemma {:induction false} EveryLinkIsReplaced(entries: seq<Entry>, resolve: Resolver, copy: Copier, q: Path)
    returns (turn: seq<Entry>)
    requires WellFormed(entries) && Dereferencing(copy) && q != [] && ".bin" !in q
    requires At(entries, q).Some? && At(entries, q).value.Link?
    requires Materialized(entries, resolve, copy).outcome.Success?
    ensures Replaced(turn, Materialized(entries, resolve, copy).entries, resolve, copy, q)
    decreases Links(entries)
  {
    FindSymlinkFindsLink(entries);
    AtCounts(entries, q);
    var path := FindSymlink(entries).value;
    RoundProgresses(entries, path, resolve, copy);
    var round := Round(entries, path, resolve, copy);
    if path == q {
      turn := entries;
      LinkSettled(entries, resolve, copy, q);
      SettledStays(round.entries, resolve, copy, q);
    } else {
      OtherLinkStays(entries, path, q);
      TouchedHoldsLink(entries, path);
      RoundLeaves(entries, path, resolve, copy, q);
      turn := EveryLinkIsReplaced(round.entries, resolve, copy, q);
    }
  }

  lemma OtherLinkStays(entries: seq<Entry>, path: Path, q: Path)
    requires WellFormed(entries) && FindSymlink(entries) == Some(path) && q != path && q != [] && BIN !in q
    requires At(entries, q).Some? && At(entries, q).value.Link?
    ensures path != [] && !(Touched(path) <= q) && !(q <= Touched(path))
  {
    var top := Touched(path);
    TouchedHoldsLink(entries, path);
    FindSymlinkFindsLink(entries);
    if top <= q {
      PrefixSegments(top, q);
      BelowLeaf(entries, path, q);
    } else if q <= top {
      BelowLeaf(entries, q, top);
      PrefixSegments(q, top);
    }
  }

  /** The work throws only at a link outside `.bin` directories that leads nowhere, or whose copy failed. */
  lemma {:induction false} ThrowsOnlyFor(entries: seq<Entry>, resolve: Resolver, copy: Copier) returns (turn: seq<Entry>)
    requires WellFormed(entries) && Dereferencing(copy) && Materialized(entries, resolve, copy).outcome.Failure?
    ensures var error := Materialized(entries, resolve, copy).outcome.error;
      && FindSymlink(turn) == Some(error.path) && BIN !in error.path
      && (error.BrokenLink? ==> resolve(turn, error.path) == Unreachable)
      && (error.CopyFailed? ==> resolve(turn, error.path) == Elsewhere && copy(turn, error.path).None?)
    decreases Links(entries)
  {
    FindSymlinkFindsLink(entries);
    var path := FindSymlink(entries).value;
    RoundShrinks(entries, path, resolve, copy);
    var round := Round(entries, path, resolve, copy);
    if round.outcome.Failure? {
      turn := entries;
    } else {
      turn := ThrowsOnlyFor(round.entries, resolve, copy);
    }
  }

  class StagedModules {
    var entries: seq<Entry>

    constructor (entries: seq<Entry>)
      ensures this.entries == entries
    {
      this.entries := entries;
    }

    /** `unlink`, or recursive `rm`, of one path. */
    method Remove(path: Path)
      requires path != []
      modifies this
      ensures entries == Update(old(entries), path, None)
    {
      entries := Update(entries, path, None);
    }

    /** Replace links until none is found. The loop ends because the number of links falls in every round. */
    method Materialize(resolve: Resolver, copy: Copier) returns (r: Result<(), StagingError>)
      requires WellFormed(entries) && Dereferencing(copy)
      modifies this
      ensures Staged(entries, r) == Materialized(old(entries), resolve, copy)
    {
      var remaining := FindSymlink(entries);
      while remaining.Some?
        invariant WellFormed(entries) && remaining == FindSymlink(entries)
        invariant Materialized(entries, resolve, copy) == Materialized(old(entries), resolve, copy)
        decreases Links(entries)
      {
        var path := remaining.value;
        RoundShrinks(entries, path, resolve, copy);
        var bin := LastBin(path);
        if bin.Some? {
          Remove(path[..bin.value + 1]);
        } else {
          var resolution := resolve(entries, path);
          if resolution == Unreachable {
            return Failure(BrokenLink(path));
          }
          if resolution == PayloadOrAncestor {
            Remove(path);
          } else {
            var copied := copy(entries, path);
            if copied.None? {
              Remove(path);
              return Failure(CopyFailed(path));
            }
            entries := Update(entries, path, copied);
          }
        }
        remaining := FindSymlink(entries);
      }
      r := Success(());
    }
  }
}
