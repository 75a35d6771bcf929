/** Build-output cleaning: what is planned for deletion, and what deleting it leaves. */
module Clean {
  import opened Outcomes
  import opened TextOrder

  // ---------- The disk ----------

  type Name = string
  type Path = seq<Name>

  datatype Step = Up | Into(name: Name)
  datatype Node = File | Directory | Link(absolute: bool, steps: seq<Step>)

  /** Every entry at its physical path; `maxLinks` is the number of links one path lookup may follow. */
  datatype Disk = Disk(nodes: map<Path, Node>, maxLinks: nat) {
    ghost predicate Valid() {
      && [] in nodes && nodes[[]] == Directory
      && forall p {:trigger Parent(p)} :: p in nodes && p != [] ==> Parent(p) in nodes && nodes[Parent(p)] == Directory
    }
  }

  datatype Walk = At(path: Path) | Missing | Refused

  function Parent(p: Path): Path {
    if p == [] then [] else p[..|p| - 1]
  }

  /** Walk `steps` from the physical directory `at`, following every link. */
  function Resolve(disk: Disk, at: Path, steps: seq<Step>, hops: nat): (w: Walk)
    ensures w.At? ==> w.path in disk.nodes
    decreases hops, |steps|
  {
    if at !in disk.nodes then Missing
    else if steps == [] then At(at)
    else if disk.nodes[at] != Directory then Refused
    else match steps[0]
      case Up => Resolve(disk, Parent(at), steps[1..], hops)
      case Into(name) =>
        var next := at + [name];
        if next !in disk.nodes then Missing
        else if !disk.nodes[next].Link? then Resolve(disk, next, steps[1..], hops)
        else if hops == 0 then Refused
        else Resolve(disk, if disk.nodes[next].absolute then [] else at, disk.nodes[next].steps + steps[1..], hops - 1)
  }

  function Steps(p: Path): seq<Step> {
    seq(|p|, i requires 0 <= i < |p| => Into(p[i]))
  }

  function Realpath(disk: Disk, p: Path): Walk {
    Resolve(disk, [], Steps(p), disk.maxLinks)
  }

  /** Where the entry named by a path lies physically: links are followed on the way, not at the end. */
  function Lstat(disk: Disk, p: Path): Walk {
    if p == [] then (if p in disk.nodes then At(p) else Missing)
    else match Realpath(disk, Parent(p))
      case At(d) =>
        if disk.nodes[d] != Directory then Refused
        else if d + [p[|p| - 1]] in disk.nodes then At(d + [p[|p| - 1]]) else Missing
      case other => other
  }

  predicate AtOrBelow(top: Path, p: Path) {
    top <= p
  }

  /** Remove an entry with everything below it; an entry that is not there is ignored. */
  function Remove(disk: Disk, p: Path): Disk {
    match Lstat(disk, p)
    case At(location) => disk.(nodes := map q | q in disk.nodes && !AtOrBelow(location, q) :: disk.nodes[q])
    case _ => disk
  }

  predicate Shrinks(disk: Disk, disk': Disk) {
    disk'.maxLinks == disk.maxLinks && forall p :: p in disk'.nodes ==> p in disk.nodes && disk'.nodes[p] == disk.nodes[p]
  }

  /** Deleting entries never sends a path elsewhere: it leads where it did, or nowhere. */
  lemma {:induction false} ShrinkingOnlyLoses(disk: Disk, disk': Disk, at: Path, steps: seq<Step>, hops: nat)
    requires Shrinks(disk, disk')
    ensures Resolve(disk', at, steps, hops) in {Resolve(disk, at, steps, hops), Missing}
    decreases hops, |steps|
  {
    if at in disk'.nodes && steps != [] && disk.nodes[at] == Directory {
      match steps[0] {
        case Up => ShrinkingOnlyLoses(disk, disk', Parent(at), steps[1..], hops);
        case Into(name) =>
          var next := at + [name];
          if next in disk'.nodes {
            if !disk.nodes[next].Link? {
              ShrinkingOnlyLoses(disk, disk', next, steps[1..], hops);
            } else if hops > 0 {
              ShrinkingOnlyLoses(disk, disk', if disk.nodes[next].absolute then [] else at, disk.nodes[next].steps + steps[1..], hops - 1);
            }
          }
      }
    }
  }

  /** The physical paths a walk looks at. */
  function Trodden(disk: Disk, at: Path, steps: seq<Step>, hops: nat): set<Path>
    decreases hops, |steps|
  {
    if at !in disk.nodes || steps == [] || disk.nodes[at] != Directory then {at}
    else match steps[0]
      case Up => {at} + Trodden(disk, Parent(at), steps[1..], hops)
      case Into(name) =>
        var next := at + [name];
        if next !in disk.nodes then {at, next}
        else if !disk.nodes[next].Link? then {at} + Trodden(disk, next, steps[1..], hops)
        else if hops == 0 then {at, next}
        else {at, next} + Trodden(disk, if disk.nodes[next].absolute then [] else at, disk.nodes[next].steps + steps[1..], hops - 1)
  }

  /** After deletions a path still leads where it led exactly when nothing it walks through was deleted. */
  lemma {:induction false} StillResolvesIff(disk: Disk, disk': Disk, at: Path, steps: seq<Step>, hops: nat)
    requires Shrinks(disk, disk') && Resolve(disk, at, steps, hops).At?
    ensures Resolve(disk', at, steps, hops) == Resolve(disk, at, steps, hops) <==> Trodden(disk, at, steps, hops) <= disk'.nodes.Keys
    decreases hops, |steps|
  {
    if steps != [] {
      match steps[0] {
        case Up => StillResolvesIff(disk, disk', Parent(at), steps[1..], hops);
        case Into(name) =>
          var next := at + [name];
          if !disk.nodes[next].Link? {
            StillResolvesIff(disk, disk', next, steps[1..], hops);
            assert next in Trodden(disk, next, steps[1..], hops);
          } else {
            StillResolvesIff(disk, disk', if disk.nodes[next].absolute then [] else at, disk.nodes[next].steps + steps[1..], hops - 1);
          }
      }
    }
  }

  /** A walk ends at an entry that is there and is no link. */
  lemma {:induction false} ResolvesToNonLink(disk: Disk, at: Path, steps: seq<Step>, hops: nat)
    requires disk.Valid() && Resolve(disk, at, steps, hops).At? && !disk.nodes[at].Link?
    ensures Resolve(disk, at, steps, hops).path in disk.nodes && !disk.nodes[Resolve(disk, at, steps, hops).path].Link?
    decreases hops, |steps|
  {
    if steps != [] {
      match steps[0] {
        case Up => ResolvesToNonLink(disk, Parent(at), steps[1..], hops);
        case Into(name) =>
          var next := at + [name];
          if !disk.nodes[next].Link? {
            ResolvesToNonLink(disk, next, steps[1..], hops);
          } else {
            ResolvesToNonLink(disk, if disk.nodes[next].absolute then [] else at, disk.nodes[next].steps + steps[1..], hops - 1);
          }
      }
    }
  }

  /** Walking one path after another, with the links the first half has used up. */
  lemma {:induction false} ResolveThrough(disk: Disk, at: Path, steps: seq<Step>, more: seq<Step>, hops: nat) returns (left: nat)
    requires Resolve(disk, at, steps, hops).At?
    ensures left <= hops
    ensures Resolve(disk, at, steps + more, hops) == Resolve(disk, Resolve(disk, at, steps, hops).path, more, left)
    decreases hops, |steps|
  {
    left := hops;
    if steps == [] {
      assert steps + more == more;
    } else {
      assert (steps + more)[1..] == steps[1..] + more;
      match steps[0] {
        case Up => left := ResolveThrough(disk, Parent(at), steps[1..], more, hops);
        case Into(name) =>
          var next := at + [name];
          if !disk.nodes[next].Link? {
            left := ResolveThrough(disk, next, steps[1..], more, hops);
          } else {
            assert disk.nodes[next].steps + (steps[1..] + more) == disk.nodes[next].steps + steps[1..] + more;
            left := ResolveThrough(disk, if disk.nodes[next].absolute then [] else at, disk.nodes[next].steps + steps[1..], more, hops - 1);
          }
      }
    }
  }

  /** The real path of an entry that is no link is its physical place. */
  lemma RealpathOfEntry(disk: Disk, p: Path)
    requires Lstat(disk, p).At? && !disk.nodes[Lstat(disk, p).path].Link?
    ensures Realpath(disk, p) == Lstat(disk, p)
  {
    if p != [] {
      var name := p[|p| - 1];
      assert Steps(p) == Steps(Parent(p)) + [Into(name)];
      var d := Realpath(disk, Parent(p)).path;
      var left := ResolveThrough(disk, [], Steps(Parent(p)), [Into(name)], disk.maxLinks);
      assert Resolve(disk, d, [Into(name)], left) == Resolve(disk, d + [name], [], left);
    }
  }

  /** Nothing lies below a link. */
  lemma {:induction false} NothingBelowLink(disk: Disk, top: Path, p: Path)
    requires disk.Valid() && p in disk.nodes && AtOrBelow(top, p) && top != p
    ensures top in disk.nodes && disk.nodes[top] == Directory
    decreases |p|
  {
    if |p| > |top| + 1 {
      NothingBelowLink(disk, top, Parent(p));
    } else {
      assert Parent(p) == top;
    }
  }

  // ---------- Containment ----------

  function CommonLength(a: Path, b: Path): (n: nat)
    ensures n <= |a| && n <= |b| && a[..n] == b[..n]
    ensures n < |a| && n < |b| ==> a[n] != b[n]
  {
    if a == [] || b == [] || a[0] != b[0] then 0 else 1 + CommonLength(a[1..], b[1..])
  }

  /** The steps from one path to another. */
  function Relative(from: Path, to: Path): seq<Step> {
    var n := CommonLength(from, to);
    seq(|from| - n, _ => Up) + Steps(to[n..])
  }

  predicate IsDescendant(root: Path, path: Path) {
    var rel := Relative(root, path);
    rel != [] && rel[0] != Up
  }

  /** The relative-path test accepts exactly the paths strictly inside. */
  lemma DescendantIff(root: Path, path: Path)
    ensures IsDescendant(root, path) <==> root <= path && root != path
  {
    var n := CommonLength(root, path);
    if n < |root| {
      assert Relative(root, path)[0] == Up;
      assert |root| <= |path| ==> root[n] != path[n];
    } else if n < |path| {
      assert Relative(root, path)[0] == Into(path[n]);
    }
  }

  // ---------- The config worklist ----------

  datatype Config = Config(outDir: Option<Path>, references: seq<Path>)
  datatype CleanError =
    | CannotParse(config: Path)
    | UnexpectedOutDir(path: Path)
    | OutsideRepository(path: Path)
    | DiskError(path: Path)
    | UnsafeOrphans(entries: seq<Path>)

  ghost predicate Trail(configs: map<Path, Config>, trail: seq<Path>) {
    && trail != []
    && forall i :: 0 <= i < |trail| - 1 ==> trail[i] in configs && trail[i + 1] in configs[trail[i]].references
  }

  ghost predicate Reachable(configs: map<Path, Config>, start: Path, p: Path) {
    exists trail :: Trail(configs, trail) && trail[0] == start && trail[|trail| - 1] == p
  }

  lemma ReachableStep(configs: map<Path, Config>, start: Path, p: Path, q: Path)
    requires Reachable(configs, start, p) && p in configs && q in configs[p].references
    ensures Reachable(configs, start, q)
  {
    var trail :| Trail(configs, trail) && trail[0] == start && trail[|trail| - 1] == p;
    var longer := trail + [q];
    assert Trail(configs, longer);
  }

  lemma {:induction false} ClosedContainsTrail(configs: map<Path, Config>, visited: set<Path>, trail: seq<Path>, i: nat)
    requires Trail(configs, trail) && trail[0] in visited && i < |trail|
    requires forall v, r :: v in visited && v in configs && r in configs[v].references ==> r in visited
    ensures trail[i] in visited
  {
    if i > 0 {
      ClosedContainsTrail(configs, visited, trail, i - 1);
      assert trail[i - 1 + 1] in configs[trail[i - 1]].references;
    }
  }

  function NativeEntryOutput(root: Path): Path {
    root + ["native", "system", "packages", "entry", "lib"]
  }

  /** The directory to remove for an emitting config, if its output directory has an expected shape. */
  function Output(root: Path, types: Path): Option<Path> {
    if types != [] && types[|types| - 1] == "types" then Some(Parent(types))
    else if types == NativeEntryOutput(root) then Some(types)
    else None
  }

  predicate Sound(root: Path, configs: map<Path, Config>, p: Path) {
    && p in configs
    && (configs[p].outDir.Some? ==>
          && Output(root, configs[p].outDir.value).Some?
          && IsDescendant(root, Output(root, configs[p].outDir.value).value))
  }

  ghost predicate Emits(root: Path, configs: map<Path, Config>, p: Path, output: Path) {
    p in configs && configs[p].outDir.Some? && Output(root, configs[p].outDir.value) == Some(output)
  }

  /** A directory some config reachable by project references emits into. */
  ghost predicate LiveOutput(root: Path, configs: map<Path, Config>, output: Path) {
    exists p :: Reachable(configs, root + ["tsconfig.json"], p) && Emits(root, configs, p, output)
  }

  /**
   The worklist over project references ends; it succeeds exactly when every reachable config is sound, having then
   visited exactly the reachable ones.
   */
  method BuildOutputDirectories(root: Path, configs: map<Path, Config>)
    returns (r: Result<set<Path>, CleanError>, ghost visited: set<Path>)
    ensures r.Success? <==> forall p :: Reachable(configs, root + ["tsconfig.json"], p) ==> Sound(root, configs, p)
    ensures r.Success? ==> forall p :: p in visited <==> Reachable(configs, root + ["tsconfig.json"], p)
    ensures r.Success? ==> forall o :: o in r.value <==> LiveOutput(root, configs, o)
  {
    var start := root + ["tsconfig.json"];
    var outputs: set<Path> := {};
    var pending, seen: set<Path> := [start], {};
    visited := {};
    assert Trail(configs, [start]);
    while pending != []
      invariant visited == seen && seen <= configs.Keys
      invariant start in seen || start in pending
      invariant forall p :: p in seen || p in pending ==> Reachable(configs, start, p)
      invariant forall v, q :: v in seen && q in configs[v].references ==> q in seen || q in pending
      invariant forall p :: p in seen ==> Sound(root, configs, p)
      invariant forall o :: o in outputs <==> exists p :: p in seen && Emits(root, configs, p, o)
      decreases configs.Keys - seen, |pending|
    {
      var config := pending[|pending| - 1];
      ghost var before := pending;
      assert Reachable(configs, start, config);
      pending := pending[..|pending| - 1];
      assert forall p :: p in before <==> p == config || p in pending;
      if config in seen {
        continue;
      }
      if config !in configs {
        return Failure(CannotParse(config)), seen;
      }
      seen := seen + {config};
      visited := seen;
      if configs[config].outDir.Some? {
        var output := Output(root, configs[config].outDir.value);
        if output.None? {
          return Failure(UnexpectedOutDir(configs[config].outDir.value)), seen;
        }
        if !IsDescendant(root, output.value) {
          return Failure(OutsideRepository(output.value)), seen;
        }
        outputs := outputs + {output.value};
      }
      forall q | q in configs[config].references ensures Reachable(configs, start, q) {
        ReachableStep(configs, start, config, q);
      }
      pending := pending + configs[config].references;
    }
    r := Success(outputs);
    forall p | Reachable(configs, start, p) ensures p in seen {
      var trail :| Trail(configs, trail) && trail[0] == start && trail[|trail| - 1] == p;
      ClosedContainsTrail(configs, seen, trail, |trail| - 1);
    }
  }

  // ---------- Reading directories ----------

  const KNOWN_ORPHAN_ENTRIES: set<Name> := {"node_modules", "lib", ".typecheck"}
  const BUILD_INFO := ".tsbuildinfo"
  const MANIFEST := "package.json"

  predicate EndsWith(s: string, suffix: string) {
    |suffix| <= |s| && s[|s| - |suffix|..] == suffix
  }

  /** The entry a directory path has under a name. */
  function Entry(disk: Disk, dir: Path, name: Name): Option<Node> {
    match Realpath(disk, dir)
    case At(d) => if disk.nodes[d] == Directory && d + [name] in disk.nodes then Some(disk.nodes[d + [name]]) else None
    case _ => None
  }

  lemma EntryIsThere(disk: Disk, dir: Path, name: Name)
    requires Entry(disk, dir, name).Some?
    ensures Lstat(disk, dir + [name]) == At(Realpath(disk, dir).path + [name])
    ensures disk.nodes[Lstat(disk, dir + [name]).path] == Entry(disk, dir, name).value
  {
    assert Parent(dir + [name]) == dir;
  }

  predicate Readable(disk: Disk, dir: Path) {
    Realpath(disk, dir).At? && disk.nodes[Realpath(disk, dir).path] == Directory
  }

  predicate Listable(disk: Disk, dir: Path) {
    Realpath(disk, dir) == Missing || Readable(disk, dir)
  }

  /** The names in a directory, in some order; reading one that is not there fails. */
  method ReadDirectory(disk: Disk, dir: Path) returns (r: Result<seq<Name>, CleanError>)
    ensures r.Success? <==> Readable(disk, dir)
    ensures r.Success? ==> forall n :: n in r.value <==> Entry(disk, dir, n).Some?
  {
    var place := Realpath(disk, dir);
    if !place.At? || disk.nodes[place.path] != Directory {
      return Failure(DiskError(dir));
    }
    var d := place.path;
    var names: seq<Name> := [];
    var rest := set p | p in disk.nodes.Keys && |p| == |d| + 1 && d <= p;
    while rest != {}
      invariant forall p :: p in rest ==> p in disk.nodes && |p| == |d| + 1 && d <= p
      invariant forall n :: n in names ==> d + [n] in disk.nodes
      invariant forall p :: p in disk.nodes && |p| == |d| + 1 && d <= p ==> p in rest || p[|d|] in names
      decreases rest
    {
      var p :| p in rest;
      assert p == d + [p[|d|]];
      rest := rest - {p};
      names := names + [p[|d|]];
    }
    forall n | d + [n] in disk.nodes ensures n in names {
      var p := d + [n];
      assert |p| == |d| + 1 && d <= p && p[|d|] == n;
    }
    r := Success(names);
  }

  /** As `ReadDirectory`, with a missing directory read as an empty one. */
  method DirectoryEntries(disk: Disk, dir: Path) returns (r: Result<seq<Name>, CleanError>)
    ensures r.Success? <==> Listable(disk, dir)
    ensures r.Success? ==> forall n :: n in r.value <==> Entry(disk, dir, n).Some?
  {
    if Realpath(disk, dir) == Missing {
      return Success([]);
    }
    r := ReadDirectory(disk, dir);
  }

  predicate IsChildDirectory(disk: Disk, dir: Path, q: Path) {
    |q| == |dir| + 1 && dir <= q && Entry(disk, dir, q[|dir|]) == Some(Directory)
  }

  method ChildDirectories(disk: Disk, dir: Path) returns (r: Result<seq<Path>, CleanError>)
    ensures r.Success? <==> Listable(disk, dir)
    ensures r.Success? ==> forall q :: q in r.value <==> IsChildDirectory(disk, dir, q)
  {
    var entries := DirectoryEntries(disk, dir);
    if entries.Failure? {
      return Failure(entries.error);
    }
    var names, found: seq<Path> := entries.value, [];
    for i := 0 to |names|
      invariant forall q :: q in found ==> IsChildDirectory(disk, dir, q)
      invariant forall k :: 0 <= k < i && Entry(disk, dir, names[k]) == Some(Directory) ==> dir + [names[k]] in found
    {
      if Entry(disk, dir, names[i]) == Some(Directory) {
        found := found + [dir + [names[i]]];
      }
    }
    forall q | IsChildDirectory(disk, dir, q) ensures q in found {
      assert q == dir + [q[|dir|]] && q[|dir|] in names;
    }
    r := Success(found);
  }

  // ---------- The plan ----------

  predicate Present(disk: Disk, p: Path) {
    Lstat(disk, p).At?
  }

  /** A path whose entry exists and lies strictly inside the canonical root. */
  predicate Inside(disk: Disk, canonicalRoot: Path, p: Path) {
    Present(disk, p) && IsDescendant(canonicalRoot, Lstat(disk, p).path)
  }

  /** Adding the path is not refused. */
  predicate MayAdd(disk: Disk, canonicalRoot: Path, p: Path) {
    Lstat(disk, p) == Missing || Inside(disk, canonicalRoot, p)
  }

  /** Add a path that exists, refusing one that leaves the repository through a link on the way. */
  method AddIfPresent(disk: Disk, targets: set<Path>, path: Path, canonicalRoot: Path) returns (r: Result<set<Path>, CleanError>)
    ensures r.Success? ==> r.value == targets + (if Present(disk, path) then {path} else {})
    ensures r.Success? <==> MayAdd(disk, canonicalRoot, path)
  {
    match Lstat(disk, path) {
      case Missing => return Success(targets);
      case Refused => return Failure(DiskError(path));
      case At(_) =>
    }
    var canonicalParent := Realpath(disk, Parent(path)).path;
    var place := if path == [] then canonicalParent else canonicalParent + [path[|path| - 1]];
    if !IsDescendant(canonicalRoot, place) {
      return Failure(OutsideRepository(path));
    }
    r := Success(targets + {path});
  }

  /** Add each of some paths that exists. */
  method AddEach(disk: Disk, targets: set<Path>, paths: seq<Path>, canonicalRoot: Path) returns (r: Result<set<Path>, CleanError>)
    ensures r.Success? ==> forall p :: p in r.value <==> p in targets || (p in paths && Present(disk, p))
    ensures r.Success? <==> forall p :: p in paths ==> MayAdd(disk, canonicalRoot, p)
  {
    r := Success(targets);
    for i := 0 to |paths|
      invariant r.Success?
      invariant forall p :: p in r.value <==> p in targets || (p in paths[..i] && Present(disk, p))
      invariant forall p :: p in paths[..i] ==> MayAdd(disk, canonicalRoot, p)
    {
      assert paths[..i + 1] == paths[..i] + [paths[i]];
      r := AddIfPresent(disk, r.value, paths[i], canonicalRoot);
      if r.Failure? {
        return;
      }
    }
    assert paths[..|paths|] == paths;
  }

  function FixedOutputs(root: Path): seq<Path> {
    [root + [".dsh-build"], root + ["apps", "desktop", ".desktop-build"], root + [".typecheck"],
     root + ["native", "system", "tsconfig.tsbuildinfo"]]
  }

  /** Incremental state left directly in the repository root. */
  predicate RootBuildInfo(disk: Disk, root: Path, p: Path) {
    |p| == |root| + 1 && root <= p && Entry(disk, root, p[|root|]) == Some(File) && EndsWith(p[|root|], BUILD_INFO)
  }

  /** A package directory without a manifest. */
  predicate Orphan(disk: Disk, root: Path, d: Path) {
    IsPackageDirectory(disk, root, d) && Lstat(disk, d + [MANIFEST]) == Missing
  }

  predicate Unknown(disk: Disk, d: Path, name: Name) {
    Entry(disk, d, name).Some? && name !in KNOWN_ORPHAN_ENTRIES && !EndsWith(name, BUILD_INFO)
  }

  /** An orphan holding only known residue. */
  ghost predicate Residue(disk: Disk, root: Path, d: Path) {
    Orphan(disk, root, d) && forall n :: !Unknown(disk, d, n)
  }

  ghost predicate UnsafeOrphan(disk: Disk, root: Path, d: Path) {
    Orphan(disk, root, d) && exists n :: Unknown(disk, d, n)
  }

  /** What is planned for deletion before links are considered. */
  ghost predicate Candidate(disk: Disk, root: Path, configs: map<Path, Config>, p: Path) {
    || (p in FixedOutputs(root) && Present(disk, p))
    || RootBuildInfo(disk, root, p)
    || (LiveOutput(root, configs, p) && Present(disk, p))
    || Residue(disk, root, p)
  }

  method RootBuildInfos(disk: Disk, root: Path) returns (r: Result<set<Path>, CleanError>)
    ensures r.Success? <==> Readable(disk, root)
    ensures r.Success? ==> forall p :: p in r.value <==> RootBuildInfo(disk, root, p)
  {
    var entries := ReadDirectory(disk, root);
    if entries.Failure? {
      return Failure(entries.error);
    }
    var names, found: set<Path> := entries.value, {};
    for i := 0 to |names|
      invariant forall q :: q in found ==> RootBuildInfo(disk, root, q)
      invariant forall k :: 0 <= k < i && RootBuildInfo(disk, root, root + [names[k]]) ==> root + [names[k]] in found
    {
      if Entry(disk, root, names[i]) == Some(File) && EndsWith(names[i], BUILD_INFO) {
        found := found + {root + [names[i]]};
      }
    }
    forall q | RootBuildInfo(disk, root, q) ensures q in found {
      assert q == root + [q[|root|]] && q[|root|] in names;
    }
    r := Success(found);
  }

  method UnknownEntries(disk: Disk, d: Path) returns (r: Result<seq<Path>, CleanError>)
    ensures r.Success? <==> Readable(disk, d)
    ensures r.Success? ==> (r.value == [] <==> forall n :: !Unknown(disk, d, n))
  {
    var entries := ReadDirectory(disk, d);
    if entries.Failure? {
      return Failure(entries.error);
    }
    var names, found: seq<Path> := entries.value, [];
    for i := 0 to |names|
      invariant found == [] <==> forall k :: 0 <= k < i ==> !Unknown(disk, d, names[k])
    {
      if names[i] !in KNOWN_ORPHAN_ENTRIES && !EndsWith(names[i], BUILD_INFO) {
        found := found + [d + [names[i]]];
      }
    }
    r := Success(found);
  }

  predicate IsPackageDirectory(disk: Disk, root: Path, d: Path) {
    IsChildDirectory(disk, root + ["packages"], Parent(d)) && IsChildDirectory(disk, Parent(d), d)
  }

  /** Looking at the package directory does not fail, and if it is residue it may be removed. */
  ghost predicate PackagePlannable(disk: Disk, root: Path, canonicalRoot: Path, d: Path) {
    && !Lstat(disk, d + [MANIFEST]).Refused?
    && (Orphan(disk, root, d) ==> Readable(disk, d))
    && (Residue(disk, root, d) ==> Inside(disk, canonicalRoot, d))
  }

  lemma OrphanIsPresent(disk: Disk, root: Path, d: Path)
    requires Orphan(disk, root, d)
    ensures Present(disk, d)
  {
    assert d == Parent(d) + [d[|Parent(d)|]];
    EntryIsThere(disk, Parent(d), d[|Parent(d)|]);
  }

  /** Sort the orphans among some package directories into residue, which is added, and unsafe ones, which are noted. */
  method OrphanPackages(disk: Disk, root: Path, targets: set<Path>, packages: seq<Path>, canonicalRoot: Path)
    returns (r: Result<set<Path>, CleanError>, unsafe: seq<Path>)
    requires forall d :: d in packages ==> IsPackageDirectory(disk, root, d)
    ensures r.Success? <==> forall d :: d in packages ==> PackagePlannable(disk, root, canonicalRoot, d)
    ensures r.Success? ==> forall p :: p in r.value <==> p in targets || (p in packages && Residue(disk, root, p))
    ensures r.Success? ==> forall p :: p in r.value && p !in targets ==> Inside(disk, canonicalRoot, p)
    ensures r.Success? ==> (unsafe == [] <==> forall d :: d in packages ==> !UnsafeOrphan(disk, root, d))
  {
    r, unsafe := Success(targets), [];
    for i := 0 to |packages|
      invariant r.Success?
      invariant forall p :: p in r.value <==> p in targets || (p in packages[..i] && Residue(disk, root, p))
      invariant forall p :: p in r.value && p !in targets ==> Inside(disk, canonicalRoot, p)
      invariant unsafe == [] <==> forall d :: d in packages[..i] ==> !UnsafeOrphan(disk, root, d)
      invariant forall d :: d in packages[..i] ==> PackagePlannable(disk, root, canonicalRoot, d)
    {
      assert packages[..i + 1] == packages[..i] + [packages[i]];
      var d := packages[i];
      var manifest := Lstat(disk, d + [MANIFEST]);
      if manifest.Refused? {
        assert d in packages && !PackagePlannable(disk, root, canonicalRoot, d);
        return Failure(DiskError(d + [MANIFEST])), [];
      }
      if manifest.At? {
        continue;
      }
      OrphanIsPresent(disk, root, d);
      var unknown := UnknownEntries(disk, d);
      if unknown.Failure? {
        assert d in packages && !PackagePlannable(disk, root, canonicalRoot, d);
        return Failure(unknown.error), [];
      }
      if unknown.value != [] {
        assert UnsafeOrphan(disk, root, d) && d in packages[..i + 1];
        unsafe := unsafe + unknown.value;
      } else {
        r := AddIfPresent(disk, r.value, d, canonicalRoot);
        if r.Failure? {
          assert d in packages && !PackagePlannable(disk, root, canonicalRoot, d);
          return;
        }
      }
    }
    assert packages[..|packages|] == packages;
  }

  ghost predicate PackagesListable(disk: Disk, root: Path) {
    && Listable(disk, root + ["packages"])
    && forall g :: IsChildDirectory(disk, root + ["packages"], g) ==> Listable(disk, g)
  }

  /** The directories two levels below `packages`. */
  method PackageDirectories(disk: Disk, root: Path) returns (r: Result<seq<Path>, CleanError>)
    ensures r.Success? <==> PackagesListable(disk, root)
    ensures r.Success? ==> forall d :: d in r.value <==> IsPackageDirectory(disk, root, d)
  {
    var groups := ChildDirectories(disk, root + ["packages"]);
    if groups.Failure? {
      return Failure(groups.error);
    }
    var found: seq<Path> := [];
    for i := 0 to |groups.value|
      invariant forall d :: d in found <==> Parent(d) in groups.value[..i] && IsChildDirectory(disk, Parent(d), d)
      invariant forall g :: g in groups.value[..i] ==> Listable(disk, g)
    {
      assert groups.value[..i + 1] == groups.value[..i] + [groups.value[i]];
      var packages := ChildDirectories(disk, groups.value[i]);
      if packages.Failure? {
        return Failure(packages.error);
      }
      forall d ensures d in packages.value <==> Parent(d) == groups.value[i] && IsChildDirectory(disk, Parent(d), d) {
        if IsChildDirectory(disk, groups.value[i], d) {
          assert Parent(d) == groups.value[i];
        }
      }
      found := found + packages.value;
    }
    assert groups.value[..|groups.value|] == groups.value;
    r := Success(found);
  }

  // ---------- Module links ----------

  predicate IsLink(disk: Disk, dir: Path, name: Name) {
    Entry(disk, dir, name).Some? && Entry(disk, dir, name).value.Link?
  }

  predicate IsScope(disk: Disk, modules: Path, name: Name) {
    Entry(disk, modules, name) == Some(Directory) && "@" <= name
  }

  /** A link directly in a modules directory or in one of its scope directories. */
  predicate IsModuleLink(disk: Disk, modules: Path, l: Path) {
    || (|l| == |modules| + 1 && Parent(l) == modules && IsLink(disk, modules, l[|l| - 1]))
    || IsScopedLink(disk, modules, l)
  }

  method LinksIn(disk: Disk, dir: Path) returns (r: Result<seq<Path>, CleanError>)
    ensures r.Success? <==> Listable(disk, dir)
    ensures r.Success? ==> forall l :: l in r.value <==> |l| == |dir| + 1 && Parent(l) == dir && IsLink(disk, dir, l[|l| - 1])
  {
    var entries := DirectoryEntries(disk, dir);
    if entries.Failure? {
      return Failure(entries.error);
    }
    var names, found: seq<Path> := entries.value, [];
    for i := 0 to |names|
      invariant forall l :: l in found ==> |l| == |dir| + 1 && Parent(l) == dir && IsLink(disk, dir, l[|l| - 1])
      invariant forall k :: 0 <= k < i && IsLink(disk, dir, names[k]) ==> dir + [names[k]] in found
    {
      if IsLink(disk, dir, names[i]) {
        found := found + [dir + [names[i]]];
      }
    }
    forall l | |l| == |dir| + 1 && Parent(l) == dir && IsLink(disk, dir, l[|l| - 1]) ensures l in found {
      assert l == dir + [l[|l| - 1]] && l[|l| - 1] in names;
    }
    r := Success(found);
  }

  predicate IsScopedLink(disk: Disk, modules: Path, l: Path) {
    |l| == |modules| + 2 && Parent(Parent(l)) == modules && IsScope(disk, modules, l[|l| - 2]) && IsLink(disk, Parent(l), l[|l| - 1])
  }

  lemma ScopeOf(modules: Path, name: Name, l: Path)
    requires |l| == |modules| + 2
    ensures Parent(l) == modules + [name] <==> Parent(Parent(l)) == modules && l[|l| - 2] == name
  {
    assert Parent(l) == Parent(Parent(l)) + [l[|l| - 2]];
  }

  ghost predicate ScopesListable(disk: Disk, modules: Path) {
    forall n :: IsScope(disk, modules, n) ==> Listable(disk, modules + [n])
  }

  method ScopedLinks(disk: Disk, modules: Path, names: seq<Name>) returns (r: Result<seq<Path>, CleanError>)
    ensures r.Success? <==> forall n :: n in names && IsScope(disk, modules, n) ==> Listable(disk, modules + [n])
    ensures r.Success? ==> forall l :: l in r.value <==> IsScopedLink(disk, modules, l) && l[|l| - 2] in names
  {
    r := Success([]);
    for i := 0 to |names|
      invariant r.Success?
      invariant forall l :: l in r.value <==> IsScopedLink(disk, modules, l) && l[|l| - 2] in names[..i]
      invariant forall n :: n in names[..i] && IsScope(disk, modules, n) ==> Listable(disk, modules + [n])
    {
      assert names[..i + 1] == names[..i] + [names[i]];
      if IsScope(disk, modules, names[i]) {
        var links := LinksIn(disk, modules + [names[i]]);
        if links.Failure? {
          return links;
        }
        forall l ensures l in links.value <==> IsScopedLink(disk, modules, l) && l[|l| - 2] == names[i] {
          if |l| == |modules| + 2 {
            ScopeOf(modules, names[i], l);
          }
        }
        r := Success(r.value + links.value);
      }
    }
    assert names[..|names|] == names;
  }

  method ModuleLinks(disk: Disk, modules: Path) returns (r: Result<seq<Path>, CleanError>)
    ensures r.Success? <==> Listable(disk, modules) && ScopesListable(disk, modules)
    ensures r.Success? ==> forall l :: l in r.value <==> IsModuleLink(disk, modules, l)
  {
    var direct := LinksIn(disk, modules);
    if direct.Failure? {
      return direct;
    }
    var entries := DirectoryEntries(disk, modules);
    r := ScopedLinks(disk, modules, entries.value);
    if r.Success? {
      r := Success(direct.value + r.value);
    }
  }

  predicate IsStale(disk: Disk, removed: set<Path>, l: Path) {
    match Realpath(disk, l)
    case At(target) => exists path :: path in removed && (path == target || IsDescendant(path, target))
    case _ => true
  }

  /** The real paths of some targets. */
  function RealPaths(disk: Disk, targets: set<Path>): set<Path> {
    set d | d in targets && Realpath(disk, d).At? :: Realpath(disk, d).path
  }

  /** A link is residue if it leads nowhere, or to or below the place that one of the first targets leads to. */
  ghost predicate LinkResidue(disk: Disk, first: set<Path>, l: Path) {
    !Realpath(disk, l).At? || exists d :: d in first && Realpath(disk, d).At? && Realpath(disk, d).path <= Realpath(disk, l).path
  }

  lemma StaleIsResidue(disk: Disk, first: set<Path>, l: Path)
    ensures IsStale(disk, RealPaths(disk, first), l) <==> LinkResidue(disk, first, l)
  {
    if Realpath(disk, l).At? {
      var target := Realpath(disk, l).path;
      if path :| path in RealPaths(disk, first) && (path == target || IsDescendant(path, target)) {
        DescendantIff(path, target);
      }
      if d :| d in first && Realpath(disk, d).At? && Realpath(disk, d).path <= target {
        DescendantIff(Realpath(disk, d).path, target);
        assert Realpath(disk, d).path in RealPaths(disk, first);
      }
    }
  }

  function ModuleDirectories(root: Path): seq<Path> {
    [root + ["node_modules"], root + ["node_modules", ".pnpm", "node_modules"]]
  }

  predicate Scans(disk: Disk, canonicalRoot: Path, modules: Path) {
    Realpath(disk, modules).At? && IsDescendant(canonicalRoot, Realpath(disk, modules).path)
  }

  ghost predicate LinkOf(disk: Disk, canonicalRoot: Path, modules: seq<Path>, l: Path) {
    exists m :: m in modules && Scans(disk, canonicalRoot, m) && IsModuleLink(disk, m, l)
  }

  /** A link in one of the repository's own modules directories. */
  ghost predicate ScannedLink(disk: Disk, root: Path, canonicalRoot: Path, l: Path) {
    LinkOf(disk, canonicalRoot, ModuleDirectories(root), l)
  }

  lemma ModuleLinkIsThere(disk: Disk, modules: Path, l: Path)
    requires IsModuleLink(disk, modules, l)
    ensures Present(disk, l) && disk.nodes[Lstat(disk, l).path].Link?
  {
    assert l == Parent(l) + [l[|l| - 1]];
    EntryIsThere(disk, Parent(l), l[|l| - 1]);
  }

  /** The modules directory can be scanned, and its stale links may be removed. */
  ghost predicate LinksPlannable(disk: Disk, first: set<Path>, modules: Path, canonicalRoot: Path) {
    && Listable(disk, modules) && ScopesListable(disk, modules)
    && forall l :: IsModuleLink(disk, modules, l) && LinkResidue(disk, first, l) ==> Inside(disk, canonicalRoot, l)
  }

  /** Add the stale links of one modules directory. */
  method StaleLinksIn(disk: Disk, targets: set<Path>, removed: set<Path>, modules: Path, canonicalRoot: Path, ghost first: set<Path>)
    returns (r: Result<set<Path>, CleanError>)
    requires removed == RealPaths(disk, first)
    ensures r.Success? <==> LinksPlannable(disk, first, modules, canonicalRoot)
    ensures r.Success? ==> forall p :: p in r.value <==> p in targets || (IsModuleLink(disk, modules, p) && LinkResidue(disk, first, p))
    ensures r.Success? ==> forall p :: p in r.value && p !in targets ==> Inside(disk, canonicalRoot, p)
  {
    var links := ModuleLinks(disk, modules);
    if links.Failure? {
      return Failure(links.error);
    }
    r := Success(targets);
    for i := 0 to |links.value|
      invariant r.Success?
      invariant forall p :: p in r.value <==> p in targets || (p in links.value[..i] && LinkResidue(disk, first, p))
      invariant forall l :: l in links.value[..i] && LinkResidue(disk, first, l) ==> Inside(disk, canonicalRoot, l)
      invariant forall p :: p in r.value && p !in targets ==> Inside(disk, canonicalRoot, p)
    {
      var l := links.value[i];
      assert links.value[..i + 1] == links.value[..i] + [l];
      StaleIsResidue(disk, first, l);
      if IsStale(disk, removed, l) {
        ModuleLinkIsThere(disk, modules, l);
        r := AddIfPresent(disk, r.value, l, canonicalRoot);
        if r.Failure? {
          return;
        }
      }
    }
    assert links.value[..|links.value|] == links.value;
  }

  ghost predicate Planned(disk: Disk, root: Path, canonicalRoot: Path, first: set<Path>, p: Path) {
    p in first || (ScannedLink(disk, root, canonicalRoot, p) && LinkResidue(disk, first, p))
  }

  /** Every planned path exists at a physical place strictly inside the canonical root. */
  ghost predicate AllInside(disk: Disk, canonicalRoot: Path, targets: set<Path>) {
    forall p :: p in targets ==> Inside(disk, canonicalRoot, p)
  }

  /** A completed plan: exactly the candidates, and then exactly the scanned links that are residue. */
  ghost predicate IsPlan(disk: Disk, root: Path, configs: map<Path, Config>, first: set<Path>, targets: set<Path>) {
    && Realpath(disk, root).At?
    && (forall p :: p in first <==> Candidate(disk, root, configs, p))
    && (forall p :: p in targets <==> Planned(disk, root, Realpath(disk, root).path, first, p))
    && AllInside(disk, Realpath(disk, root).path, targets)
  }

  lemma RootBuildInfoInside(disk: Disk, root: Path, p: Path)
    requires RootBuildInfo(disk, root, p)
    ensures Inside(disk, Realpath(disk, root).path, p)
  {
    assert p == root + [p[|root|]];
    EntryIsThere(disk, root, p[|root|]);
    DescendantIff(Realpath(disk, root).path, Lstat(disk, p).path);
  }

  /** The candidates can be determined, and all that are there may be removed. */
  ghost predicate CandidatesPlannable(disk: Disk, root: Path, configs: map<Path, Config>, canonicalRoot: Path) {
    && (forall p :: p in FixedOutputs(root) ==> MayAdd(disk, canonicalRoot, p))
    && Readable(disk, root)
    && (forall p :: Reachable(configs, root + ["tsconfig.json"], p) ==> Sound(root, configs, p))
    && (forall o :: LiveOutput(root, configs, o) ==> MayAdd(disk, canonicalRoot, o))
    && PackagesListable(disk, root)
    && (forall d :: IsPackageDirectory(disk, root, d) ==> PackagePlannable(disk, root, canonicalRoot, d))
  }

  /** The candidates: fixed outputs, root build state, live outputs and residual packages. */
  method PlanCandidates(disk: Disk, root: Path, configs: map<Path, Config>, canonicalRoot: Path)
    returns (r: Result<set<Path>, CleanError>, unsafe: seq<Path>)
    requires Realpath(disk, root) == At(canonicalRoot)
    ensures r.Success? ==> forall p :: p in r.value <==> Candidate(disk, root, configs, p)
    ensures r.Success? ==> AllInside(disk, canonicalRoot, r.value)
    ensures r.Success? ==> (unsafe == [] <==> forall d :: !UnsafeOrphan(disk, root, d))
    ensures r.Success? <==> CandidatesPlannable(disk, root, configs, canonicalRoot)
  {
    unsafe := [];
    var fixed := FixedOutputs(root);
    r := AddEach(disk, {}, fixed, canonicalRoot);
    if r.Failure? {
      return;
    }
    var fixedTargets := r.value;
    var infos := RootBuildInfos(disk, root);
    if infos.Failure? {
      return infos, [];
    }
    forall p | p in infos.value ensures Inside(disk, canonicalRoot, p) {
      RootBuildInfoInside(disk, root, p);
    }
    var outputs, _ := BuildOutputDirectories(root, configs);
    if outputs.Failure? {
      return outputs, [];
    }
    var order := Enumerate(outputs.value);
    r := AddEach(disk, fixedTargets + infos.value, order, canonicalRoot);
    if r.Failure? {
      return;
    }
    var packages := PackageDirectories(disk, root);
    if packages.Failure? {
      return Failure(packages.error), [];
    }
    r, unsafe := OrphanPackages(disk, root, r.value, packages.value, canonicalRoot);
  }

  ghost predicate Distinct(paths: seq<Path>) {
    forall i, k :: 0 <= i < k < |paths| ==> paths[i] != paths[k]
  }

  method Enumerate(s: set<Path>) returns (order: seq<Path>)
    ensures Distinct(order) && forall p :: p in order <==> p in s
  {
    order := [];
    var rest := s;
    while rest != {}
      invariant Distinct(order) && forall p :: p in order ==> p !in rest
      invariant forall p :: p in s <==> p in order || p in rest
      decreases rest
    {
      var p :| p in rest;
      order, rest := order + [p], rest - {p};
    }
  }

  /** A path as text. */
  function PathText(p: Path): string {
    if p == [] then "" else PathText(p[..|p| - 1]) + "/" + p[|p| - 1]
  }

  ghost predicate Ordered(paths: seq<Path>) {
    forall i, k :: 0 <= i < k < |paths| ==> AtMost(PathText(paths[i]), PathText(paths[k]))
  }

  function InsertPath(sorted: seq<Path>, p: Path): (r: seq<Path>)
    ensures forall q :: q in r <==> q == p || q in sorted
  {
    if sorted == [] || AtMost(PathText(p), PathText(sorted[0])) then [p] + sorted else [sorted[0]] + InsertPath(sorted[1..], p)
  }

  function SortPaths(paths: seq<Path>): (r: seq<Path>)
    ensures forall q :: q in r <==> q in paths
  {
    if paths == [] then [] else InsertPath(SortPaths(paths[1..]), paths[0])
  }

  lemma {:induction false} InsertOrders(sorted: seq<Path>, p: Path)
    requires Ordered(sorted)
    ensures Ordered(InsertPath(sorted, p))
    ensures Distinct(sorted) && p !in sorted ==> Distinct(InsertPath(sorted, p))
  {
    if sorted != [] && AtMost(PathText(p), PathText(sorted[0])) {
      forall k | 0 <= k < |sorted| ensures AtMost(PathText(p), PathText(sorted[k])) {
        if k > 0 {
          AtMostTransitive(PathText(p), PathText(sorted[0]), PathText(sorted[k]));
        }
      }
    } else if sorted != [] {
      AtMostTotal(PathText(p), PathText(sorted[0]));
      InsertOrders(sorted[1..], p);
      var rest := InsertPath(sorted[1..], p);
      forall k | 0 <= k < |rest| ensures AtMost(PathText(sorted[0]), PathText(rest[k])) {
        assert rest[k] in rest;
        if rest[k] != p {
          var i :| 1 <= i < |sorted| && sorted[i] == rest[k];
        }
      }
      assert Distinct(sorted) ==> sorted[0] !in sorted[1..];
    }
  }

  lemma {:induction false} SortOrders(paths: seq<Path>)
    ensures Ordered(SortPaths(paths)) && (Distinct(paths) ==> Distinct(SortPaths(paths)))
  {
    if paths != [] {
      SortOrders(paths[1..]);
      InsertOrders(SortPaths(paths[1..]), paths[0]);
      assert Distinct(paths) ==> paths[0] !in paths[1..];
    }
  }

  /** `[...targets].sort()`: every target once, in the order of its text. */
  method InOrder(targets: set<Path>) returns (sorted: seq<Path>)
    ensures (set p | p in sorted) == targets && Ordered(sorted) && Distinct(sorted)
  {
    var order := Enumerate(targets);
    SortOrders(order);
    sorted := SortPaths(order);
  }

  /** Nothing refuses the plan: candidates and stale links may be removed, and no orphan holds an unknown entry. */
  ghost predicate Plannable(disk: Disk, root: Path, configs: map<Path, Config>, first: set<Path>) {
    && Realpath(disk, root).At?
    && CandidatesPlannable(disk, root, configs, Realpath(disk, root).path)
    && (forall d :: !UnsafeOrphan(disk, root, d))
    && forall m :: m in ModuleDirectories(root) && Scans(disk, Realpath(disk, root).path, m) ==>
         LinksPlannable(disk, first, m, Realpath(disk, root).path)
  }

  /** Add the stale links of the repository's own modules directories. */
  method PlanLinks(disk: Disk, root: Path, first: set<Path>, canonicalRoot: Path) returns (r: Result<set<Path>, CleanError>)
    requires AllInside(disk, canonicalRoot, first)
    ensures r.Success? <==> forall m :: m in ModuleDirectories(root) && Scans(disk, canonicalRoot, m) ==>
      LinksPlannable(disk, first, m, canonicalRoot)
    ensures r.Success? ==> forall p :: p in r.value <==> Planned(disk, root, canonicalRoot, first, p)
    ensures r.Success? ==> AllInside(disk, canonicalRoot, r.value)
  {
    var targets, removed, modules := first, RealPaths(disk, first), ModuleDirectories(root);
    for i := 0 to |modules|
      invariant forall p :: p in targets <==> p in first || (LinkOf(disk, canonicalRoot, modules[..i], p) && LinkResidue(disk, first, p))
      invariant AllInside(disk, canonicalRoot, targets)
      invariant forall m :: m in modules[..i] && Scans(disk, canonicalRoot, m) ==> LinksPlannable(disk, first, m, canonicalRoot)
    {
      assert modules[..i + 1] == modules[..i] + [modules[i]];
      if Scans(disk, canonicalRoot, modules[i]) {
        var more := StaleLinksIn(disk, targets, removed, modules[i], canonicalRoot, first);
        if more.Failure? {
          return Failure(more.error);
        }
        targets := more.value;
      }
    }
    assert modules[..|modules|] == modules;
    r := Success(targets);
  }

  /** Plan every deletion before the first one is made. */
  method Plan(disk: Disk, root: Path, configs: map<Path, Config>)
    returns (r: Result<seq<Path>, CleanError>, ghost first: set<Path>)
    ensures r.Success? ==> IsPlan(disk, root, configs, first, set p | p in r.value) && Ordered(r.value) && Distinct(r.value)
    ensures r.Success? <==> Plannable(disk, root, configs, first)
    ensures Realpath(disk, root).At? && CandidatesPlannable(disk, root, configs, Realpath(disk, root).path) ==>
      forall p :: p in first <==> Candidate(disk, root, configs, p)
  {
    first := {};
    var realRoot := Realpath(disk, root);
    if !realRoot.At? {
      return Failure(DiskError(root)), first;
    }
    var canonicalRoot := realRoot.path;
    var candidates, unsafe := PlanCandidates(disk, root, configs, canonicalRoot);
    if candidates.Failure? {
      return Failure(candidates.error), first;
    }
    first := candidates.value;
    var links := PlanLinks(disk, root, candidates.value, canonicalRoot);
    if links.Failure? {
      return Failure(links.error), first;
    }
    if unsafe != [] {
      return Failure(UnsafeOrphans(unsafe)), first;
    }
    var sorted := InOrder(links.value);
    r := Success(sorted);
  }

  // ---------- Deletion ----------

  /** The physical places deleted with some targets. */
  ghost predicate Deletes(disk: Disk, targets: seq<Path>, q: Path) {
    exists d :: d in targets && Present(disk, d) && AtOrBelow(Lstat(disk, d).path, q)
  }

  lemma LstatShrinks(disk: Disk, disk': Disk, p: Path)
    requires Shrinks(disk, disk')
    ensures Lstat(disk, p).At? ==> Lstat(disk', p) in {Lstat(disk, p), Missing}
    ensures Lstat(disk, p) == Missing ==> Lstat(disk', p) == Missing
  {
    if p != [] {
      ShrinkingOnlyLoses(disk, disk', [], Steps(Parent(p)), disk.maxLinks);
    }
  }

  /** An entry at or above the place a path leads to is no link, and is its own real path. */
  lemma AboveTarget(disk: Disk, d: Path, l: Path)
    requires disk.Valid() && Present(disk, d) && Realpath(disk, l).At?
    requires AtOrBelow(Lstat(disk, d).path, Realpath(disk, l).path)
    ensures !disk.nodes[Lstat(disk, d).path].Link? && Realpath(disk, d) == Lstat(disk, d)
  {
    ResolvesToNonLink(disk, [], Steps(l), disk.maxLinks);
    if Lstat(disk, d) != Realpath(disk, l) {
      NothingBelowLink(disk, Lstat(disk, d).path, Realpath(disk, l).path);
    }
    RealpathOfEntry(disk, d);
  }

  /** A link that leads to or below a candidate's place is residue. */
  lemma LeadsBelowCandidate(disk: Disk, first: set<Path>, d: Path, l: Path)
    requires disk.Valid() && Present(disk, d) && Realpath(disk, l).At? && d in first
    requires AtOrBelow(Lstat(disk, d).path, Realpath(disk, l).path)
    ensures LinkResidue(disk, first, l)
  {
    AboveTarget(disk, d, l);
  }

  /** No scanned link has its entry above the place a path leads to. */
  lemma ScannedLinkNotAbove(disk: Disk, root: Path, canonicalRoot: Path, d: Path, l: Path)
    requires disk.Valid() && ScannedLink(disk, root, canonicalRoot, d) && Realpath(disk, l).At?
    ensures Present(disk, d) && !AtOrBelow(Lstat(disk, d).path, Realpath(disk, l).path)
  {
    var m :| m in ModuleDirectories(root) && Scans(disk, canonicalRoot, m) && IsModuleLink(disk, m, d);
    ModuleLinkIsThere(disk, m, d);
    if AtOrBelow(Lstat(disk, d).path, Realpath(disk, l).path) {
      AboveTarget(disk, d, l);
    }
  }

  /** A link that is not planned leads to a place no planned deletion touches. */
  lemma KeptTargetUntouched(disk: Disk, root: Path, configs: map<Path, Config>, first: set<Path>, targets: seq<Path>, l: Path)
    requires disk.Valid() && IsPlan(disk, root, configs, first, set p | p in targets)
    requires ScannedLink(disk, root, Realpath(disk, root).path, l) && l !in targets
    ensures Realpath(disk, l).At? && !Deletes(disk, targets, Realpath(disk, l).path)
  {
    var croot := Realpath(disk, root).path;
    assert !Planned(disk, root, croot, first, l) by {
      assert l !in (set p | p in targets);
    }
    forall d | d in targets && Present(disk, d) ensures !AtOrBelow(Lstat(disk, d).path, Realpath(disk, l).path) {
      assert d in (set p | p in targets);
      assert Planned(disk, root, croot, first, d);
      if d !in first {
        ScannedLinkNotAbove(disk, root, croot, d, l);
      } else if AtOrBelow(Lstat(disk, d).path, Realpath(disk, l).path) {
        LeadsBelowCandidate(disk, first, d, l);
      }
    }
  }

  // ---------- Which planned places go ----------

  /** The physical paths looked at on the way to an entry. */
  function Approach(disk: Disk, p: Path): set<Path> {
    Trodden(disk, [], Steps(Parent(p)), disk.maxLinks)
  }

  /** Some path lies at or below one of the places. */
  ghost predicate Cut(places: seq<Path>, paths: set<Path>) {
    exists place, q :: place in places && q in paths && AtOrBelow(place, q)
  }

  /**
   The places that go when the targets are removed in order, worked out before any is removed: that of every target
   which is not lost, or reached through what is lost, by the time its turn comes.
   */
  ghost function Effective(disk: Disk, targets: seq<Path>): seq<Path> {
    if targets == [] then []
    else
      var before, d := Effective(disk, targets[..|targets| - 1]), targets[|targets| - 1];
      if Present(disk, d) && !Cut(before, Approach(disk, d) + {Lstat(disk, d).path}) then before + [Lstat(disk, d).path] else before
  }

  /** The disk without the places and all below them. */
  ghost predicate Without(disk: Disk, places: seq<Path>, disk': Disk) {
    && disk'.maxLinks == disk.maxLinks
    && disk'.nodes.Keys == (set q | q in disk.nodes && !Cut(places, {q}))
    && forall q :: q in disk'.nodes ==> disk'.nodes[q] == disk.nodes[q]
  }

  lemma CutOne(places: seq<Path>, q: Path)
    ensures Cut(places, {q}) <==> exists place :: place in places && AtOrBelow(place, q)
  {
    if place :| place in places && AtOrBelow(place, q) {
      assert q in {q};
    }
  }

  /** All that a walk which succeeds looks at is there. */
  lemma {:induction false} TroddenIsThere(disk: Disk, at: Path, steps: seq<Step>, hops: nat)
    requires Resolve(disk, at, steps, hops).At?
    ensures Trodden(disk, at, steps, hops) <= disk.nodes.Keys
    decreases hops, |steps|
  {
    if steps != [] {
      match steps[0] {
        case Up => TroddenIsThere(disk, Parent(at), steps[1..], hops);
        case Into(name) =>
          var next := at + [name];
          if !disk.nodes[next].Link? {
            TroddenIsThere(disk, next, steps[1..], hops);
          } else {
            TroddenIsThere(disk, if disk.nodes[next].absolute then [] else at, disk.nodes[next].steps + steps[1..], hops - 1);
          }
      }
    }
  }

  lemma WithoutShrinks(disk: Disk, places: seq<Path>, disk': Disk)
    requires Without(disk, places, disk')
    ensures Shrinks(disk, disk')
  {
  }

  lemma KeptIffNotCut(disk: Disk, places: seq<Path>, disk': Disk, paths: set<Path>)
    requires Without(disk, places, disk') && paths <= disk.nodes.Keys
    ensures paths <= disk'.nodes.Keys <==> !Cut(places, paths)
  {
    if Cut(places, paths) {
      var place, q :| place in places && q in paths && AtOrBelow(place, q);
      CutOne(places, q);
    } else {
      forall q | q in paths ensures q in disk'.nodes {
        CutOne(places, q);
      }
    }
  }

  /** An entry is found after the deletions exactly when neither it nor its approach is cut. */
  lemma FoundIffNotCut(disk: Disk, places: seq<Path>, disk': Disk, d: Path)
    requires Without(disk, places, disk') && Present(disk, d) && d != []
    ensures Lstat(disk', d) == if Cut(places, Approach(disk, d) + {Lstat(disk, d).path}) then Missing else Lstat(disk, d)
  {
    WithoutShrinks(disk, places, disk');
    ShrinkingOnlyLoses(disk, disk', [], Steps(Parent(d)), disk.maxLinks);
    StillResolvesIff(disk, disk', [], Steps(Parent(d)), disk.maxLinks);
    TroddenIsThere(disk, [], Steps(Parent(d)), disk.maxLinks);
    var approach, place := Approach(disk, d), Lstat(disk, d).path;
    KeptIffNotCut(disk, places, disk', approach);
    KeptIffNotCut(disk, places, disk', {place});
    CutUnion(places, approach, {place});
  }

  lemma CutUnion(places: seq<Path>, a: set<Path>, b: set<Path>)
    ensures Cut(places, a + b) <==> Cut(places, a) || Cut(places, b)
  {
    if Cut(places, a) {
      var place, q :| place in places && q in a && AtOrBelow(place, q);
      assert q in a + b;
    }
    if Cut(places, b) {
      var place, q :| place in places && q in b && AtOrBelow(place, q);
      assert q in a + b;
    }
  }

  lemma CutSnoc(places: seq<Path>, place: Path, q: Path)
    ensures Cut(places + [place], {q}) <==> Cut(places, {q}) || AtOrBelow(place, q)
  {
    CutOne(places, q);
    CutOne(places + [place], q);
    assert forall x :: x in places + [place] <==> x in places || x == place;
  }

  /** One removal takes away the next effective place. */
  lemma RemoveNext(disk: Disk, targets: seq<Path>, i: nat, disk': Disk)
    requires i < |targets| && targets[i] != [] && Present(disk, targets[i])
    requires Without(disk, Effective(disk, targets[..i]), disk')
    ensures Without(disk, Effective(disk, targets[..i + 1]), Remove(disk', targets[i]))
  {
    var before, d := Effective(disk, targets[..i]), targets[i];
    assert targets[..i + 1][..i] == targets[..i];
    FoundIffNotCut(disk, before, disk', d);
    if !Cut(before, Approach(disk, d) + {Lstat(disk, d).path}) {
      forall q ensures Cut(before + [Lstat(disk, d).path], {q}) <==> Cut(before, {q}) || AtOrBelow(Lstat(disk, d).path, q) {
        CutSnoc(before, Lstat(disk, d).path, q);
      }
    }
  }

  lemma {:induction false} EffectiveIsPlanned(disk: Disk, targets: seq<Path>, place: Path) returns (d: Path)
    requires place in Effective(disk, targets)
    ensures d in targets && Present(disk, d) && Lstat(disk, d).path == place
  {
    var n := |targets| - 1;
    if place in Effective(disk, targets[..n]) {
      d := EffectiveIsPlanned(disk, targets[..n], place);
    } else {
      d := targets[n];
    }
  }

  /** The target is reached through the place of another, without lying there itself. */
  ghost predicate ReachedThrough(disk: Disk, d: Path, e: Path)
    requires Present(disk, d) && Present(disk, e)
  {
    Cut([Lstat(disk, e).path], Approach(disk, d)) && !AtOrBelow(Lstat(disk, e).path, Lstat(disk, d).path)
  }

  /** No target is reached through another's place. */
  ghost predicate Independent(disk: Disk, targets: seq<Path>) {
    forall d, e :: d in targets && e in targets && Present(disk, d) && Present(disk, e) ==> !ReachedThrough(disk, d, e)
  }

  /** Then every planned place goes. */
  lemma {:induction false} IndependentPlacesGo(disk: Disk, targets: seq<Path>, d: Path)
    requires Independent(disk, targets) && d in targets && Present(disk, d)
    ensures Cut(Effective(disk, targets), {Lstat(disk, d).path})
  {
    var n := |targets| - 1;
    var front, last, before := targets[..n], targets[n], Effective(disk, targets[..n]);
    assert targets == front + [last];
    var place := Lstat(disk, d).path;
    assert place in {place};
    if d in front {
      IndependentPlacesGo(disk, front, d);
      CutMore(before, Effective(disk, targets), {place});
    } else if Cut(before, {place}) {
      CutMore(before, Effective(disk, targets), {place});
    } else {
      NotReachedThrough(disk, targets, front, d);
      CutUnion(before, Approach(disk, d), {place});
      assert Effective(disk, targets) == before + [place];
      assert place in before + [place] && AtOrBelow(place, place);
    }
  }

  lemma NotReachedThrough(disk: Disk, targets: seq<Path>, front: seq<Path>, d: Path)
    requires Independent(disk, targets) && d in targets && Present(disk, d) && forall e :: e in front ==> e in targets
    requires !Cut(Effective(disk, front), {Lstat(disk, d).path})
    ensures !Cut(Effective(disk, front), Approach(disk, d))
  {
    var before := Effective(disk, front);
    if Cut(before, Approach(disk, d)) {
      var top, q :| top in before && q in Approach(disk, d) && AtOrBelow(top, q);
      var e := EffectiveIsPlanned(disk, front, top);
      assert top in [top];
      assert Cut([top], Approach(disk, d));
      assert !ReachedThrough(disk, d, e);
      CutOne(before, Lstat(disk, d).path);
      assert false;
    }
  }

  lemma CutMore(a: seq<Path>, b: seq<Path>, paths: set<Path>)
    requires Cut(a, paths) && forall x :: x in a ==> x in b
    ensures Cut(b, paths)
  {
    var place, q :| place in a && q in paths && AtOrBelow(place, q);
    assert place in b;
  }

  lemma PlacesCut(disk: Disk, targets: seq<Path>, d: Path)
    requires Independent(disk, targets) && d in targets && Present(disk, d)
    ensures exists top :: top in Effective(disk, targets) && AtOrBelow(top, Lstat(disk, d).path)
  {
    IndependentPlacesGo(disk, targets, d);
    CutOne(Effective(disk, targets), Lstat(disk, d).path);
  }

  // ---------- What the links lead to afterwards ----------

  /** All that is walked through to follow the path. */
  function WalkedThrough(disk: Disk, p: Path): set<Path> {
    Trodden(disk, [], Steps(p), disk.maxLinks)
  }

  /** A path still leads where it led exactly when nothing it walks through goes, and otherwise leads nowhere. */
  lemma LeadsOnIff(disk: Disk, disk': Disk, targets: seq<Path>, p: Path)
    requires Without(disk, Effective(disk, targets), disk') && Realpath(disk, p).At?
    ensures Realpath(disk', p) == if Cut(Effective(disk, targets), WalkedThrough(disk, p)) then Missing else Realpath(disk, p)
  {
    WithoutShrinks(disk, Effective(disk, targets), disk');
    ShrinkingOnlyLoses(disk, disk', [], Steps(p), disk.maxLinks);
    StillResolvesIff(disk, disk', [], Steps(p), disk.maxLinks);
    TroddenIsThere(disk, [], Steps(p), disk.maxLinks);
    KeptIffNotCut(disk, Effective(disk, targets), disk', WalkedThrough(disk, p));
  }

  /** Something the path walks through lies at or below a planned place. */
  ghost predicate ThroughPlanned(disk: Disk, targets: seq<Path>, p: Path) {
    exists d, q :: d in targets && Present(disk, d) && q in WalkedThrough(disk, p) && AtOrBelow(Lstat(disk, d).path, q)
  }

  /**
   A path that walks through no planned place still leads where it led. One that does leads nowhere, if no target is
   reached through another's place; otherwise its place may have stayed.
   */
  lemma LeadsOnExactly(disk: Disk, disk': Disk, targets: seq<Path>, p: Path)
    requires Without(disk, Effective(disk, targets), disk') && Realpath(disk, p).At?
    ensures !ThroughPlanned(disk, targets, p) ==> Realpath(disk', p) == Realpath(disk, p)
    ensures Independent(disk, targets) && ThroughPlanned(disk, targets, p) ==> Realpath(disk', p) == Missing
  {
    LeadsOnIff(disk, disk', targets, p);
    if Cut(Effective(disk, targets), WalkedThrough(disk, p)) {
      var top, q :| top in Effective(disk, targets) && q in WalkedThrough(disk, p) && AtOrBelow(top, q);
      var d := EffectiveIsPlanned(disk, targets, top);
    } else if Independent(disk, targets) && ThroughPlanned(disk, targets, p) {
      var d, q :| d in targets && Present(disk, d) && q in WalkedThrough(disk, p) && AtOrBelow(Lstat(disk, d).path, q);
      PlacesCut(disk, targets, d);
      var top :| top in Effective(disk, targets) && AtOrBelow(top, Lstat(disk, d).path);
      assert AtOrBelow(top, q);
      assert Cut(Effective(disk, targets), WalkedThrough(disk, p));
      assert false;
    }
  }

  /** The targets are gone, and exactly the effective places with all below them. */
  ghost predicate Cleaned(before: Disk, after: Disk, targets: seq<Path>) {
    && Without(before, Effective(before, targets), after)
    && forall d :: d in targets ==> Lstat(after, d) == Missing
  }

  /** Everything that is gone lay strictly inside the canonical root. */
  ghost predicate OnlyInsideGone(before: Disk, after: Disk, canonicalRoot: Path) {
    forall q :: q in before.nodes && q !in after.nodes ==> IsDescendant(canonicalRoot, q)
  }

  /**
   Every scanned link that was kept led somewhere that is still there, and still leads there exactly when it walks
   through nothing that goes.
   */
  ghost predicate KeptLinksLead(before: Disk, after: Disk, root: Path, targets: seq<Path>) {
    Realpath(before, root).At? &&
    forall l :: ScannedLink(before, root, Realpath(before, root).path, l) && l !in targets ==>
      && Realpath(before, l).At? && Realpath(before, l).path in after.nodes
      && Realpath(after, l) == if Cut(Effective(before, targets), WalkedThrough(before, l)) then Missing else Realpath(before, l)
  }

  lemma GoneIsPlanned(before: Disk, after: Disk, targets: seq<Path>, q: Path)
    requires Cleaned(before, after, targets) && q in before.nodes && q !in after.nodes
    ensures Deletes(before, targets, q)
  {
    CutOne(Effective(before, targets), q);
    var place :| place in Effective(before, targets) && AtOrBelow(place, q);
    var d := EffectiveIsPlanned(before, targets, place);
  }

  lemma DeletedLieInside(before: Disk, after: Disk, canonicalRoot: Path, targets: seq<Path>)
    requires Cleaned(before, after, targets) && AllInside(before, canonicalRoot, set p | p in targets)
    ensures OnlyInsideGone(before, after, canonicalRoot)
  {
    forall q | q in before.nodes && q !in after.nodes ensures IsDescendant(canonicalRoot, q) {
      GoneIsPlanned(before, after, targets, q);
      var d :| d in targets && Present(before, d) && AtOrBelow(Lstat(before, d).path, q);
      TargetIsInside(before, canonicalRoot, targets, d);
      BelowInside(canonicalRoot, Lstat(before, d).path, q);
    }
  }

  lemma TargetIsInside(disk: Disk, canonicalRoot: Path, targets: seq<Path>, d: Path)
    requires AllInside(disk, canonicalRoot, set p | p in targets) && d in targets
    ensures Inside(disk, canonicalRoot, d)
  {
    assert d in (set p | p in targets);
  }

  lemma BelowInside(root: Path, top: Path, p: Path)
    requires IsDescendant(root, top) && AtOrBelow(top, p)
    ensures IsDescendant(root, p)
  {
    DescendantIff(root, top);
    DescendantIff(root, p);
  }

  lemma KeptLinksKeepTargets(before: Disk, after: Disk, root: Path, configs: map<Path, Config>, first: set<Path>, targets: seq<Path>)
    requires before.Valid() && IsPlan(before, root, configs, first, set p | p in targets) && Cleaned(before, after, targets)
    ensures KeptLinksLead(before, after, root, targets)
  {
    forall l | ScannedLink(before, root, Realpath(before, root).path, l) && l !in targets
      ensures Realpath(before, l).At? && Realpath(before, l).path in after.nodes
      ensures Realpath(after, l) == if Cut(Effective(before, targets), WalkedThrough(before, l)) then Missing else Realpath(before, l)
    {
      KeptTargetUntouched(before, root, configs, first, targets, l);
      var t := Realpath(before, l).path;
      if t !in after.nodes {
        GoneIsPlanned(before, after, targets, t);
        assert false;
      }
      LeadsOnIff(before, after, targets, l);
    }
  }

  class RepositoryCleaner {
    const root: Path
    const configs: map<Path, Config>
    var disk: Disk

    constructor (root: Path, configs: map<Path, Config>, disk: Disk)
      ensures this.root == root && this.configs == configs && this.disk == disk
    {
      this.root, this.configs, this.disk := root, configs, disk;
    }

    /** Remove the targets one after another; a target that went with an earlier one is ignored. */
    method RemoveAll(targets: seq<Path>)
      requires forall d :: d in targets ==> Present(disk, d) && d != []
      modifies this
      ensures Cleaned(old(disk), disk, targets)
    {
      for i := 0 to |targets|
        invariant Without(old(disk), Effective(old(disk), targets[..i]), disk)
        invariant forall d :: d in targets[..i] ==> Lstat(disk, d) == Missing
      {
        ghost var before := disk;
        assert targets[i] in targets;
        WithoutShrinks(old(disk), Effective(old(disk), targets[..i]), before);
        LstatShrinks(old(disk), before, targets[i]);
        RemoveNext(old(disk), targets, i, before);
        disk := Remove(disk, targets[i]);
        RemoveGone(before, targets[i]);
        forall d | d in targets[..i + 1] ensures Lstat(disk, d) == Missing {
          LstatShrinks(before, disk, d);
        }
      }
      assert targets[..|targets|] == targets;
    }

    /**
     Clean the repository. A refused plan deletes nothing; otherwise exactly the planned places are gone or were below
     one that is, all strictly inside the canonical root, and every scanned link that is kept has its target kept.
     */
    method Clean() returns (r: Result<seq<Path>, CleanError>, ghost first: set<Path>)
      requires disk.Valid()
      modifies this
      ensures r.Success? <==> Plannable(old(disk), root, configs, first)
      ensures r.Failure? ==> disk == old(disk)
      ensures r.Success? ==> IsPlan(old(disk), root, configs, first, set p | p in r.value) && Ordered(r.value) && Distinct(r.value)
      ensures r.Success? ==> Cleaned(old(disk), disk, r.value)
      ensures r.Success? ==> OnlyInsideGone(old(disk), disk, Realpath(old(disk), root).path)
      ensures r.Success? ==> KeptLinksLead(old(disk), disk, root, r.value)
    {
      r, first := Plan(disk, root, configs);
      if r.Failure? {
        return;
      }
      var targets := r.value;
      forall d | d in targets ensures Present(disk, d) && d != [] {
        TargetIsInside(disk, Realpath(disk, root).path, targets, d);
        DescendantIff(Realpath(disk, root).path, Lstat(disk, d).path);
      }
      RemoveAll(targets);
      DeletedLieInside(old(disk), disk, Realpath(old(disk), root).path, targets);
      KeptLinksKeepTargets(old(disk), disk, root, configs, first, targets);
    }
  }

  lemma RemoveGone(disk: Disk, p: Path)
    requires !Lstat(disk, p).Refused?
    ensures Shrinks(disk, Remove(disk, p)) && Lstat(Remove(disk, p), p) == Missing
  {
    LstatShrinks(disk, Remove(disk, p), p);
  }
}
