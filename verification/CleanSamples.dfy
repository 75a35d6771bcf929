/** Two small repositories: one where a kept link dangles after cleaning, and one where a planned place stays. */
module CleanSamples {
  import opened Outcomes
  import opened TextOrder
  import opened Clean

  const ROOT: Path := ["repo"]
  const TSCONFIG: Path := ["repo", "tsconfig.json"]
  const LIB: Path := ["repo", "lib"]
  const SRC: Path := ["repo", "src"]
  const MODULES: Path := ["repo", "node_modules"]
  const DETOUR: Path := ["repo", "node_modules", "x"]

  /** A built project whose module link `x` leads through its output: `../lib/../src`. */
  function Built(): Disk {
    Disk(map[[] := Directory, ["repo"] := Directory, ["repo", "lib"] := Directory, ["repo", "src"] := Directory,
             ["repo", "node_modules"] := Directory,
             ["repo", "node_modules", "x"] := Link(false, [Up, Into("lib"), Up, Into("src")])], 40)
  }

  function Configs(): map<Path, Config> {
    map[["repo", "tsconfig.json"] := Config(Some(["repo", "lib", "types"]), [])]
  }

  lemma StepInto(disk: Disk, at: Path, name: Name, rest: seq<Step>, hops: nat)
    requires at in disk.nodes && disk.nodes[at] == Directory
    ensures at + [name] !in disk.nodes ==> Resolve(disk, at, [Into(name)] + rest, hops) == Missing
    ensures at + [name] in disk.nodes && !disk.nodes[at + [name]].Link? ==>
      Resolve(disk, at, [Into(name)] + rest, hops) == Resolve(disk, at + [name], rest, hops)
  {
    assert ([Into(name)] + rest)[1..] == rest;
  }

  predicate Rooted(disk: Disk) {
    && [] in disk.nodes && disk.nodes[[]] == Directory
    && ["repo"] in disk.nodes && disk.nodes[["repo"]] == Directory
  }

  /** From the repository's root. */
  lemma InRepository(disk: Disk, p: Path)
    requires Rooted(disk) && p != [] && p[0] == "repo"
    ensures Realpath(disk, p) == Resolve(disk, ["repo"], Steps(p[1..]), disk.maxLinks)
  {
    assert Steps(p) == [Into("repo")] + Steps(p[1..]);
    assert [] + ["repo"] == ["repo"];
    StepInto(disk, [], "repo", Steps(p[1..]), disk.maxLinks);
  }

  lemma RealRoot()
    ensures Realpath(Built(), ROOT) == At(ROOT)
  {
    InRepository(Built(), ROOT);
    assert Steps(ROOT[1..]) == [];
  }

  /** One name below the root, and what follows it. */
  lemma BelowRoot(name: Name, rest: Path)
    ensures var p := ["repo", name] + rest;
      if name in {"lib", "src", "node_modules"} then Realpath(Built(), p) == Resolve(Built(), ["repo", name], Steps(rest), 40)
      else Realpath(Built(), p) == Missing
  {
    var p := ["repo", name] + rest;
    InRepository(Built(), p);
    assert Steps(p[1..]) == [Into(name)] + Steps(rest);
    assert ["repo"] + [name] == ["repo", name];
    StepInto(Built(), ["repo"], name, Steps(rest), 40);
  }

  lemma RealBelowRoot(name: Name)
    ensures Realpath(Built(), ["repo", name]) == if name in {"lib", "src", "node_modules"} then At(["repo", name]) else Missing
  {
    BelowRoot(name, []);
    assert ["repo", name] + [] == ["repo", name];
  }

  lemma RealDetour()
    ensures Realpath(Built(), DETOUR) == At(SRC)
    ensures LIB in WalkedThrough(Built(), DETOUR)
  {
    var disk, detour := Built(), [Up, Into("lib"), Up, Into("src")];
    BelowRoot("node_modules", ["x"]);
    assert ["repo", "node_modules"] + ["x"] == DETOUR;
    assert Steps(["x"]) == [Into("x")] && [Into("x")][1..] == [] && detour + [] == detour;
    assert detour[1..] == [Into("lib"), Up, Into("src")] && detour[1..][1..] == [Up, Into("src")];
    assert detour[1..][1..][1..] == [Into("src")] && [Into("src")][1..] == [];
    assert ["repo"] + ["lib"] == LIB && ["repo"] + ["src"] == SRC;
    assert Parent(MODULES) == ["repo"] && Parent(LIB) == ["repo"];
    assert Resolve(disk, SRC, [], 39) == At(SRC);
    assert Resolve(disk, ["repo"], [Into("src")], 39) == At(SRC);
    assert Resolve(disk, LIB, [Up, Into("src")], 39) == At(SRC);
    assert Resolve(disk, ["repo"], [Into("lib"), Up, Into("src")], 39) == At(SRC);
    assert Resolve(disk, MODULES, detour, 39) == At(SRC);
    assert LIB in Trodden(disk, LIB, [Up, Into("src")], 39);
    assert LIB in Trodden(disk, ["repo"], [Into("lib"), Up, Into("src")], 39);
    assert LIB in Trodden(disk, MODULES, detour, 39);
    assert LIB in Trodden(disk, MODULES, [Into("x")], 40);
    TroddenDetour();
  }

  lemma TroddenDetour()
    requires LIB in Trodden(Built(), MODULES, [Into("x")], 40)
    ensures LIB in WalkedThrough(Built(), DETOUR)
  {
    var disk := Built();
    assert Steps(DETOUR) == [Into("repo"), Into("node_modules"), Into("x")];
    assert Steps(DETOUR)[1..] == [Into("node_modules"), Into("x")] && Steps(DETOUR)[1..][1..] == [Into("x")];
    assert [] + ["repo"] == ["repo"] && ["repo"] + ["node_modules"] == MODULES;
    assert LIB in Trodden(disk, ["repo"], [Into("node_modules"), Into("x")], 40);
  }

  // ---------- Its plan ----------

  lemma EntriesOfRoot(name: Name)
    ensures Entry(Built(), ROOT, name) == if name in {"lib", "src", "node_modules"} then Some(Directory) else None
  {
    RealRoot();
    assert ROOT + [name] == ["repo", name];
  }

  lemma EntriesOfModules(name: Name)
    ensures Entry(Built(), MODULES, name) == if name == "x" then Some(Built().nodes[DETOUR]) else None
  {
    RealBelowRoot("node_modules");
    assert MODULES + [name] == ["repo", "node_modules", name];
  }

  lemma NothingAt(dir: Path, name: Name)
    requires Realpath(Built(), dir) == Missing || (dir == ROOT && name !in {"lib", "src", "node_modules"})
    ensures Lstat(Built(), dir + [name]) == Missing
  {
    RealRoot();
    assert Parent(dir + [name]) == dir && (dir + [name])[|dir|] == name;
    assert dir == ROOT ==> dir + [name] == ["repo", name];
  }

  lemma NoFixedOutput(p: Path)
    requires p in FixedOutputs(ROOT)
    ensures Lstat(Built(), p) == Missing
  {
    if p == ROOT + [".dsh-build"] {
      NothingAt(ROOT, ".dsh-build");
    } else if p == ROOT + [".typecheck"] {
      NothingAt(ROOT, ".typecheck");
    } else if p == ROOT + ["apps", "desktop", ".desktop-build"] {
      BelowRoot("apps", ["desktop"]);
      NothingAt(["repo", "apps"] + ["desktop"], ".desktop-build");
      assert p == (["repo", "apps"] + ["desktop"]) + [".desktop-build"];
    } else {
      BelowRoot("native", ["system"]);
      NothingAt(["repo", "native"] + ["system"], "tsconfig.tsbuildinfo");
      assert p == (["repo", "native"] + ["system"]) + ["tsconfig.tsbuildinfo"];
    }
  }

  lemma FirstStep(configs: map<Path, Config>, trail: seq<Path>)
    requires Trail(configs, trail) && |trail| > 1
    ensures trail[0] in configs && trail[1] in configs[trail[0]].references
  {
    assert trail[0 + 1] == trail[1];
  }

  lemma OnlyLibIsLive(o: Path)
    ensures LiveOutput(ROOT, Configs(), o) <==> o == LIB
    ensures forall p :: Reachable(Configs(), ROOT + ["tsconfig.json"], p) ==> Sound(ROOT, Configs(), p)
  {
    assert ROOT + ["tsconfig.json"] == TSCONFIG;
    assert Parent(["repo", "lib", "types"]) == LIB;
    assert Trail(Configs(), [TSCONFIG]);
    assert Reachable(Configs(), TSCONFIG, TSCONFIG) && Emits(ROOT, Configs(), TSCONFIG, LIB);
    DescendantIff(ROOT, LIB);
    forall p | Reachable(Configs(), TSCONFIG, p) ensures p == TSCONFIG {
      var trail :| Trail(Configs(), trail) && trail[0] == TSCONFIG && trail[|trail| - 1] == p;
      assert |trail| == 1 by {
        assert Configs()[TSCONFIG].references == [];
        if |trail| > 1 {
          FirstStep(Configs(), trail);
          assert false;
        }
      }
    }
  }

  lemma NoPackages(d: Path)
    ensures Listable(Built(), ROOT + ["packages"]) && !IsChildDirectory(Built(), ROOT + ["packages"], d)
  {
    RealBelowRoot("packages");
    assert ROOT + ["packages"] == ["repo", "packages"];
  }

  lemma LibIsPresent()
    ensures Lstat(Built(), LIB) == At(LIB) && Inside(Built(), ROOT, LIB)
  {
    RealRoot();
    assert Parent(LIB) == ROOT && ROOT + ["lib"] == LIB;
    DescendantIff(ROOT, LIB);
  }

  lemma OnlyLibIsCandidate(p: Path)
    ensures Candidate(Built(), ROOT, Configs(), p) <==> p == LIB
  {
    OnlyLibIsLive(p);
    LibIsPresent();
    if p in FixedOutputs(ROOT) {
      NoFixedOutput(p);
    }
    if |p| == |ROOT| + 1 && ROOT <= p {
      EntriesOfRoot(p[|ROOT|]);
    }
    NoPackages(Parent(p));
  }

  lemma FixedMayGo()
    ensures forall p :: p in FixedOutputs(ROOT) ==> MayAdd(Built(), ROOT, p)
  {
    forall p | p in FixedOutputs(ROOT) ensures MayAdd(Built(), ROOT, p) {
      NoFixedOutput(p);
    }
  }

  lemma LiveMayGo()
    ensures forall o :: LiveOutput(ROOT, Configs(), o) ==> MayAdd(Built(), ROOT, o)
    ensures forall p :: Reachable(Configs(), ROOT + ["tsconfig.json"], p) ==> Sound(ROOT, Configs(), p)
  {
    LibIsPresent();
    OnlyLibIsLive(LIB);
    forall o | LiveOutput(ROOT, Configs(), o) ensures MayAdd(Built(), ROOT, o) {
      OnlyLibIsLive(o);
    }
  }

  lemma PackagesMayGo()
    ensures PackagesListable(Built(), ROOT)
    ensures forall d :: !IsPackageDirectory(Built(), ROOT, d)
  {
    NoPackages([]);
    forall d ensures !IsChildDirectory(Built(), ROOT + ["packages"], d) {
      NoPackages(d);
    }
  }

  lemma CandidatesMayGo()
    ensures CandidatesPlannable(Built(), ROOT, Configs(), ROOT)
  {
    FixedMayGo();
    LiveMayGo();
    PackagesMayGo();
    RealRoot();
  }

  /** The only scanned link is the detour, and it is no residue. */
  lemma OnlyDetourIsScanned(l: Path)
    ensures ScannedLink(Built(), ROOT, ROOT, l) <==> l == DETOUR
    ensures !LinkResidue(Built(), {LIB}, DETOUR)
  {
    var disk, modules := Built(), ModuleDirectories(ROOT);
    RealBelowRoot("node_modules");
    BelowRoot("node_modules", [".pnpm", "node_modules"]);
    NoPnpm();
    assert modules[0] == MODULES && modules[1] == ["repo", "node_modules"] + [".pnpm", "node_modules"];
    DescendantIff(ROOT, MODULES);
    forall n ensures !IsScope(disk, MODULES, n) && (IsLink(disk, MODULES, n) <==> n == "x") {
      EntriesOfModules(n);
    }
    assert IsModuleLink(disk, MODULES, l) <==> l == DETOUR by {
      assert Parent(DETOUR) == MODULES;
      if |l| == |MODULES| + 1 && Parent(l) == MODULES && l[|l| - 1] == "x" {
        assert l == Parent(l) + ["x"];
      }
    }
    assert MODULES in modules;
    LibIsNoDetour();
  }

  lemma LibIsNoDetour()
    ensures !LinkResidue(Built(), {LIB}, DETOUR)
  {
    RealDetour();
    RealBelowRoot("lib");
    assert LIB[1] != SRC[1];
  }

  lemma NoPnpm()
    ensures Resolve(Built(), MODULES, Steps([".pnpm", "node_modules"]), 40) == Missing
  {
    assert Steps([".pnpm", "node_modules"]) == [Into(".pnpm")] + [Into("node_modules")];
    StepInto(Built(), MODULES, ".pnpm", [Into("node_modules")], 40);
    assert MODULES + [".pnpm"] == ["repo", "node_modules", ".pnpm"];
  }

  lemma LinksMayGo()
    ensures Plannable(Built(), ROOT, Configs(), {LIB})
  {
    var disk := Built();
    RealRoot();
    CandidatesMayGo();
    NoPackages([]);
    forall d ensures !UnsafeOrphan(disk, ROOT, d) {
      NoPackages(Parent(d));
    }
    forall m | m in ModuleDirectories(ROOT) && Scans(disk, ROOT, m) ensures LinksPlannable(disk, {LIB}, m, ROOT) {
      LinksMayGoIn(m);
    }
  }

  lemma LinksMayGoIn(m: Path)
    requires m in ModuleDirectories(ROOT) && Scans(Built(), ROOT, m)
    ensures LinksPlannable(Built(), {LIB}, m, ROOT)
  {
    OnlyModulesIsScanned(m);
    forall n ensures !IsScope(Built(), MODULES, n) {
      EntriesOfModules(n);
    }
    forall l | IsModuleLink(Built(), m, l) ensures !LinkResidue(Built(), {LIB}, l) {
      assert LinkOf(Built(), ROOT, ModuleDirectories(ROOT), l);
      OnlyDetourIsScanned(l);
    }
  }

  lemma OnlyModulesIsScanned(m: Path)
    requires m in ModuleDirectories(ROOT) && Scans(Built(), ROOT, m)
    ensures m == MODULES && Listable(Built(), MODULES)
  {
    RealBelowRoot("node_modules");
    BelowRoot("node_modules", [".pnpm", "node_modules"]);
    NoPnpm();
    assert ModuleDirectories(ROOT)[1] == ["repo", "node_modules"] + [".pnpm", "node_modules"];
  }

  lemma OnlyLibIsPlanned(p: Path)
    ensures Planned(Built(), ROOT, ROOT, {LIB}, p) <==> p == LIB
  {
    OnlyDetourIsScanned(p);
  }

  lemma LibIsThePlan()
    ensures IsPlan(Built(), ROOT, Configs(), {LIB}, set p | p in [LIB])
  {
    RealRoot();
    LibIsPresent();
    assert (set p | p in [LIB]) == {LIB};
    forall p ensures Candidate(Built(), ROOT, Configs(), p) <==> p in {LIB} {
      OnlyLibIsCandidate(p);
    }
    forall p ensures Planned(Built(), ROOT, ROOT, {LIB}, p) <==> p in {LIB} {
      OnlyLibIsPlanned(p);
    }
  }

  lemma BuiltIsValid()
    ensures Built().Valid()
  {
    assert Parent(ROOT) == [] && Parent(LIB) == ROOT && Parent(SRC) == ROOT && Parent(MODULES) == ROOT && Parent(DETOUR) == MODULES;
  }

  lemma PlanHolds(disk: Disk, root: Path, configs: map<Path, Config>, first: set<Path>, targets: seq<Path>, p: Path)
    requires IsPlan(disk, root, configs, first, set p | p in targets)
    ensures p in first <==> Candidate(disk, root, configs, p)
    ensures p in targets <==> Planned(disk, root, Realpath(disk, root).path, first, p)
  {
    assert p in targets <==> p in (set q | q in targets);
  }

  lemma FirstIsLib(first: set<Path>, targets: seq<Path>)
    requires IsPlan(Built(), ROOT, Configs(), first, set p | p in targets)
    ensures first == {LIB}
  {
    forall p ensures p in first <==> p == LIB {
      PlanHolds(Built(), ROOT, Configs(), first, targets, p);
      OnlyLibIsCandidate(p);
    }
  }

  lemma SecondDiffers(targets: seq<Path>)
    requires Distinct(targets) && |targets| > 1
    ensures exists x, y :: x in targets && y in targets && x != y
  {
    assert targets[0] in targets && targets[1] in targets && targets[0] != targets[1];
  }

  lemma OnlyOne(targets: seq<Path>, a: Path)
    requires Distinct(targets) && forall p :: p in targets <==> p == a
    ensures targets == [a]
  {
    assert a in targets;
    if |targets| > 1 {
      SecondDiffers(targets);
      assert false;
    }
    assert targets[0] in targets;
  }

  /** Every plan of the repository is the list of its output. */
  lemma PlanIsLib(first: set<Path>, targets: seq<Path>)
    requires IsPlan(Built(), ROOT, Configs(), first, set p | p in targets) && Distinct(targets)
    ensures first == {LIB} && targets == [LIB]
  {
    RealRoot();
    FirstIsLib(first, targets);
    forall p ensures p in targets <==> p == LIB {
      PlanHolds(Built(), ROOT, Configs(), first, targets, p);
      OnlyLibIsPlanned(p);
    }
    OnlyOne(targets, LIB);
  }

  /**
   A clean run that leaves a kept link dangling: the only planned place is the output, the module link leads to a source
   directory that stays, and yet afterwards it leads nowhere, because its way there went through the output.
   */
  lemma KeptLinkDangles(first: set<Path>, targets: seq<Path>, after: Disk)
    requires IsPlan(Built(), ROOT, Configs(), first, set p | p in targets) && Distinct(targets)
    requires Cleaned(Built(), after, targets)
    ensures Built().Valid() && Plannable(Built(), ROOT, Configs(), first)
    ensures ScannedLink(Built(), ROOT, ROOT, DETOUR) && DETOUR !in targets
    ensures Realpath(Built(), DETOUR) == At(SRC) && SRC in after.nodes
    ensures Realpath(after, DETOUR) == Missing
  {
    BuiltIsValid();
    PlanIsLib(first, targets);
    LinksMayGo();
    OnlyDetourIsScanned(DETOUR);
    RealDetour();
    RealRoot();
    LibIsPresent();
    KeptLinksKeepTargets(Built(), after, ROOT, Configs(), {LIB}, [LIB]);
    LibIsIndependent();
    assert [LIB][0] == LIB && LIB in [LIB] && AtOrBelow(LIB, LIB);
    assert ThroughPlanned(Built(), [LIB], DETOUR);
    LeadsOnExactly(Built(), after, [LIB], DETOUR);
  }

  lemma LibIsIndependent()
    ensures Independent(Built(), [LIB])
  {
    LibIsPresent();
  }

  // ---------- A target reached through another ----------

  const STATE: Path := ["repo", ".dsh-build"]
  const OUTPUT: Path := ["repo", ".dsh-build", "lib"]
  const STORE: Path := ["repo", "out"]
  const STORED: Path := ["repo", "out", "lib"]

  /** A project whose build state is kept elsewhere: `.dsh-build` is a link to `out`, and an output lies below it. */
  function Linked(): Disk {
    Disk(map[[] := Directory, ["repo"] := Directory, ["repo", ".dsh-build"] := Link(false, [Into("out")]),
             ["repo", "out"] := Directory, ["repo", "out", "lib"] := Directory], 40)
  }

  function LinkedConfigs(): map<Path, Config> {
    map[["repo", "tsconfig.json"] := Config(Some(["repo", ".dsh-build", "lib", "types"]), [])]
  }

  lemma LinkedRoot()
    ensures Realpath(Linked(), ROOT) == At(ROOT)
  {
    InRepository(Linked(), ROOT);
    assert Steps(ROOT[1..]) == [];
  }

  /** Nothing else lies in the repository. */
  lemma LinkedBelowRoot(name: Name, rest: Path)
    requires name !in {".dsh-build", "out"}
    ensures Realpath(Linked(), ["repo", name] + rest) == Missing
  {
    var p := ["repo", name] + rest;
    InRepository(Linked(), p);
    assert Steps(p[1..]) == [Into(name)] + Steps(rest);
    assert ["repo"] + [name] == ["repo", name];
    StepInto(Linked(), ["repo"], name, Steps(rest), 40);
  }

  lemma LinkedPlaces()
    ensures Lstat(Linked(), STATE) == At(STATE) && Realpath(Linked(), STATE) == At(STORE)
    ensures Lstat(Linked(), OUTPUT) == At(STORED)
    ensures STATE in Approach(Linked(), OUTPUT)
  {
    var disk := Linked();
    LinkedRoot();
    InRepository(disk, STATE);
    assert Parent(STATE) == ROOT && Parent(OUTPUT) == STATE && ROOT + [".dsh-build"] == STATE;
    assert Steps(STATE[1..]) == [Into(".dsh-build")] && [Into(".dsh-build")][1..] == [];
    assert [Into("out")] + [] == [Into("out")] && [Into("out")][1..] == [] && ROOT + ["out"] == STORE && STORE + ["lib"] == STORED;
    assert Resolve(disk, STORE, [], 39) == At(STORE);
    assert Resolve(disk, ROOT, [Into("out")], 39) == At(STORE);
    assert STATE in Trodden(disk, ROOT, [Into(".dsh-build")], 40);
    assert Steps(STATE) == [Into("repo"), Into(".dsh-build")] && Steps(STATE)[1..] == [Into(".dsh-build")];
    assert [] + ["repo"] == ROOT;
  }

  lemma NothingLinkedAt(dir: Path, name: Name)
    requires Realpath(Linked(), dir) == Missing || (dir == ROOT && name !in {".dsh-build", "out"})
    ensures Lstat(Linked(), dir + [name]) == Missing
  {
    LinkedRoot();
    assert Parent(dir + [name]) == dir && (dir + [name])[|dir|] == name;
    assert dir == ROOT ==> dir + [name] == ["repo", name];
  }

  lemma OnlyStateIsFixed(p: Path)
    requires p in FixedOutputs(ROOT)
    ensures p == STATE || Lstat(Linked(), p) == Missing
  {
    assert ROOT + [".dsh-build"] == STATE;
    if p == ROOT + [".typecheck"] {
      NothingLinkedAt(ROOT, ".typecheck");
    } else if p == ROOT + ["apps", "desktop", ".desktop-build"] {
      LinkedBelowRoot("apps", ["desktop"]);
      NothingLinkedAt(["repo", "apps"] + ["desktop"], ".desktop-build");
      assert p == (["repo", "apps"] + ["desktop"]) + [".desktop-build"];
    } else if p == ROOT + ["native", "system", "tsconfig.tsbuildinfo"] {
      LinkedBelowRoot("native", ["system"]);
      NothingLinkedAt(["repo", "native"] + ["system"], "tsconfig.tsbuildinfo");
      assert p == (["repo", "native"] + ["system"]) + ["tsconfig.tsbuildinfo"];
    }
  }

  lemma OnlyOutputIsLive(o: Path)
    ensures LiveOutput(ROOT, LinkedConfigs(), o) <==> o == OUTPUT
    ensures forall p :: Reachable(LinkedConfigs(), ROOT + ["tsconfig.json"], p) ==> Sound(ROOT, LinkedConfigs(), p)
  {
    var configs := LinkedConfigs();
    assert ROOT + ["tsconfig.json"] == TSCONFIG;
    assert Parent(["repo", ".dsh-build", "lib", "types"]) == OUTPUT;
    assert Trail(configs, [TSCONFIG]);
    assert Reachable(configs, TSCONFIG, TSCONFIG) && Emits(ROOT, configs, TSCONFIG, OUTPUT);
    DescendantIff(ROOT, OUTPUT);
    forall p | Reachable(configs, TSCONFIG, p) ensures p == TSCONFIG {
      var trail :| Trail(configs, trail) && trail[0] == TSCONFIG && trail[|trail| - 1] == p;
      assert |trail| == 1 by {
        assert configs[TSCONFIG].references == [];
        if |trail| > 1 {
          FirstStep(configs, trail);
          assert false;
        }
      }
    }
  }

  lemma BothAreInside()
    ensures Inside(Linked(), ROOT, STATE) && Inside(Linked(), ROOT, OUTPUT)
  {
    LinkedPlaces();
    DescendantIff(ROOT, STATE);
    DescendantIff(ROOT, STORED);
  }

  lemma NoLinkedPackages(d: Path)
    ensures Listable(Linked(), ROOT + ["packages"]) && !IsChildDirectory(Linked(), ROOT + ["packages"], d)
  {
    LinkedBelowRoot("packages", []);
    assert ROOT + ["packages"] == ["repo", "packages"] + [];
  }

  lemma NoLinkedBuildInfo(p: Path)
    ensures !RootBuildInfo(Linked(), ROOT, p)
  {
    LinkedRoot();
  }

  lemma NoModulesScanned(m: Path)
    requires m in ModuleDirectories(ROOT)
    ensures !Scans(Linked(), ROOT, m)
  {
    LinkedBelowRoot("node_modules", []);
    LinkedBelowRoot("node_modules", [".pnpm", "node_modules"]);
    assert ROOT + ["node_modules"] == ["repo", "node_modules"] + [];
    assert ROOT + ["node_modules", ".pnpm", "node_modules"] == ["repo", "node_modules"] + [".pnpm", "node_modules"];
  }

  lemma LinkedCandidates(p: Path)
    ensures Candidate(Linked(), ROOT, LinkedConfigs(), p) <==> p == STATE || p == OUTPUT
  {
    BothAreInside();
    OnlyOutputIsLive(p);
    if p in FixedOutputs(ROOT) {
      OnlyStateIsFixed(p);
    }
    assert FixedOutputs(ROOT)[0] == STATE;
    NoLinkedBuildInfo(p);
    NoLinkedPackages(Parent(p));
  }

  lemma LinkedFixedMayGo()
    ensures forall p :: p in FixedOutputs(ROOT) ==> MayAdd(Linked(), ROOT, p)
  {
    BothAreInside();
    forall p | p in FixedOutputs(ROOT) ensures MayAdd(Linked(), ROOT, p) {
      OnlyStateIsFixed(p);
    }
  }

  lemma LinkedLiveMayGo()
    ensures forall o :: LiveOutput(ROOT, LinkedConfigs(), o) ==> MayAdd(Linked(), ROOT, o)
    ensures forall p :: Reachable(LinkedConfigs(), ROOT + ["tsconfig.json"], p) ==> Sound(ROOT, LinkedConfigs(), p)
  {
    BothAreInside();
    OnlyOutputIsLive(OUTPUT);
    forall o | LiveOutput(ROOT, LinkedConfigs(), o) ensures MayAdd(Linked(), ROOT, o) {
      OnlyOutputIsLive(o);
    }
  }

  lemma LinkedPackagesMayGo()
    ensures PackagesListable(Linked(), ROOT)
    ensures forall d :: !IsPackageDirectory(Linked(), ROOT, d)
  {
    NoLinkedPackages([]);
    forall d ensures !IsChildDirectory(Linked(), ROOT + ["packages"], d) {
      NoLinkedPackages(d);
    }
  }

  lemma LinkedMayGo()
    ensures CandidatesPlannable(Linked(), ROOT, LinkedConfigs(), ROOT)
  {
    LinkedFixedMayGo();
    LinkedLiveMayGo();
    LinkedPackagesMayGo();
    LinkedRoot();
  }

  lemma LinkedIsPlannable(first: set<Path>)
    ensures Plannable(Linked(), ROOT, LinkedConfigs(), first)
  {
    LinkedRoot();
    LinkedMayGo();
    forall d ensures !UnsafeOrphan(Linked(), ROOT, d) {
      NoLinkedPackages(Parent(d));
    }
    forall m | m in ModuleDirectories(ROOT) ensures !Scans(Linked(), ROOT, m) {
      NoModulesScanned(m);
    }
  }

  lemma {:induction false} LongerComesAfter(x: string, y: string)
    requires y != ""
    ensures !AtMost(x + y, x)
  {
    if x != "" {
      assert (x + y)[1..] == x[1..] + y;
      LongerComesAfter(x[1..], y);
    }
  }

  lemma LinkedFirst(first: set<Path>, targets: seq<Path>)
    requires IsPlan(Linked(), ROOT, LinkedConfigs(), first, set p | p in targets)
    ensures first == {STATE, OUTPUT}
  {
    forall p ensures p in first <==> p in {STATE, OUTPUT} {
      PlanHolds(Linked(), ROOT, LinkedConfigs(), first, targets, p);
      LinkedCandidates(p);
    }
  }

  lemma NothingScanned(l: Path)
    ensures !ScannedLink(Linked(), ROOT, ROOT, l)
  {
    forall m | m in ModuleDirectories(ROOT) ensures !Scans(Linked(), ROOT, m) {
      NoModulesScanned(m);
    }
  }

  /** Every plan of the repository is its state link, then the output that is reached through it. */
  lemma PlanIsStateAndOutput(first: set<Path>, targets: seq<Path>)
    requires IsPlan(Linked(), ROOT, LinkedConfigs(), first, set p | p in targets) && Ordered(targets) && Distinct(targets)
    ensures targets == [STATE, OUTPUT]
  {
    LinkedRoot();
    LinkedFirst(first, targets);
    forall p ensures p in targets <==> p == STATE || p == OUTPUT {
      PlanHolds(Linked(), ROOT, LinkedConfigs(), first, targets, p);
      NothingScanned(p);
    }
    OutputComesAfter();
    TwoInOrder(targets, STATE, OUTPUT);
  }

  lemma OutputComesAfter()
    ensures !AtMost(PathText(OUTPUT), PathText(STATE))
  {
    assert OUTPUT[..2] == STATE;
    assert PathText(OUTPUT) == PathText(STATE) + ("/" + "lib");
    LongerComesAfter(PathText(STATE), "/" + "lib");
  }

  lemma ThirdDiffers(targets: seq<Path>)
    requires Distinct(targets) && |targets| > 2
    ensures exists x, y, z :: x in targets && y in targets && z in targets && x != y && x != z && y != z
  {
    assert targets[0] in targets && targets[1] in targets && targets[2] in targets;
    assert targets[0] != targets[1] && targets[0] != targets[2] && targets[1] != targets[2];
  }

  lemma TwoInOrder(targets: seq<Path>, a: Path, b: Path)
    requires Distinct(targets) && Ordered(targets) && a != b && !AtMost(PathText(b), PathText(a))
    requires forall p :: p in targets <==> p == a || p == b
    ensures targets == [a, b]
  {
    if |targets| > 2 {
      ThirdDiffers(targets);
      assert false;
    }
    assert a in targets && b in targets;
    var i :| 0 <= i < |targets| && targets[i] == a;
    var k :| 0 <= k < |targets| && targets[k] == b;
  }

  lemma OnlyStateGoes()
    ensures Effective(Linked(), [STATE, OUTPUT]) == [STATE]
    ensures Present(Linked(), STATE) && Present(Linked(), OUTPUT)
    ensures ReachedThrough(Linked(), OUTPUT, STATE)
  {
    LinkedPlaces();
    var both := [STATE, OUTPUT];
    assert both[..1] == [STATE] && [STATE][..0] == [];
    assert !Cut([], Approach(Linked(), STATE) + {STATE});
    assert Effective(Linked(), [STATE]) == [STATE];
    assert STATE in [STATE] && AtOrBelow(STATE, STATE);
    assert Cut([STATE], Approach(Linked(), OUTPUT));
    CutUnion([STATE], Approach(Linked(), OUTPUT), {STORED});
  }

  lemma LinkedIsValid()
    ensures Linked().Valid()
  {
    assert Parent(ROOT) == [] && Parent(STATE) == ROOT && Parent(STORE) == ROOT && Parent(STORED) == STORE;
  }

  /** A clean run that leaves a planned place standing: the link goes first, so what was to be removed through it stays. */
  lemma PlannedPlaceStays(first: set<Path>, targets: seq<Path>, after: Disk)
    requires IsPlan(Linked(), ROOT, LinkedConfigs(), first, set p | p in targets) && Ordered(targets) && Distinct(targets)
    requires Cleaned(Linked(), after, targets)
    ensures Linked().Valid() && Plannable(Linked(), ROOT, LinkedConfigs(), first)
    ensures OUTPUT in targets && Lstat(Linked(), OUTPUT) == At(STORED) && STORED in after.nodes
    ensures STATE in targets && Present(Linked(), STATE) && ReachedThrough(Linked(), OUTPUT, STATE)
  {
    LinkedIsValid();
    LinkedIsPlannable(first);
    PlanIsStateAndOutput(first, targets);
    LinkedPlaces();
    OnlyStateGoes();
    CutOne([STATE], STORED);
    assert targets[0] == STATE && targets[1] == OUTPUT;
  }

  lemma LinkedPlanned(p: Path)
    ensures Planned(Linked(), ROOT, ROOT, {STATE, OUTPUT}, p) <==> p in {STATE, OUTPUT}
  {
    NothingScanned(p);
  }

  lemma BothAreMembers()
    ensures (set p | p in [STATE, OUTPUT]) == {STATE, OUTPUT} && AllInside(Linked(), ROOT, {STATE, OUTPUT})
  {
    BothAreInside();
  }

  /** Such a plan exists. */
  lemma LinkedHasItsPlan()
    ensures IsPlan(Linked(), ROOT, LinkedConfigs(), {STATE, OUTPUT}, set p | p in [STATE, OUTPUT])
  {
    LinkedRoot();
    BothAreMembers();
    forall p ensures Candidate(Linked(), ROOT, LinkedConfigs(), p) <==> p in {STATE, OUTPUT} {
      LinkedCandidates(p);
    }
    forall p ensures Planned(Linked(), ROOT, ROOT, {STATE, OUTPUT}, p) <==> p in {STATE, OUTPUT} {
      LinkedPlanned(p);
    }
  }
}
