/**
 What a plan of the cleaner holds and what refuses it, with every path and name spelled out: build state at fixed places,
 the outputs of reachable configs, packages that hold nothing but residue, and module links that lead nowhere or into one
 of these. A live package and the links to it stay.
 */
module CleanPlan {
  import opened Outcomes
  import opened Clean

  // ---------- Build state and outputs ----------

  ghost predicate AtFixedPlace(root: Path, p: Path) {
    || p == root + [".dsh-build"]
    || p == root + ["apps", "desktop", ".desktop-build"]
    || p == root + [".typecheck"]
    || p == root + ["native", "system", "tsconfig.tsbuildinfo"]
  }

  ghost predicate IsBuildInfo(name: Name) {
    exists stem: string :: name == stem + ".tsbuildinfo"
  }

  /** The config emits into `p/types`, or `p` is the one output directory that has no `types` of its own. */
  ghost predicate EmitsInto(root: Path, configs: map<Path, Config>, config: Path, p: Path) {
    && config in configs
    && (configs[config].outDir == Some(p + ["types"])
        || (configs[config].outDir == Some(p) && p == root + ["native", "system", "packages", "entry", "lib"]))
  }

  ghost predicate IsConfigOutput(root: Path, configs: map<Path, Config>, p: Path) {
    exists config :: Reachable(configs, root + ["tsconfig.json"], config) && EmitsInto(root, configs, config, p)
  }

  /** A directory two levels below `packages`, and no directory on the way is a link. */
  ghost predicate IsPackage(disk: Disk, root: Path, p: Path) {
    exists group, name ::
      && p == root + ["packages", group, name]
      && Entry(disk, root + ["packages"], group) == Some(Directory)
      && Entry(disk, root + ["packages", group], name) == Some(Directory)
  }

  ghost predicate IsLive(disk: Disk, root: Path, p: Path) {
    IsPackage(disk, root, p) && Lstat(disk, p + ["package.json"]) != Missing
  }

  ghost predicate KnownResidue(name: Name) {
    name == "node_modules" || name == "lib" || name == ".typecheck" || IsBuildInfo(name)
  }

  lemma EndsWithIff(name: Name)
    ensures EndsWith(name, BUILD_INFO) <==> IsBuildInfo(name)
  {
    if EndsWith(name, BUILD_INFO) {
      assert name == name[..|name| - |BUILD_INFO|] + ".tsbuildinfo";
    }
    if stem: string :| name == stem + ".tsbuildinfo" {
      assert name[|name| - |BUILD_INFO|..] == ".tsbuildinfo";
    }
  }

  lemma OutputIff(root: Path, types: Path, p: Path)
    ensures Output(root, types) == Some(p)
      <==> types == p + ["types"] || (types == p && p == root + ["native", "system", "packages", "entry", "lib"])
  {
    if types != [] {
      assert types == Parent(types) + [types[|types| - 1]];
      assert (root + ["native", "system", "packages", "entry", "lib"])[|root| + 4] == "lib";
    }
    assert Parent(p + ["types"]) == p;
  }

  lemma ConfigOutputIff(root: Path, configs: map<Path, Config>, p: Path)
    ensures LiveOutput(root, configs, p) <==> IsConfigOutput(root, configs, p)
  {
    forall config | config in configs && configs[config].outDir.Some?
      ensures Emits(root, configs, config, p) <==> EmitsInto(root, configs, config, p)
    {
      OutputIff(root, configs[config].outDir.value, p);
    }
  }

  lemma PackageIff(disk: Disk, root: Path, p: Path)
    ensures IsPackageDirectory(disk, root, p) <==> IsPackage(disk, root, p)
  {
    if IsPackageDirectory(disk, root, p) {
      var group, name := Parent(p)[|root| + 1], p[|Parent(p)|];
      assert Parent(p) == root + ["packages"] + [group] == root + ["packages", group];
      assert p == Parent(p) + [name] == root + ["packages", group, name];
    }
    if IsPackage(disk, root, p) {
      var group, name := p[|root| + 1], p[|root| + 2];
      assert p == root + ["packages", group, name];
      assert Parent(p) == root + ["packages", group] == root + ["packages"] + [group];
    }
  }

  lemma UnknownIff(disk: Disk, p: Path, name: Name)
    ensures Unknown(disk, p, name) <==> Entry(disk, p, name).Some? && !KnownResidue(name)
  {
    EndsWithIff(name);
  }

  /** What is planned before links are considered. */
  ghost predicate IsResidue(disk: Disk, root: Path, configs: map<Path, Config>, p: Path) {
    || (AtFixedPlace(root, p) && Present(disk, p))
    || (exists name :: p == root + [name] && Entry(disk, root, name) == Some(File) && IsBuildInfo(name))
    || (IsConfigOutput(root, configs, p) && Present(disk, p))
    || (IsPackage(disk, root, p) && !IsLive(disk, root, p) && forall name :: Entry(disk, p, name).Some? ==> KnownResidue(name))
  }

  lemma CandidateIff(disk: Disk, root: Path, configs: map<Path, Config>, p: Path)
    ensures Candidate(disk, root, configs, p) <==> IsResidue(disk, root, configs, p)
  {
    assert AtFixedPlace(root, p) <==> p in FixedOutputs(root);
    if RootBuildInfo(disk, root, p) {
      EndsWithIff(p[|root|]);
      assert p == root + [p[|root|]];
    }
    if name :| p == root + [name] && Entry(disk, root, name) == Some(File) && IsBuildInfo(name) {
      EndsWithIff(name);
    }
    ConfigOutputIff(root, configs, p);
    PackageIff(disk, root, p);
    forall name ensures Unknown(disk, p, name) <==> Entry(disk, p, name).Some? && !KnownResidue(name) {
      UnknownIff(disk, p, name);
    }
  }

  // ---------- Module links ----------

  /** A link directly in the directory, or in a directory in it whose name starts with `@`. */
  ghost predicate LinkIn(disk: Disk, modules: Path, l: Path) {
    || (exists name :: l == modules + [name] && IsLink(disk, modules, name))
    || exists group, name ::
         && l == modules + ["@" + group, name]
         && Entry(disk, modules, "@" + group) == Some(Directory) && IsLink(disk, modules + ["@" + group], name)
  }

  /** The directory really lies strictly inside the repository. */
  ghost predicate OwnDirectory(disk: Disk, root: Path, modules: Path) {
    && Realpath(disk, modules).At? && Realpath(disk, root).At?
    && Realpath(disk, root).path < Realpath(disk, modules).path
  }

  ghost predicate IsOwnLink(disk: Disk, root: Path, l: Path) {
    || (OwnDirectory(disk, root, root + ["node_modules"]) && LinkIn(disk, root + ["node_modules"], l))
    || (OwnDirectory(disk, root, root + ["node_modules", ".pnpm", "node_modules"])
        && LinkIn(disk, root + ["node_modules", ".pnpm", "node_modules"], l))
  }

  lemma LinkInIff(disk: Disk, modules: Path, l: Path)
    ensures IsModuleLink(disk, modules, l) <==> LinkIn(disk, modules, l)
  {
    if |l| == |modules| + 1 && Parent(l) == modules {
      assert l == modules + [l[|l| - 1]];
    }
    if IsScopedLink(disk, modules, l) {
      var scope := l[|l| - 2];
      assert scope == "@" + scope[1..];
      ScopeOf(modules, scope, l);
      assert l == Parent(l) + [l[|l| - 1]] == modules + ["@" + scope[1..], l[|l| - 1]];
    }
    if name :| l == modules + [name] && IsLink(disk, modules, name) {
      assert Parent(l) == modules;
    }
    if group, name :| l == modules + ["@" + group, name] && IsLink(disk, modules + ["@" + group], name) {
      assert Parent(l) == modules + ["@" + group];
      assert Parent(Parent(l)) == modules && l[|l| - 2] == "@" + group;
    }
  }

  lemma ScannedLinkIff(disk: Disk, root: Path, l: Path)
    requires Realpath(disk, root).At?
    ensures ScannedLink(disk, root, Realpath(disk, root).path, l) <==> IsOwnLink(disk, root, l)
  {
    var direct, store := root + ["node_modules"], root + ["node_modules", ".pnpm", "node_modules"];
    LinkInIff(disk, direct, l);
    LinkInIff(disk, store, l);
    if Realpath(disk, direct).At? {
      DescendantIff(Realpath(disk, root).path, Realpath(disk, direct).path);
    }
    if Realpath(disk, store).At? {
      DescendantIff(Realpath(disk, root).path, Realpath(disk, store).path);
    }
    assert forall m :: m in ModuleDirectories(root) <==> m == direct || m == store;
  }

  // ---------- The plan ----------

  /** The link leads nowhere, or to or below what some residue leads to. */
  ghost predicate LeadsIntoResidue(disk: Disk, root: Path, configs: map<Path, Config>, l: Path) {
    Realpath(disk, l).At? ==>
      exists d :: IsResidue(disk, root, configs, d) && Realpath(disk, d).At? && Realpath(disk, d).path <= Realpath(disk, l).path
  }

  /** A plan holds all residue and all of the repository's own links into residue or nowhere, and nothing else. */
  lemma PlanIsExactly(disk: Disk, root: Path, configs: map<Path, Config>, first: set<Path>, targets: set<Path>, p: Path)
    requires IsPlan(disk, root, configs, first, targets)
    ensures p in targets <==>
      IsResidue(disk, root, configs, p) || (IsOwnLink(disk, root, p) && LeadsIntoResidue(disk, root, configs, p))
  {
    CandidateIff(disk, root, configs, p);
    ScannedLinkIff(disk, root, p);
    forall d ensures d in first <==> IsResidue(disk, root, configs, d) {
      CandidateIff(disk, root, configs, d);
    }
    assert p in targets <==> Planned(disk, root, Realpath(disk, root).path, first, p);
  }

  /** A link to a package stays when what is planned there lies strictly below the package only. */
  lemma LinkToPackageStays(disk: Disk, root: Path, configs: map<Path, Config>, first: set<Path>, targets: set<Path>, l: Path)
    requires IsPlan(disk, root, configs, first, targets) && !IsResidue(disk, root, configs, l)
    requires Realpath(disk, l).At?
    requires forall d :: IsResidue(disk, root, configs, d) && Realpath(disk, d).At? ==>
      !(Realpath(disk, d).path <= Realpath(disk, l).path)
    ensures l !in targets
  {
    PlanIsExactly(disk, root, configs, first, targets, l);
  }

  /** A package with a manifest is not planned, nor is a directory above it, unless a config emits there. */
  lemma LivePackageStays(disk: Disk, root: Path, configs: map<Path, Config>, first: set<Path>, targets: set<Path>, d: Path, p: Path)
    requires IsPlan(disk, root, configs, first, targets) && IsLive(disk, root, d) && p <= d
    requires !IsConfigOutput(root, configs, p)
    ensures p !in targets
  {
    PlanIsExactly(disk, root, configs, first, targets, p);
    if |root| < |p| {
      var group, name :| d == root + ["packages", group, name];
      assert p[|root|] == d[|root|] == "packages";
      OnlyPackagesInPackages(disk, root, p);
    }
    if IsPackage(disk, root, p) {
      assert |p| == |d| && p == d;
    }
  }

  lemma OnlyPackagesInPackages(disk: Disk, root: Path, p: Path)
    requires |root| < |p| && p[|root|] == "packages"
    ensures !AtFixedPlace(root, p) && !IsOwnLink(disk, root, p)
    ensures forall name :: p == root + [name] ==> !IsBuildInfo(name)
  {
    var own := root + ["node_modules"];
    assert own[|root|] == "node_modules" && (root + ["node_modules", ".pnpm", "node_modules"])[|root|] == "node_modules";
    assert !IsBuildInfo("packages") by {
      EndsWithIff("packages");
    }
  }

  // ---------- What deleting takes away ----------

  /** Removing an entry takes it away with all that lies below it, and nothing else. */
  lemma RemoveTakesTheTree(disk: Disk, p: Path, q: Path)
    requires Present(disk, p) && q in disk.nodes
    ensures q in Remove(disk, p).nodes <==> !exists below: Path :: q == Lstat(disk, p).path + below
    ensures q in Remove(disk, p).nodes ==> Remove(disk, p).nodes[q] == disk.nodes[q]
  {
    var place := Lstat(disk, p).path;
    if place <= q {
      assert q == place + q[|place|..];
    }
  }

  // ---------- What refuses a plan ----------

  /** Reachable configs must be there and emit into a `types` directory whose parent lies strictly inside the root. */
  lemma SoundIff(root: Path, configs: map<Path, Config>, config: Path)
    ensures Sound(root, configs, config) <==>
      && config in configs
      && (configs[config].outDir.Some? ==> exists p :: EmitsInto(root, configs, config, p) && root < p)
  {
    if config in configs && configs[config].outDir.Some? {
      var types := configs[config].outDir.value;
      forall p ensures Output(root, types) == Some(p) <==> EmitsInto(root, configs, config, p) {
        OutputIff(root, types, p);
      }
      forall p ensures IsDescendant(root, p) <==> root < p {
        DescendantIff(root, p);
      }
    }
  }

  /** A package without a manifest that holds anything else refuses the whole plan. */
  lemma UnknownEntryRefuses(disk: Disk, root: Path, configs: map<Path, Config>, first: set<Path>, p: Path, name: Name)
    requires IsPackage(disk, root, p) && Lstat(disk, p + ["package.json"]) == Missing
    requires Entry(disk, p, name).Some? && !KnownResidue(name)
    ensures !Plannable(disk, root, configs, first)
  {
    PackageIff(disk, root, p);
    UnknownIff(disk, p, name);
    assert UnsafeOrphan(disk, root, p);
  }
}
