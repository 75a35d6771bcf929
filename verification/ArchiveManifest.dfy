/**
 The append-only manifest of archived notes: extending it seals new artifacts, and validating it against a baseline
 admits no change but the authorised ones.
 */
module ArchiveManifest {

  type Path = string
  /** A SHA-256 digest, as the number its hexadecimal form spells. */
  type Hash = nat
  type Bytes = seq<int>
  type Manifest = map<Path, Hash>
  type Artifacts = map<Path, Bytes>

  datatype Change = Change(path: Path, before: Hash, after: Hash)

  datatype ManifestError =
    | ArtifactMissing(path: Path)
    | ContentChanged(path: Path)
    | EntryMissing(path: Path)
    | HashChanged(path: Path)

  /** The authorised link removal and its bilingual record. */
  const FIGMA_LINK_REMOVALS: seq<Change> := [
    Change("feature/2026-08-10-durable-workflow-runs-in-chat.md",
           0xf9f5290cd880908d17b1080ae5776f22e182f5253471f90cf8bead418b33b502,
           0x6018de4a89ca99d6cbfd618aff1c8136b23d8e4854a30f7b12a602f0417cbdc2),
    Change("feature/2026-08-10-durable-workflow-runs-in-chat.zh.md",
           0xf4ffd2700bc9c2a0cc4b9d90f84e1d0a576939e2e6f0b130c5b142fd8cd518b0,
           0x0080859221773122022d5880efa3d52f29c0872b52d63e170250d94f214ff37a),
    Change("feature/2026-08-10-durable-workflow-runs-in-chat.i18n.yaml",
           0x0db3c21a3c8785e56d5d7b90df990b158069cd1cea664e62fc4786c6d7588450,
           0x03eadb60c8ba4fde262cd61e3f911d8cd68ea4a58f57adeb8dd7bb9a97d08ca2)]

  /** The keys of a map in some order, each once. */
  ghost predicate Lists(keys: seq<Path>, s: set<Path>) {
    && (forall p :: p in keys <==> p in s)
    && forall i, k :: 0 <= i < k < |keys| ==> keys[i] != keys[k]
  }

  // ---------- Extending ----------

  /** Every sealed entry is the hash of its artifact. */
  ghost predicate Sealed(m: Manifest, artifacts: Artifacts, hash: Bytes -> Hash) {
    forall p :: p in m ==> p in artifacts && hash(artifacts[p]) == m[p]
  }

  /** What is wrong with the sealed entries: artifacts that are gone, and artifacts whose content changed. */
  method CheckSealed(existing: Manifest, sealedPaths: seq<Path>, artifacts: Artifacts, hash: Bytes -> Hash)
    returns (errors: seq<ManifestError>)
    requires Lists(sealedPaths, existing.Keys)
    ensures errors == [] <==> Sealed(existing, artifacts, hash)
    ensures forall p :: ArtifactMissing(p) in errors <==> p in existing && p !in artifacts
    ensures forall p :: ContentChanged(p) in errors <==> p in existing && p in artifacts && hash(artifacts[p]) != existing[p]
  {
    errors := [];
    for i := 0 to |sealedPaths|
      invariant errors == [] <==>
        forall j :: 0 <= j < i ==> sealedPaths[j] in artifacts && hash(artifacts[sealedPaths[j]]) == existing[sealedPaths[j]]
      invariant forall p :: ArtifactMissing(p) in errors <==> p in sealedPaths[..i] && p !in artifacts
      invariant forall p :: ContentChanged(p) in errors <==>
        p in sealedPaths[..i] && p in existing && p in artifacts && hash(artifacts[p]) != existing[p]
    {
      var path := sealedPaths[i];
      assert sealedPaths[..i + 1] == sealedPaths[..i] + [path];
      if path !in artifacts {
        errors := errors + [ArtifactMissing(path)];
      } else if hash(artifacts[path]) != existing[path] {
        errors := errors + [ContentChanged(path)];
      }
    }
    assert sealedPaths[..|sealedPaths|] == sealedPaths;
  }

  /** Every artifact that is not sealed yet is added with its hash. */
  method AddArtifacts(existing: Manifest, artifacts: Artifacts, sorted: seq<Path>, hash: Bytes -> Hash)
    returns (files: Manifest, added: seq<Path>)
    requires Lists(sorted, artifacts.Keys)
    ensures files.Keys == existing.Keys + artifacts.Keys
    ensures forall p :: p in existing ==> files[p] == existing[p]
    ensures forall p :: p in artifacts && p !in existing ==> files[p] == hash(artifacts[p])
    ensures forall p :: p in added <==> p in artifacts && p !in existing
  {
    files, added := existing, [];
    for i := 0 to |sorted|
      invariant forall p :: p in files <==> p in existing || p in sorted[..i]
      invariant forall p :: p in existing ==> files[p] == existing[p]
      invariant forall p :: p in sorted[..i] && p !in existing ==> p in artifacts && files[p] == hash(artifacts[p])
      invariant forall p :: p in added <==> p in sorted[..i] && p !in existing
    {
      var path := sorted[i];
      assert path !in sorted[..i];
      assert sorted[..i + 1] == sorted[..i] + [path];
      if path !in files {
        files := files[path := hash(artifacts[path])];
        added := added + [path];
      }
    }
    assert sorted[..|sorted|] == sorted;
  }

  /**
   Extend the manifest: every sealed path keeps its hash, every other artifact is added with its own, and there is an
   error exactly when a sealed entry does not match its artifact.
   */
  method ExtendArchiveManifest(existing: Manifest, sealedPaths: seq<Path>, artifacts: Artifacts, sorted: seq<Path>, hash: Bytes -> Hash)
    returns (files: Manifest, added: seq<Path>, errors: seq<ManifestError>)
    requires Lists(sealedPaths, existing.Keys) && Lists(sorted, artifacts.Keys)
    ensures errors == [] <==> Sealed(existing, artifacts, hash)
    ensures forall p :: ArtifactMissing(p) in errors <==> p in existing && p !in artifacts
    ensures forall p :: ContentChanged(p) in errors <==> p in existing && p in artifacts && hash(artifacts[p]) != existing[p]
    ensures files.Keys == existing.Keys + artifacts.Keys
    ensures forall p :: p in existing ==> files[p] == existing[p]
    ensures forall p :: p in artifacts && p !in existing ==> files[p] == hash(artifacts[p])
    ensures forall p :: p in added <==> p in artifacts && p !in existing
    ensures errors == [] ==> Sealed(files, artifacts, hash) && files.Keys == artifacts.Keys
  {
    errors := CheckSealed(existing, sealedPaths, artifacts, hash);
    files, added := AddArtifacts(existing, artifacts, sorted, hash);
  }

  /** One error-free extension step. */
  ghost predicate ExtendsTo(m: Manifest, artifacts: Artifacts, m': Manifest, hash: Bytes -> Hash) {
    && Sealed(m, artifacts, hash)
    && m'.Keys == artifacts.Keys
    && (forall p :: p in m ==> p in m' && m'[p] == m[p])
    && Sealed(m', artifacts, hash)
  }

  /** Successive manifests, each an error-free extension of the one before for the artifacts of its time. */
  ghost predicate History(ms: seq<Manifest>, archives: seq<Artifacts>, hash: Bytes -> Hash) {
    && |ms| == |archives| + 1
    && forall i :: 0 <= i < |archives| ==> ExtendsTo(ms[i], archives[i], ms[i + 1], hash)
  }

  /**
   Over any history: a path once sealed keeps its hash for ever, its artifact is present at every later time, and has
   then still that hash.
   */
  lemma {:induction false} SealedForEver(ms: seq<Manifest>, archives: seq<Artifacts>, hash: Bytes -> Hash, i: nat, k: nat, p: Path)
    requires History(ms, archives, hash) && i <= k < |ms| && p in ms[i]
    ensures p in ms[k] && ms[k][p] == ms[i][p]
    ensures i < k ==> p in archives[k - 1] && hash(archives[k - 1][p]) == ms[i][p]
    decreases k
  {
    if i < k {
      SealedForEver(ms, archives, hash, i, k - 1, p);
      assert ExtendsTo(ms[k - 1], archives[k - 1], ms[k], hash);
    }
  }

  // ---------- Validating an extension ----------

  predicate Authorised(changes: seq<Change>, path: Path, before: Hash, after: Hash) {
    exists c :: c in changes && c == Change(path, before, after)
  }

  ghost predicate Admitted(changes: seq<Change>, baseline: Manifest, current: Manifest, p: Path)
    requires p in baseline
  {
    p in current && (current[p] == baseline[p] || Authorised(changes, p, baseline[p], current[p]))
  }

  /** What the validator admits. */
  ghost predicate Admits(changes: seq<Change>, baseline: Manifest, current: Manifest) {
    forall p :: p in baseline ==> Admitted(changes, baseline, current, p)
  }

  method ValidateArchiveManifestExtension(changes: seq<Change>, baseline: Manifest, paths: seq<Path>, current: Manifest)
    returns (errors: seq<ManifestError>)
    requires Lists(paths, baseline.Keys)
    ensures errors == [] <==> Admits(changes, baseline, current)
    ensures forall p :: EntryMissing(p) in errors <==> p in baseline && p !in current
    ensures forall p :: HashChanged(p) in errors <==> p in baseline && p in current && !Admitted(changes, baseline, current, p)
  {
    errors := [];
    for i := 0 to |paths|
      invariant errors == [] <==> forall j :: 0 <= j < i ==> Admitted(changes, baseline, current, paths[j])
      invariant forall p :: EntryMissing(p) in errors <==> p in paths[..i] && p !in current
      invariant forall p :: HashChanged(p) in errors <==>
        p in paths[..i] && p in baseline && p in current && !Admitted(changes, baseline, current, p)
    {
      var path := paths[i];
      assert paths[..i + 1] == paths[..i] + [path];
      if path !in current {
        errors := errors + [EntryMissing(path)];
      } else if current[path] != baseline[path] && !Authorised(changes, path, baseline[path], current[path]) {
        errors := errors + [HashChanged(path)];
      }
    }
    assert paths[..|paths|] == paths;
  }

  /** Authorised changes of one path that follow on each other are authorised, or undone, as one. */
  ghost predicate ClosedUnderChaining(changes: seq<Change>) {
    forall c, d :: c in changes && d in changes && c.path == d.path && c.after == d.before ==>
      c.before == d.after || Authorised(changes, c.path, c.before, d.after)
  }

  ghost predicate Transitive(changes: seq<Change>) {
    forall a: Manifest, b: Manifest, c: Manifest :: Admits(changes, a, b) && Admits(changes, b, c) ==> Admits(changes, a, c)
  }

  lemma AdmitsReflexive(changes: seq<Change>, m: Manifest)
    ensures Admits(changes, m, m)
  {
  }

  lemma AdmitsTransitive(changes: seq<Change>, a: Manifest, b: Manifest, c: Manifest)
    requires ClosedUnderChaining(changes) && Admits(changes, a, b) && Admits(changes, b, c)
    ensures Admits(changes, a, c)
  {
    forall p | p in a ensures p in c && (c[p] == a[p] || Authorised(changes, p, a[p], c[p])) {
      if a[p] != b[p] && b[p] != c[p] {
        assert Change(p, a[p], b[p]) in changes && Change(p, b[p], c[p]) in changes;
      }
    }
  }

  /** The validator is a preorder exactly for tables closed under chaining. */
  lemma PreorderIff(changes: seq<Change>)
    ensures Transitive(changes) <==> ClosedUnderChaining(changes)
  {
    if ClosedUnderChaining(changes) {
      forall a: Manifest, b: Manifest, c: Manifest | Admits(changes, a, b) && Admits(changes, b, c)
        ensures Admits(changes, a, c)
      {
        AdmitsTransitive(changes, a, b, c);
      }
    }
    if Transitive(changes) {
      forall c, d | c in changes && d in changes && c.path == d.path && c.after == d.before
        ensures c.before == d.after || Authorised(changes, c.path, c.before, d.after)
      {
        var m0, m1, m2 := map[c.path := c.before], map[c.path := c.after], map[c.path := d.after];
        assert c == Change(c.path, c.before, c.after) && d == Change(c.path, c.after, d.after);
        assert Authorised(changes, c.path, c.before, c.after) && Authorised(changes, c.path, c.after, d.after);
        assert Admits(changes, m0, m1) && Admits(changes, m1, m2);
        assert Admits(changes, m0, m2);
        assert c.path in m0;
      }
    }
  }

  /** No authorised result is the start of another change, and each path has one change. */
  ghost predicate OneChangePerPath(changes: seq<Change>) {
    && (forall c, d :: c in changes && d in changes && c.path == d.path ==> c == d)
    && forall c :: c in changes ==> c.before != c.after
  }

  lemma RemovalsAreSingle()
    ensures OneChangePerPath(FIGMA_LINK_REMOVALS) && ClosedUnderChaining(FIGMA_LINK_REMOVALS)
  {
    var r := FIGMA_LINK_REMOVALS;
    assert |r[0].path| == 51 && |r[1].path| == 54 && |r[2].path| == 58;
  }

  /**
   Over any sequence of manifests that each pass validation against the one before: the last passes against the
   first, and a path's hash, once changed, can never change again.
   */
  lemma {:induction false} OneAuthorisedEdge(changes: seq<Change>, ms: seq<Manifest>, p: Path, i: nat, k: nat)
    requires OneChangePerPath(changes) && i <= k < |ms| && p in ms[i]
    requires forall j :: 0 <= j < |ms| - 1 ==> Admits(changes, ms[j], ms[j + 1])
    ensures p in ms[k] && (ms[k][p] == ms[i][p] || Authorised(changes, p, ms[i][p], ms[k][p]))
    ensures ms[k][p] != ms[i][p] ==> forall j :: k <= j < |ms| ==> p in ms[j] && ms[j][p] == ms[k][p]
    decreases |ms| - i
  {
    if i < k {
      assert Admits(changes, ms[i], ms[i + 1]);
      OneAuthorisedEdge(changes, ms, p, i + 1, k);
      if ms[i + 1][p] != ms[i][p] {
        assert Change(p, ms[i][p], ms[i + 1][p]) in changes;
        StaysAfter(changes, ms, p, i + 1, k, Change(p, ms[i][p], ms[i + 1][p]));
      }
    }
  }

  /** After its one authorised change, a path keeps the new hash. */
  lemma {:induction false} StaysAfter(changes: seq<Change>, ms: seq<Manifest>, p: Path, i: nat, k: nat, c: Change)
    requires OneChangePerPath(changes) && c in changes && c.path == p && i <= k < |ms| && p in ms[i] && ms[i][p] == c.after
    requires forall j :: 0 <= j < |ms| - 1 ==> Admits(changes, ms[j], ms[j + 1])
    ensures forall j :: i <= j < |ms| ==> p in ms[j] && ms[j][p] == c.after
    decreases |ms| - i
  {
    if i + 1 < |ms| {
      assert Admits(changes, ms[i], ms[i + 1]);
      StaysAfter(changes, ms, p, i + 1, |ms| - 1, c);
    }
  }
}
