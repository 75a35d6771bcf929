/**
 One coordinated coverage run: read the inventory, assign it, run every partition, and gate success on the blobs
 and timing reports that come back. A run that is not refused has executed every inventory file exactly once.
 */
module CoverageRun {
  import opened Outcomes
  import opened TextOrder
  import opened PartitionScheduler
  import opened PartitionGuarantees

  /** One record of the `vitest list` output, its file as listed; a record without the required fields is malformed. */
  datatype Entry = Malformed | Entry(file: string, projectName: string)

  datatype CoverageError =
    | MalformedEntry
    | ListedTwice(file: string)
    | TooFewPartitions
    | Unassignable
    | EmptyPartition
    | BlobSetDiffers
    | ReportDiffers

  type ProjectOf = map<string, string>

  datatype Inventory = Inventory(files: seq<string>, projectOf: ProjectOf)

  const THREAD_SAFE := "thread-safe"
  const PROCESS_BOUND := "process-bound"

  predicate ValidEntry(e: Entry): (valid: bool)
    ensures valid <==> e.Entry? && e.projectName in {"thread-safe", "process-bound"}
  {
    e.Entry? && (e.projectName == THREAD_SAFE || e.projectName == PROCESS_BOUND)
  }

  predicate SameFile(a: Entry, b: Entry) {
    a.Entry? && b.Entry? && a.file == b.file
  }

  ghost predicate NoDuplicates<T>(s: seq<T>) {
    forall i, k :: 0 <= i < k < |s| ==> s[i] != s[k]
  }

  /** The entries listed so far are valid, name no file twice, and are what the inventory records. */
  ghost predicate Records(inventory: Inventory, entries: seq<Entry>) {
    && (forall e :: e in entries ==> ValidEntry(e))
    && |inventory.files| == |entries|
    && NoDuplicates(inventory.files)
    && inventory.projectOf.Keys == (set f | f in inventory.files)
    && forall i :: 0 <= i < |entries| ==>
         inventory.files[i] in inventory.projectOf &&
         entries[i] == Entry(inventory.files[i], inventory.projectOf[inventory.files[i]])
  }

  ghost predicate Ascending(files: seq<string>) {
    forall i, k :: 0 <= i < k < |files| ==> AtMost(files[i], files[k])
  }

  /** The inventory holds the listed files outside the exempt suites in order, each once and under its listed project. */
  ghost predicate InstrumentedInventory(inventory: Inventory, entries: seq<Entry>, exempt: seq<string>) {
    && NoDuplicates(inventory.files) && Ascending(inventory.files)
    && inventory.projectOf.Keys == (set f | f in inventory.files)
    && (forall f :: f in inventory.files ==> f !in exempt)
    && (forall e :: e in entries ==> ValidEntry(e) && (e.file in inventory.files || e.file in exempt))
    && forall f :: f in inventory.files ==> Entry(f, inventory.projectOf[f]) in entries
  }

  ghost predicate Parseable(entries: seq<Entry>) {
    && (forall e :: e in entries ==> ValidEntry(e))
    && forall i, k :: 0 <= i < k < |entries| ==> !SameFile(entries[i], entries[k])
  }

  function WithoutFile(files: seq<string>, x: string): (r: seq<string>)
    ensures forall f :: f in r <==> f in files && f != x
    ensures NoDuplicates(files) ==> NoDuplicates(r)
  {
    if files == [] then [] else
      var rest := WithoutFile(files[1..], x);
      if files[0] == x then rest
      else
        assert NoDuplicates(files) ==> files[0] !in files[1..];
        [files[0]] + rest
  }

  /** A record with its file as a path relative to the root, with forward slashes. */
  function Relative(e: Entry, relative: string -> string): Entry {
    match e
    case Malformed => Malformed
    case Entry(file, projectName) => Entry(relative(file), projectName)
  }

  function Listed(entries: seq<Entry>, relative: string -> string): (r: seq<Entry>)
    ensures |r| == |entries| && forall i :: 0 <= i < |r| ==> r[i] == Relative(entries[i], relative)
    ensures forall i :: 0 <= i < |r| && entries[i].Entry? ==> r[i] == Entry(relative(entries[i].file), entries[i].projectName)
    ensures forall i :: 0 <= i < |r| && entries[i].Malformed? ==> r[i].Malformed?
  {
    seq(|entries|, i requires 0 <= i < |entries| => Relative(entries[i], relative))
  }

  /** A matched path with forward slashes on every platform. */
  function Slashed(path: string): (r: string)
    ensures |r| == |path| && '\\' !in r
    ensures forall i :: 0 <= i < |r| && path[i] != '\\' ==> r[i] == path[i]
    ensures forall i :: 0 <= i < |r| && path[i] == '\\' ==> r[i] == '/'
  {
    seq(|path|, i requires 0 <= i < |path| => if path[i] == '\\' then '/' else path[i])
  }

  function AllSlashed(paths: seq<string>): (r: seq<string>)
    ensures |r| == |paths| && forall i :: 0 <= i < |r| ==> r[i] == Slashed(paths[i])
  {
    seq(|paths|, i requires 0 <= i < |paths| => Slashed(paths[i]))
  }

  /** First pass: every entry is read into the file list and the project map, or the listing is refused. */
  method ReadEntries(entries: seq<Entry>, relative: string -> string) returns (r: Result<Inventory, CoverageError>)
    ensures r.Success? <==> Parseable(Listed(entries, relative))
    ensures r.Success? ==> Records(r.value, Listed(entries, relative))
  {
    ghost var listed := Listed(entries, relative);
    var files: seq<string>, projectOf: ProjectOf := [], map[];
    for i := 0 to |entries|
      invariant Records(Inventory(files, projectOf), listed[..i]) && Parseable(listed[..i])
    {
      var entry := entries[i];
      if !ValidEntry(entry) {
        assert !ValidEntry(listed[i]);
        return Failure(MalformedEntry);
      }
      var file := relative(entry.file);
      if file in files {
        ghost var k :| 0 <= k < |files| && files[k] == file;
        assert listed[..i][k] == listed[k];
        assert SameFile(listed[k], listed[i]);
        return Failure(ListedTwice(file));
      }
      RecordsStep(Inventory(files, projectOf), listed[..i], listed[i]);
      files := files + [file];
      projectOf := projectOf[file := entry.projectName];
      assert listed[..i + 1] == listed[..i] + [listed[i]];
    }
    assert listed[..|entries|] == listed;
    r := Success(Inventory(files, projectOf));
  }

  lemma RecordsStep(inventory: Inventory, entries: seq<Entry>, entry: Entry)
    requires Records(inventory, entries) && Parseable(entries) && ValidEntry(entry) && entry.file !in inventory.files
    ensures Parseable(entries + [entry])
    ensures Records(Inventory(inventory.files + [entry.file], inventory.projectOf[entry.file := entry.projectName]),
                    entries + [entry])
  {
    var longer := entries + [entry];
    forall i, k | 0 <= i < k < |longer| ensures !SameFile(longer[i], longer[k]) {
      if k < |entries| {
        assert !SameFile(entries[i], entries[k]);
      } else {
        assert inventory.files[i] != entry.file;
      }
    }
  }

  /** Second pass: the files of the exempt suites are deleted from the file list and the project map. */
  method DropExempt(inventory: Inventory, exempt: seq<string>) returns (kept: Inventory)
    requires NoDuplicates(inventory.files) && inventory.projectOf.Keys == set f | f in inventory.files
    ensures NoDuplicates(kept.files) && kept.projectOf.Keys == set f | f in kept.files
    ensures forall f :: f in kept.files <==> f in inventory.files && f !in AllSlashed(exempt)
    ensures forall f :: f in kept.files ==> kept.projectOf[f] == inventory.projectOf[f]
  {
    var files, projectOf := inventory.files, inventory.projectOf;
    ghost var dropped := AllSlashed(exempt);
    for i := 0 to |exempt|
      invariant NoDuplicates(files) && projectOf.Keys == set f | f in files
      invariant forall f :: f in files <==> f in inventory.files && f !in dropped[..i]
      invariant forall f :: f in files ==> projectOf[f] == inventory.projectOf[f]
    {
      var normalized := Slashed(exempt[i]);
      files := WithoutFile(files, normalized);
      projectOf := projectOf - {normalized};
      assert dropped[..i + 1] == dropped[..i] + [normalized];
    }
    assert dropped[..|exempt|] == dropped;
    kept := Inventory(files, projectOf);
  }

  function InsertFile(sorted: seq<string>, f: string): (r: seq<string>)
    ensures multiset(r) == multiset(sorted) + multiset{f}
  {
    if sorted == [] || AtMost(f, sorted[0]) then [f] + sorted
    else
      assert sorted == [sorted[0]] + sorted[1..];
      [sorted[0]] + InsertFile(sorted[1..], f)
  }

  function SortFiles(files: seq<string>): (r: seq<string>)
    ensures multiset(r) == multiset(files)
  {
    if files == [] then []
    else
      assert files == [files[0]] + files[1..];
      InsertFile(SortFiles(files[1..]), files[0])
  }

  lemma {:induction false} InsertAscends(sorted: seq<string>, f: string)
    requires Ascending(sorted)
    ensures Ascending(InsertFile(sorted, f))
  {
    if sorted != [] && AtMost(f, sorted[0]) {
      forall k | 0 <= k < |sorted| ensures AtMost(f, sorted[k]) {
        if k > 0 {
          AtMostTransitive(f, sorted[0], sorted[k]);
        }
      }
    } else if sorted != [] {
      AtMostTotal(f, sorted[0]);
      InsertAscends(sorted[1..], f);
      var rest := InsertFile(sorted[1..], f);
      forall k | 0 <= k < |rest| ensures AtMost(sorted[0], rest[k]) {
        assert rest[k] in multiset(sorted[1..]) + multiset{f};
        assert rest[k] in sorted[1..] || rest[k] == f;
      }
    }
  }

  lemma {:induction false} SortAscends(files: seq<string>)
    ensures Ascending(SortFiles(files))
  {
    if files != [] {
      SortAscends(files[1..]);
      InsertAscends(SortFiles(files[1..]), files[0]);
    }
  }

  lemma SameDistinct(a: seq<string>, b: seq<string>)
    requires multiset(a) == multiset(b) && NoDuplicates(a)
    ensures NoDuplicates(b) && forall f :: f in a <==> f in b
  {
    forall f: string ensures f in a <==> f in b {
      assert f in multiset(a) <==> f in multiset(b);
    }
    DistinctCount(a);
    DistinctCount(b);
    assert (set f | f in a) == (set f | f in b);
    assert |multiset(a)| == |multiset(b)|;
  }

  method ParseFileInventory(entries: seq<Entry>, relative: string -> string, exempt: seq<string>)
    returns (r: Result<Inventory, CoverageError>)
    ensures r.Success? <==> Parseable(Listed(entries, relative))
    ensures r.Success? ==> InstrumentedInventory(r.value, Listed(entries, relative), AllSlashed(exempt))
  {
    r := ReadEntries(entries, relative);
    if r.Success? {
      var inventory := r.value;
      ghost var listed := Listed(entries, relative);
      var kept := DropExempt(inventory, exempt);
      forall f | f in kept.files ensures Entry(f, kept.projectOf[f]) in listed {
        var k :| 0 <= k < |inventory.files| && inventory.files[k] == f;
        assert listed[k] == Entry(f, inventory.projectOf[f]);
      }
      SortAscends(kept.files);
      SameDistinct(kept.files, SortFiles(kept.files));
      r := Success(Inventory(SortFiles(kept.files), kept.projectOf));
    }
  }

  // ---------- Post-run checks ----------

  /** The report names every planned file, nothing else, and no file twice. */
  predicate ReportPasses(planned: seq<string>, actual: seq<string>) {
    && (forall f | f in planned :: f in actual)
    && (forall f | f in actual :: f in planned)
    && |set f | f in actual| == |actual|
  }

  lemma {:induction false} DistinctCount<T>(s: seq<T>)
    ensures |set x | x in s| == |s| <==> NoDuplicates(s)
    ensures |set x | x in s| <= |s|
  {
    if s != [] {
      var front, last := s[..|s| - 1], s[|s| - 1];
      assert s == front + [last];
      DistinctCount(front);
      assert (set x | x in s) == (set x | x in front) + {last};
      if NoDuplicates(s) {
        assert NoDuplicates(front) && last !in front;
      } else if NoDuplicates(front) {
        assert last in front;
      }
    }
  }

  lemma {:induction false} DistinctMultiplicity<T>(s: seq<T>, x: T)
    requires NoDuplicates(s)
    ensures multiset(s)[x] == if x in s then 1 else 0
  {
    if s != [] {
      var front, last := s[..|s| - 1], s[|s| - 1];
      assert s == front + [last];
      assert last !in front;
      DistinctMultiplicity(front, x);
    }
  }

  /** For a duplicate-free partition the check passes exactly when the report lists those files, each once. */
  lemma PassesIffSameFiles(planned: seq<string>, actual: seq<string>)
    requires NoDuplicates(planned)
    ensures ReportPasses(planned, actual) <==> multiset(actual) == multiset(planned)
  {
    DistinctCount(actual);
    DistinctCount(planned);
    if ReportPasses(planned, actual) {
      forall f: string ensures multiset(actual)[f] == multiset(planned)[f] {
        DistinctMultiplicity(actual, f);
        DistinctMultiplicity(planned, f);
      }
    } else if multiset(actual) == multiset(planned) {
      SameFilesPass(planned, actual);
    }
  }

  lemma SameFilesPass(planned: seq<string>, actual: seq<string>)
    requires NoDuplicates(planned) && multiset(actual) == multiset(planned)
    ensures ReportPasses(planned, actual)
  {
    DistinctCount(planned);
    forall f: string ensures f in actual <==> f in planned {
      assert f in multiset(actual) <==> f in multiset(planned);
    }
    assert (set f | f in actual) == (set f | f in planned);
    assert |multiset(actual)| == |multiset(planned)|;
  }

  /** The include list that a partition's config hands to one project. */
  function Includes(files: seq<string>, projectOf: ProjectOf, processBound: bool): (r: seq<string>)
    ensures forall f :: f in r <==> f in files && ((f in projectOf && projectOf[f] == "process-bound") <==> processBound)
  {
    if files == [] then [] else
      var f, rest := files[0], Includes(files[1..], projectOf, processBound);
      if (f in projectOf && projectOf[f] == PROCESS_BOUND) == processBound then [f] + rest else rest
  }

  // ---------- The coordinator ----------

  /** Blob file of the partition with this one-based index. */
  datatype Blob = PartitionBlob(index: nat) | OtherBlob(name: string)

  /** What the outside world answers during one run. */
  datatype Environment = Environment(
    entries: seq<Entry>,
    relative: string -> string,
    exempt: seq<string>,
    durations: Weights,
    collate: Collation,
    failed: seq<bool>,
    blobs: multiset<Blob>,
    reports: seq<seq<string>>,
    mergeFailed: bool)

  /** The inventory that a run collects from what the outside world lists. */
  ghost predicate Collected(inventory: Inventory, env: Environment) {
    && Parseable(Listed(env.entries, env.relative))
    && InstrumentedInventory(inventory, Listed(env.entries, env.relative), AllSlashed(env.exempt))
  }

  /** Insertion into a list of partitions ordered heaviest first, after those that weigh the same. */
  function InsertHeaviest(sorted: seq<seq<string>>, x: seq<string>, weights: Weights): (r: seq<seq<string>>)
    ensures |r| == |sorted| + 1
    ensures multiset(r) == multiset(sorted) + multiset{x}
  {
    if sorted == [] then [x]
    else
      var front, last := sorted[..|sorted| - 1], sorted[|sorted| - 1];
      assert sorted == front + [last];
      if PartitionWeight(last, weights) >= PartitionWeight(x, weights) then sorted + [x]
      else InsertHeaviest(front, x, weights) + [last]
  }

  function HeaviestFirst(parts: seq<seq<string>>, weights: Weights): (r: seq<seq<string>>)
    ensures |r| == |parts| && multiset(r) == multiset(parts)
  {
    if parts == [] then []
    else
      assert parts == parts[..|parts| - 1] + [parts[|parts| - 1]];
      InsertHeaviest(HeaviestFirst(parts[..|parts| - 1], weights), parts[|parts| - 1], weights)
  }

  function ExpectedBlobs(count: nat): multiset<Blob> {
    if count == 0 then multiset{} else ExpectedBlobs(count - 1) + multiset{PartitionBlob(count)}
  }

  lemma InsertFromEnd(front: seq<seq<string>>, last: seq<string>, x: seq<string>, weights: Weights)
    ensures InsertHeaviest(front + [last], x, weights) ==
      if PartitionWeight(last, weights) >= PartitionWeight(x, weights) then front + [last] + [x]
      else InsertHeaviest(front, x, weights) + [last]
  {
    assert (front + [last])[..|front|] == front;
  }

  /** Heaviest-first order only permutes the partitions, so no file is lost or copied. */
  lemma {:induction false} InsertKeepsContents(sorted: seq<seq<string>>, x: seq<string>, weights: Weights)
    ensures Contents(InsertHeaviest(sorted, x, weights)) == Contents(sorted) + multiset(x)
  {
    if sorted == [] {
      ContentsAppend(sorted, x);
    } else {
      var front, last := sorted[..|sorted| - 1], sorted[|sorted| - 1];
      assert sorted == front + [last];
      InsertFromEnd(front, last, x, weights);
      ContentsAppend(front, last);
      ContentsAppend(sorted, x);
      InsertKeepsContents(front, x, weights);
      ContentsAppend(InsertHeaviest(front, x, weights), last);
    }
  }

  lemma {:induction false} ContentsAppend(parts: seq<seq<string>>, x: seq<string>)
    ensures Contents(parts + [x]) == Contents(parts) + multiset(x)
  {
    if parts == [] {
      assert [x][1..] == [] && parts + [x] == [x];
    } else {
      ContentsAppend(parts[1..], x);
      assert (parts + [x])[1..] == parts[1..] + [x];
    }
  }

  lemma {:induction false} SortKeepsContents(parts: seq<seq<string>>, weights: Weights)
    ensures Contents(HeaviestFirst(parts, weights)) == Contents(parts)
  {
    if parts != [] {
      var front, last := parts[..|parts| - 1], parts[|parts| - 1];
      assert parts == front + [last];
      SortKeepsContents(front, weights);
      InsertKeepsContents(HeaviestFirst(front, weights), last, weights);
      ContentsAppend(front, last);
    }
  }

  /**
   The run was not refused: the partitions split the inventory, none is empty, every partition wrote its blob and
   nothing else did, and every partition's report passed its check.
   */
  ghost predicate Accepted(parts: seq<seq<string>>, files: seq<string>, m: nat, env: Environment) {
    Splits(parts, files, m) && |env.reports| == m && PassesGates(parts, env)
  }

  /** No partition is empty, the expected blobs and no others were written, and every report passes. */
  ghost predicate PassesGates(parts: seq<seq<string>>, env: Environment)
    requires |parts| == |env.reports|
  {
    && (forall j :: 0 <= j < |parts| ==> parts[j] != [])
    && env.blobs == ExpectedBlobs(|parts|)
    && forall j :: 0 <= j < |parts| ==> ReportPasses(parts[j], env.reports[j])
  }

  /** The partitions are those of the scheduler, heaviest first. */
  ghost predicate Assigned(parts: seq<seq<string>>, files: seq<string>, weights: Weights, collate: Collation, m: nat) {
    exists buckets :: LongestFirstGreedy(buckets, files, weights, collate, m) && parts == HeaviestFirst(buckets, weights)
  }

  ghost predicate HeavierFirst(parts: seq<seq<string>>, weights: Weights) {
    forall i, k :: 0 <= i < k < |parts| ==> PartitionWeight(parts[i], weights) >= PartitionWeight(parts[k], weights)
  }

  lemma InsertHolds(sorted: seq<seq<string>>, x: seq<string>, weights: Weights, i: nat)
    requires i < |sorted| + 1
    ensures InsertHeaviest(sorted, x, weights)[i] in sorted + [x]
  {
    var inserted := InsertHeaviest(sorted, x, weights);
    assert inserted[i] in multiset(inserted);
    assert multiset(inserted) == multiset(sorted + [x]);
  }

  /** The last partition weighs less than the inserted one and no more than those before it, so it stays last. */
  lemma LighterLast(front: seq<seq<string>>, last: seq<string>, x: seq<string>, weights: Weights)
    requires HeavierFirst(front + [last], weights) && HeavierFirst(InsertHeaviest(front, x, weights), weights)
    requires PartitionWeight(x, weights) >= PartitionWeight(last, weights)
    ensures HeavierFirst(InsertHeaviest(front, x, weights) + [last], weights)
  {
    var inserted := InsertHeaviest(front, x, weights);
    forall i: nat | i < |inserted| ensures PartitionWeight(inserted[i], weights) >= PartitionWeight(last, weights) {
      InsertHolds(front, x, weights, i);
      if inserted[i] in front {
        LastIsLightest(front, last, weights, inserted[i]);
      }
    }
  }

  lemma LastIsLightest(front: seq<seq<string>>, last: seq<string>, weights: Weights, p: seq<string>)
    requires HeavierFirst(front + [last], weights) && p in front
    ensures PartitionWeight(p, weights) >= PartitionWeight(last, weights)
  {
    var i :| 0 <= i < |front| && front[i] == p;
    assert (front + [last])[i] == p && (front + [last])[|front|] == last;
  }

  lemma InsertedLast(sorted: seq<seq<string>>, x: seq<string>, weights: Weights)
    requires HeavierFirst(sorted, weights) && sorted != []
    requires PartitionWeight(sorted[|sorted| - 1], weights) >= PartitionWeight(x, weights)
    ensures HeavierFirst(sorted + [x], weights)
  {
    forall i | 0 <= i < |sorted| ensures PartitionWeight(sorted[i], weights) >= PartitionWeight(x, weights) {
      assert PartitionWeight(sorted[i], weights) >= PartitionWeight(sorted[|sorted| - 1], weights);
    }
  }

  lemma {:induction false} InsertKeepsOrder(sorted: seq<seq<string>>, x: seq<string>, weights: Weights)
    requires HeavierFirst(sorted, weights)
    ensures HeavierFirst(InsertHeaviest(sorted, x, weights), weights)
  {
    if sorted != [] {
      var front, last := sorted[..|sorted| - 1], sorted[|sorted| - 1];
      assert sorted == front + [last];
      InsertFromEnd(front, last, x, weights);
      if PartitionWeight(last, weights) < PartitionWeight(x, weights) {
        InsertKeepsOrder(front, x, weights);
        LighterLast(front, last, x, weights);
      } else {
        InsertedLast(sorted, x, weights);
      }
    }
  }

  lemma {:induction false} HeaviestStartFirst(parts: seq<seq<string>>, weights: Weights)
    ensures HeavierFirst(HeaviestFirst(parts, weights), weights)
  {
    if parts != [] {
      HeaviestStartFirst(parts[..|parts| - 1], weights);
      InsertKeepsOrder(HeaviestFirst(parts[..|parts| - 1], weights), parts[|parts| - 1], weights);
    }
  }

  /** An assignment splits the files, heaviest partition first, and none is empty exactly when there are enough files. */
  lemma AssignmentSplits(parts: seq<seq<string>>, files: seq<string>, weights: Weights, collate: Collation, m: nat)
    requires Assigned(parts, files, weights, collate, m)
    ensures Splits(parts, files, m) && HeavierFirst(parts, weights)
    ensures NonNegativeWeights(weights) ==> ((forall j :: 0 <= j < m ==> parts[j] != []) <==> |files| >= m)
  {
    var buckets :| LongestFirstGreedy(buckets, files, weights, collate, m) && parts == HeaviestFirst(buckets, weights);
    FilesConserved(buckets, files, weights, collate, m);
    SortKeepsContents(buckets, weights);
    HeaviestStartFirst(buckets, weights);
    if NonNegativeWeights(weights) {
      NonEmptyIffEnoughFiles(buckets, files, weights, collate, m);
      SameMembers(buckets, parts);
    }
  }

  class CoveragePartitionCoordinator {
    const partitions: nat
    const files: seq<string>
    const weights: Weights
    var projectOf: ProjectOf

    constructor (partitions: nat, files: seq<string>, weights: Weights, projectOf: ProjectOf)
      ensures this.partitions == partitions && this.files == files && this.weights == weights
      ensures this.projectOf == projectOf
    {
      this.partitions, this.files, this.weights, this.projectOf := partitions, files, weights, projectOf;
    }

    /** Construction is refused below two partitions. */
    static method Create(partitions: nat, files: seq<string>, weights: Weights, projectOf: ProjectOf)
      returns (r: Result<CoveragePartitionCoordinator, CoverageError>)
      ensures r.Success? <==> partitions >= 2
      ensures r.Success? ==> fresh(r.value) && r.value.partitions == partitions && r.value.files == files
      ensures r.Success? ==> r.value.weights == weights && r.value.projectOf == projectOf
    {
      if partitions < 2 {
        return Failure(TooFewPartitions);
      }
      var coordinator := new CoveragePartitionCoordinator(partitions, files, weights, projectOf);
      r := Success(coordinator);
    }

    /** The weights of an injected list are injected with it; otherwise they are the recorded durations. */
    ghost function Durations(env: Environment): Weights {
      if this.files != [] then weights else env.durations
    }

    /** There is a list to assign, and a partition to put its files in. */
    ghost predicate Assignable(env: Environment, files: seq<string>) {
      (this.files != [] || Parseable(Listed(env.entries, env.relative))) && (files == [] || partitions > 0)
    }

    /**
     Distribute the injected file list, or the collected inventory when none was injected, heaviest partition
     first.
     */
    method AssignFiles(env: Environment) returns (r: Result<seq<seq<string>>, CoverageError>, ghost files: seq<string>)
      modifies this
      ensures this.files != [] ==> files == this.files && projectOf == old(projectOf)
      ensures this.files == [] && r.Success? ==> Collected(Inventory(files, projectOf), env)
      ensures r.Success? <==> Assignable(env, files)
      ensures r.Success? ==> Assigned(r.value, files, Durations(env), env.collate, partitions)
    {
      var inventory, durations := this.files, weights;
      files := inventory;
      if inventory == [] {
        var parsed := ParseFileInventory(env.entries, env.relative, env.exempt);
        if parsed.Failure? {
          return Failure(parsed.error), files;
        }
        inventory, projectOf, durations := parsed.value.files, parsed.value.projectOf, env.durations;
        files := inventory;
      }
      var buckets := AssignWeightedPartitions(inventory, durations, partitions, env.collate);
      if buckets.Failure? {
        return Failure(Unassignable), files;
      }
      r := Success(HeaviestFirst(buckets.value, durations));
    }

    /** The checks before and after the partitions run, in order. */
    method CheckGates(assignments: seq<seq<string>>, env: Environment) returns (refused: Option<CoverageError>)
      requires |assignments| == |env.reports|
      ensures refused.None? <==> PassesGates(assignments, env)
    {
      if exists j | 0 <= j < |assignments| :: assignments[j] == [] {
        return Some(EmptyPartition);
      }
      if env.blobs != ExpectedBlobs(|assignments|) {
        return Some(BlobSetDiffers);
      }
      if exists j | 0 <= j < |assignments| :: !ReportPasses(assignments[j], env.reports[j]) {
        return Some(ReportDiffers);
      }
      refused := None;
    }

    /** Run every partition, check what came back, and merge. A failure result stands for a thrown error. */
    method Run(env: Environment) returns (r: Result<int, CoverageError>, ghost parts: seq<seq<string>>, ghost files: seq<string>)
      requires |env.failed| == |env.reports| == partitions
      modifies this
      ensures this.files != [] ==> files == this.files && projectOf == old(projectOf)
      ensures this.files == [] && r.Success? ==> Collected(Inventory(files, projectOf), env)
      ensures Assignable(env, files) ==> Assigned(parts, files, Durations(env), env.collate, partitions)
      ensures r.Success? <==> Assignable(env, files) && Accepted(parts, files, partitions, env)
      ensures r.Success? ==> (r.value == 0 <==> true !in env.failed && !env.mergeFailed)
    {
      parts := [];
      var assignments;
      assignments, files := AssignFiles(env);
      if assignments.Failure? {
        return Failure(assignments.error), parts, files;
      }
      parts := assignments.value;
      AssignmentSplits(parts, files, Durations(env), env.collate, partitions);
      var refused := CheckGates(assignments.value, env);
      if refused.Some? {
        return Failure(refused.value), parts, files;
      }
      var succeeded := true !in env.failed && !env.mergeFailed;
      r := Success(if succeeded then 0 else 1);
    }
  }

  lemma SameMembers(a: seq<seq<string>>, b: seq<seq<string>>)
    requires multiset(a) == multiset(b) && |a| == |b|
    ensures (forall j :: 0 <= j < |a| ==> a[j] != []) <==> (forall j :: 0 <= j < |b| ==> b[j] != [])
  {
    assert [] in multiset(a) <==> [] in multiset(b);
  }

  lemma {:induction false} BlobsOfPartitions(count: nat, b: Blob)
    ensures ExpectedBlobs(count)[b] == if b.PartitionBlob? && 1 <= b.index <= count then 1 else 0
  {
    if count > 0 {
      BlobsOfPartitions(count - 1, b);
    }
  }

  /** One blob of each partition, numbered from one, and no other. */
  ghost predicate OneBlobEach(blobs: multiset<Blob>, m: nat) {
    forall b :: blobs[b] == if b.PartitionBlob? && 1 <= b.index <= m then 1 else 0
  }

  /**
   What is accepted, for a duplicate-free inventory: a split of it without empty partitions, one blob of each partition,
   and from each partition a report of just its files, each once.
   */
  lemma AcceptedIff(parts: seq<seq<string>>, files: seq<string>, m: nat, env: Environment)
    requires NoDuplicates(files) && |env.reports| == m
    ensures Accepted(parts, files, m, env) <==>
      && Splits(parts, files, m) && [] !in parts && OneBlobEach(env.blobs, m)
      && forall j :: 0 <= j < m ==> multiset(env.reports[j]) == multiset(parts[j])
  {
    forall b ensures ExpectedBlobs(m)[b] == if b.PartitionBlob? && 1 <= b.index <= m then 1 else 0 {
      BlobsOfPartitions(m, b);
    }
    assert OneBlobEach(env.blobs, m) <==> env.blobs == ExpectedBlobs(m);
    if Splits(parts, files, m) {
      PartsAreDuplicateFree(parts, files);
      forall j | 0 <= j < m ensures ReportPasses(parts[j], env.reports[j]) <==> multiset(env.reports[j]) == multiset(parts[j]) {
        PassesIffSameFiles(parts[j], env.reports[j]);
      }
    }
  }

  /** The partition if it weighs this. */
  function IfWeighing(p: seq<string>, weights: Weights, weight: real): seq<seq<string>> {
    if PartitionWeight(p, weights) == weight then [p] else []
  }

  /** The partitions of one weight, as they stand. */
  function Weighing(parts: seq<seq<string>>, weights: Weights, weight: real): seq<seq<string>> {
    if parts == [] then []
    else Weighing(parts[..|parts| - 1], weights, weight) + IfWeighing(parts[|parts| - 1], weights, weight)
  }

  lemma WeighingSnoc(front: seq<seq<string>>, last: seq<string>, weights: Weights, weight: real)
    ensures Weighing(front + [last], weights, weight) == Weighing(front, weights, weight) + IfWeighing(last, weights, weight)
  {
    assert (front + [last])[..|front|] == front;
  }

  /** Exchanging two partitions of different weight at the end does not matter. */
  lemma WeighingExchange(front: seq<seq<string>>, a: seq<string>, b: seq<string>, weights: Weights, weight: real)
    requires PartitionWeight(a, weights) != PartitionWeight(b, weights)
    ensures Weighing(front, weights, weight) + IfWeighing(a, weights, weight) + IfWeighing(b, weights, weight)
         == Weighing(front + [b] + [a], weights, weight)
  {
    WeighingSnoc(front + [b], a, weights, weight);
    WeighingSnoc(front, b, weights, weight);
    var kept := Weighing(front, weights, weight);
    assert kept + [] == kept;
    assert forall p :: kept + [] + [p] == kept + [p] + [];
  }

  lemma {:induction false} InsertKeepsTies(sorted: seq<seq<string>>, x: seq<string>, weights: Weights, weight: real)
    ensures Weighing(InsertHeaviest(sorted, x, weights), weights, weight) == Weighing(sorted + [x], weights, weight)
  {
    if sorted == [] {
      assert [] + [x] == [x];
    } else {
      var front, last := sorted[..|sorted| - 1], sorted[|sorted| - 1];
      assert sorted == front + [last];
      InsertFromEnd(front, last, x, weights);
      if PartitionWeight(last, weights) < PartitionWeight(x, weights) {
        InsertKeepsTies(front, x, weights, weight);
        WeighingSnoc(front, x, weights, weight);
        WeighingSnoc(InsertHeaviest(front, x, weights), last, weights, weight);
        WeighingExchange(front, x, last, weights, weight);
      }
    }
  }

  /** Partitions that weigh the same keep the order in which the scheduler left them. */
  lemma {:induction false} EqualPartitionsKeepOrder(parts: seq<seq<string>>, weights: Weights, weight: real)
    ensures Weighing(HeaviestFirst(parts, weights), weights, weight) == Weighing(parts, weights, weight)
  {
    if parts != [] {
      var front, last := parts[..|parts| - 1], parts[|parts| - 1];
      assert parts == front + [last];
      EqualPartitionsKeepOrder(front, weights, weight);
      InsertKeepsTies(HeaviestFirst(front, weights), last, weights, weight);
      WeighingSnoc(HeaviestFirst(front, weights), last, weights, weight);
      WeighingSnoc(front, last, weights, weight);
    }
  }

  /** An accepted run of a duplicate-free inventory reports every file exactly once and nothing else. */
  lemma EveryFileRanOnce(parts: seq<seq<string>>, files: seq<string>, m: nat, env: Environment)
    requires Accepted(parts, files, m, env) && NoDuplicates(files)
    ensures Contents(env.reports) == multiset(files)
    ensures forall f: string :: Contents(env.reports)[f] == if f in files then 1 else 0
  {
    PartsAreDuplicateFree(parts, files);
    forall j | 0 <= j < m ensures multiset(env.reports[j]) == multiset(parts[j]) {
      PassesIffSameFiles(parts[j], env.reports[j]);
    }
    SameContents(parts, env.reports);
    forall f: string ensures multiset(files)[f] == if f in files then 1 else 0 {
      DistinctMultiplicity(files, f);
    }
  }

  lemma {:induction false} SameContents(a: seq<seq<string>>, b: seq<seq<string>>)
    requires |a| == |b| && forall j :: 0 <= j < |a| ==> multiset(a[j]) == multiset(b[j])
    ensures Contents(a) == Contents(b)
  {
    if a != [] {
      SameContents(a[1..], b[1..]);
    }
  }

  lemma RepeatIsCounted(s: seq<string>, i: nat, k: nat)
    requires i < k < |s| && s[i] == s[k]
    ensures multiset(s)[s[i]] >= 2
  {
    WeightRemove(s, k, map[]);
    assert Without(s, k)[i] == s[i];
  }

  lemma PartsAreDuplicateFree(parts: seq<seq<string>>, files: seq<string>)
    requires Contents(parts) == multiset(files) && NoDuplicates(files)
    ensures forall j :: 0 <= j < |parts| ==> NoDuplicates(parts[j])
  {
    forall j, i, k | 0 <= j < |parts| && 0 <= i < k < |parts[j]| ensures parts[j][i] != parts[j][k] {
      var part, x := parts[j], parts[j][i];
      PartWithin(parts, j);
      DistinctMultiplicity(files, x);
      if part[k] == x {
        RepeatIsCounted(part, i, k);
        assert false;
      }
    }
  }

  /** The file is on one include list only: partition j's for the file's own project. */
  ghost predicate IncludedOnlyBy(parts: seq<seq<string>>, projectOf: ProjectOf, f: string, j: nat) {
    forall k, processBound :: 0 <= k < |parts| ==>
      (f in Includes(parts[k], projectOf, processBound)
       <==> k == j && (processBound <==> f in projectOf && projectOf[f] == "process-bound"))
  }

  /**
   A file of a duplicate-free inventory is included by exactly one partition's config, and there by exactly one
   project: its own.
   */
  lemma IncludedOnce(parts: seq<seq<string>>, files: seq<string>, projectOf: ProjectOf, f: string) returns (j: nat)
    requires Splits(parts, files, |parts|) && NoDuplicates(files) && f in files
    ensures j < |parts| && IncludedOnlyBy(parts, projectOf, f, j)
  {
    assert f in multiset(files);
    var p;
    j, p := Locate(parts, f);
    forall k | 0 <= k < |parts| && k != j ensures f !in parts[k] {
      DistinctMultiplicity(files, f);
      TwoPartsWithin(parts, j, k, f);
    }
  }

  lemma {:induction false} TwoPartsWithin(parts: seq<seq<string>>, j: nat, k: nat, f: string)
    requires j < |parts| && k < |parts| && j != k
    ensures multiset(parts[j])[f] + multiset(parts[k])[f] <= Contents(parts)[f]
  {
    if j == 0 {
      PartWithin(parts[1..], k - 1);
    } else if k == 0 {
      PartWithin(parts[1..], j - 1);
    } else {
      TwoPartsWithin(parts[1..], j - 1, k - 1, f);
    }
  }
}
