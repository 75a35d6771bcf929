/**
 The client build record: a digest over a length-prefixed stream of artifact paths and contents, written after a build
 and checked before the artifacts are consumed.
 */
module ClientBuildRecord {
  import opened Outcomes
  import opened Decimal

  type Bytes = seq<byte>
  type Environment = map<string, string>

  /** The artifact files of a checkout: path bytes to content bytes. */
  type Snapshot = map<Bytes, Bytes>

  datatype Artifact = Artifact(path: Bytes, content: Bytes)
  datatype Digest = Digest(fileCount: int, sha256: string)
  datatype Record = Record(formatVersion: int, environment: Environment, artifacts: Digest)

  datatype RecordError =
    | NoArtifacts
    | RecordMissing
    | UnsupportedFormat
    | InvalidEnvironment
    | InvalidDigest
    | EnvironmentDiffers
    | ArtifactsDiffer

  const FORMAT := 1
  const PREFIX := "DSH_CLIENT_"
  const COLON: byte := 58
  const MAX_SAFE_INTEGER := 0x1F_FFFF_FFFF_FFFF

  type Hash = Bytes -> string
  type Sorter = set<Bytes> -> seq<Bytes>

  // ---------- The framed stream ----------

  /** A byte string behind its decimal length. */
  function Chunk(s: Bytes): Bytes {
    Digits(|s|) + [COLON] + s
  }

  function Stream(files: seq<Artifact>): Bytes {
    if files == [] then []
    else Stream(files[..|files| - 1]) + Chunk(files[|files| - 1].path) + Chunk(files[|files| - 1].content)
  }

  /** The same stream, first file first. */
  function StreamFront(files: seq<Artifact>): Bytes {
    if files == [] then [] else Chunk(files[0].path) + (Chunk(files[0].content) + StreamFront(files[1..]))
  }

  lemma {:induction false} StreamFrontSnoc(files: seq<Artifact>, f: Artifact)
    ensures StreamFront(files + [f]) == StreamFront(files) + Chunk(f.path) + Chunk(f.content)
  {
    if files == [] {
      assert ([] + [f])[1..] == [] && StreamFront([f][1..]) == [];
      assert [] + [f] == [f];
    } else {
      StreamFrontSnoc(files[1..], f);
      assert (files + [f])[1..] == files[1..] + [f];
      Regroup(Chunk(files[0].path), Chunk(files[0].content), StreamFront(files[1..]), Chunk(f.path), Chunk(f.content));
    }
  }

  lemma Regroup(a: Bytes, b: Bytes, c: Bytes, d: Bytes, e: Bytes)
    ensures a + (b + (c + d + e)) == (a + (b + c)) + d + e
  {
  }

  lemma {:induction false} StreamsAgree(files: seq<Artifact>)
    ensures Stream(files) == StreamFront(files)
  {
    if files != [] {
      var front, last := files[..|files| - 1], files[|files| - 1];
      StreamsAgree(front);
      StreamFrontSnoc(front, last);
      assert files == front + [last];
    }
  }

  /** A chunk ends where its length says, so equal streams that start with chunks start with equal chunks. */
  lemma ChunkSplits(x: Bytes, r: Bytes, y: Bytes, s: Bytes)
    requires Chunk(x) + r == Chunk(y) + s
    ensures x == y && r == s
  {
    var dx, dy := Digits(|x|), Digits(|y|);
    assert Chunk(x) + r == dx + ([COLON] + x + r) && Chunk(y) + s == dy + ([COLON] + y + s);
    LeadingDigitsEnd(dx, [COLON] + x + r);
    LeadingDigitsEnd(dy, [COLON] + y + s);
    ValueOfDigits(|x|);
    ValueOfDigits(|y|);
    SameSplit(dx + [COLON], x, r, y, s);
  }

  lemma SameSplit(head: Bytes, x: Bytes, r: Bytes, y: Bytes, s: Bytes)
    requires head + x + r == head + y + s && |x| == |y|
    ensures x == y && r == s
  {
    var t := head + x + r;
    assert x == t[|head|..|head| + |x|] && r == t[|head| + |x|..];
    assert y == t[|head|..|head| + |y|] && s == t[|head| + |y|..];
  }

  /** Unique decodability: different file lists give different streams. */
  lemma {:induction false} StreamInjective(a: seq<Artifact>, b: seq<Artifact>)
    requires StreamFront(a) == StreamFront(b)
    ensures a == b
  {
    if a != [] && b != [] {
      ChunkSplits(a[0].path, Chunk(a[0].content) + StreamFront(a[1..]), b[0].path, Chunk(b[0].content) + StreamFront(b[1..]));
      ChunkSplits(a[0].content, StreamFront(a[1..]), b[0].content, StreamFront(b[1..]));
      StreamInjective(a[1..], b[1..]);
      assert a == [a[0]] + a[1..] && b == [b[0]] + b[1..];
    }
  }

  // ---------- Listing and digest ----------

  /** Sorting lists each path of the set once. */
  ghost predicate ListsEachOnce(sort: Sorter) {
    forall s: set<Bytes> ::
      && (forall p :: p in sort(s) <==> p in s)
      && forall i, k :: 0 <= i < k < |sort(s)| ==> sort(s)[i] != sort(s)[k]
  }

  function Listing(sort: Sorter, files: Snapshot): (r: seq<Artifact>)
    requires forall p :: p in sort(files.Keys) ==> p in files
    ensures |r| == |sort(files.Keys)|
    ensures forall i :: 0 <= i < |r| ==> r[i] == Artifact(sort(files.Keys)[i], files[sort(files.Keys)[i]])
  {
    var paths := sort(files.Keys);
    seq(|paths|, i requires 0 <= i < |paths| => Artifact(paths[i], files[paths[i]]))
  }

  /** Two checkouts list alike exactly when they hold the same files with the same bytes. */
  lemma ListingInjective(sort: Sorter, a: Snapshot, b: Snapshot)
    requires ListsEachOnce(sort)
    ensures Listing(sort, a) == Listing(sort, b) <==> a == b
  {
    var la, lb := Listing(sort, a), Listing(sort, b);
    if la == lb {
      forall p ensures p in a <==> p in b {
        if p in a {
          var i :| 0 <= i < |sort(a.Keys)| && sort(a.Keys)[i] == p;
          assert la[i].path == lb[i].path;
        }
        if p in b {
          var i :| 0 <= i < |sort(b.Keys)| && sort(b.Keys)[i] == p;
          assert la[i].path == lb[i].path;
        }
      }
      assert a.Keys == b.Keys;
      forall p | p in a ensures a[p] == b[p] {
        var i :| 0 <= i < |sort(a.Keys)| && sort(a.Keys)[i] == p;
        assert la[i] == lb[i];
      }
    }
  }

  /** The digest of the sorted artifacts; an empty build is refused. */
  method ClientArtifactDigest(artifacts: seq<Artifact>, hash: Hash) returns (r: Result<Digest, RecordError>)
    ensures r == if artifacts == [] then Failure(NoArtifacts) else Success(Digest(|artifacts|, hash(Stream(artifacts))))
  {
    if artifacts == [] {
      return Failure(NoArtifacts);
    }
    var updates: Bytes := [];
    for i := 0 to |artifacts|
      invariant updates == Stream(artifacts[..i])
    {
      var f := artifacts[i];
      updates := updates + (Digits(|f.path|) + [COLON]);
      updates := updates + f.path;
      updates := updates + (Digits(|f.content|) + [COLON]);
      updates := updates + f.content;
      SnocStream(artifacts, i);
      assert updates == Stream(artifacts[..i]) + Chunk(f.path) + Chunk(f.content);
    }
    assert artifacts[..|artifacts|] == artifacts;
    r := Success(Digest(|artifacts|, hash(updates)));
  }

  lemma SnocStream(artifacts: seq<Artifact>, i: nat)
    requires i < |artifacts|
    ensures Stream(artifacts[..i + 1]) == Stream(artifacts[..i]) + Chunk(artifacts[i].path) + Chunk(artifacts[i].content)
  {
    assert artifacts[..i + 1][..i] == artifacts[..i];
  }

  // ---------- The record ----------

  predicate IsPublic(name: string) {
    PREFIX <= name
  }

  /** The public variables of an environment. */
  function PublicEnvironment(environment: Environment): Environment {
    map name | name in environment && IsPublic(name) :: environment[name]
  }

  predicate IsSha256(s: string) {
    |s| == 64 && forall i :: 0 <= i < 64 ==> '0' <= s[i] <= '9' || 'a' <= s[i] <= 'f'
  }

  /** Digests are written as SHA-256 values are. */
  ghost predicate IsDigestFunction(hash: Hash) {
    forall s :: IsSha256(hash(s))
  }

  /** These two checkouts are not a hash collision. */
  ghost predicate NoCollision(hash: Hash, sort: Sorter, before: Snapshot, after: Snapshot)
    requires ListsEachOnce(sort)
  {
    var s, t := Stream(Listing(sort, before)), Stream(Listing(sort, after));
    hash(s) == hash(t) ==> s == t
  }

  method WriteClientBuildRecord(files: Snapshot, environment: Environment, sort: Sorter, hash: Hash)
    returns (r: Result<Record, RecordError>)
    requires ListsEachOnce(sort)
    ensures r == Written(files, environment, sort, hash)
  {
    var digest := ClientArtifactDigest(Listing(sort, files), hash);
    if digest.Failure? {
      return Failure(digest.error);
    }
    r := Success(Record(FORMAT, PublicEnvironment(environment), digest.value));
  }

  function Written(files: Snapshot, environment: Environment, sort: Sorter, hash: Hash): Result<Record, RecordError>
    requires forall p :: p in sort(files.Keys) ==> p in files
  {
    var listing := Listing(sort, files);
    if listing == [] then Failure(NoArtifacts)
    else Success(Record(FORMAT, PublicEnvironment(environment), Digest(|listing|, hash(Stream(listing)))))
  }

  /** The schema checks on a stored record. */
  function ParseClientBuildRecord(stored: Record): Result<Record, RecordError> {
    if stored.formatVersion != FORMAT then Failure(UnsupportedFormat)
    else if exists name :: name in stored.environment && !IsPublic(name) then Failure(InvalidEnvironment)
    else if !(1 <= stored.artifacts.fileCount <= MAX_SAFE_INTEGER) || !IsSha256(stored.artifacts.sha256) then
      Failure(InvalidDigest)
    else Success(stored)
  }

  /** Read the record, and accept it only if it still describes the current artifacts. */
  method ReadClientBuildRecord(stored: Option<Record>, expected: Option<Environment>, files: Snapshot, sort: Sorter, hash: Hash)
    returns (r: Result<Record, RecordError>)
    requires ListsEachOnce(sort)
    ensures r == Read(stored, expected, files, sort, hash)
  {
    if stored.None? {
      return Failure(RecordMissing);
    }
    var record := ParseClientBuildRecord(stored.value);
    if record.Failure? {
      return record;
    }
    if expected.Some? && PublicEnvironment(record.value.environment) != expected.value {
      return Failure(EnvironmentDiffers);
    }
    var current := ClientArtifactDigest(Listing(sort, files), hash);
    if current.Failure? {
      return Failure(current.error);
    }
    if current.value.fileCount != record.value.artifacts.fileCount || current.value.sha256 != record.value.artifacts.sha256 {
      return Failure(ArtifactsDiffer);
    }
    r := record;
  }

  function Read(stored: Option<Record>, expected: Option<Environment>, files: Snapshot, sort: Sorter, hash: Hash): Result<Record, RecordError>
    requires forall p :: p in sort(files.Keys) ==> p in files
  {
    if stored.None? then Failure(RecordMissing)
    else
      var record := ParseClientBuildRecord(stored.value);
      var listing := Listing(sort, files);
      if record.Failure? then record
      else if expected.Some? && PublicEnvironment(record.value.environment) != expected.value then Failure(EnvironmentDiffers)
      else if listing == [] then Failure(NoArtifacts)
      else if Digest(|listing|, hash(Stream(listing))) != record.value.artifacts then Failure(ArtifactsDiffer)
      else record
  }

  // ---------- What a record holds and when it is accepted ----------

  /** A variable that client code may read: its name starts with these eleven characters. */
  ghost predicate StartsPublic(name: string) {
    |name| >= 11 && name[..11] == "DSH_CLIENT_"
  }

  lemma PublicIff(name: string)
    ensures IsPublic(name) <==> StartsPublic(name)
  {
  }

  lemma ListingSize(sort: Sorter, files: Snapshot)
    requires ListsEachOnce(sort)
    ensures |Listing(sort, files)| == |files|
  {
    var paths := sort(files.Keys);
    SetOfDistinct(paths);
    assert (set p | p in paths) == files.Keys;
    assert |files.Keys| == |files|;
  }

  lemma {:induction false} SetOfDistinct(s: seq<Bytes>)
    requires forall i, k :: 0 <= i < k < |s| ==> s[i] != s[k]
    ensures |set x | x in s| == |s|
  {
    if s != [] {
      var front, last := s[..|s| - 1], s[|s| - 1];
      assert s == front + [last];
      SetOfDistinct(front);
      assert (set x | x in s) == (set x | x in front) + {last};
    }
  }

  /**
   A build with artifacts leaves a record of format 1 with exactly the public variables, the number of the artifacts and
   the hash of their stream; one without artifacts leaves none.
   */
  lemma WrittenHolds(files: Snapshot, environment: Environment, sort: Sorter, hash: Hash)
    requires ListsEachOnce(sort)
    ensures Written(files, environment, sort, hash).Success? <==> files != map[]
    ensures files != map[] ==> var record := Written(files, environment, sort, hash).value;
      && record.formatVersion == 1
      && (forall name :: name in record.environment <==> name in environment && StartsPublic(name))
      && (forall name :: name in record.environment ==> record.environment[name] == environment[name])
      && record.artifacts == Digest(|files|, hash(Stream(Listing(sort, files))))
  {
    ListingSize(sort, files);
    forall name: string ensures IsPublic(name) <==> StartsPublic(name) {
      PublicIff(name);
    }
  }

  /** The record is one that can be read at all. */
  ghost predicate Readable(record: Record) {
    && record.formatVersion == 1
    && (forall name :: name in record.environment ==> StartsPublic(name))
    && 1 <= record.artifacts.fileCount <= 9007199254740991
    && |record.artifacts.sha256| == 64
    && forall c :: c in record.artifacts.sha256 ==> '0' <= c <= '9' || 'a' <= c <= 'f'
  }

  lemma ReadableIff(record: Record)
    ensures ParseClientBuildRecord(record) == Success(record) <==> Readable(record)
  {
    forall name: string ensures IsPublic(name) <==> StartsPublic(name) {
      PublicIff(name);
    }
    var s := record.artifacts.sha256;
    if |s| == 64 {
      assert forall i :: 0 <= i < 64 ==> s[i] in s;
    }
  }

  /** A record is accepted exactly when it can be read, has the required environment, and counts and hashes what is there. */
  lemma AcceptedIff(stored: Option<Record>, expected: Option<Environment>, files: Snapshot, sort: Sorter, hash: Hash)
    requires ListsEachOnce(sort)
    ensures Read(stored, expected, files, sort, hash).Success? <==>
      && stored.Some? && Readable(stored.value)
      && (expected.Some? ==> stored.value.environment == expected.value)
      && files != map[] && stored.value.artifacts == Digest(|files|, hash(Stream(Listing(sort, files))))
    ensures Read(stored, expected, files, sort, hash).Success? ==> Read(stored, expected, files, sort, hash).value == stored.value
  {
    ListingSize(sort, files);
    if stored.Some? {
      ReadableIff(stored.value);
      if Readable(stored.value) {
        forall name: string ensures IsPublic(name) <==> StartsPublic(name) {
          PublicIff(name);
        }
        assert PublicEnvironment(stored.value.environment) == stored.value.environment;
      }
    }
  }

  /** A record that is not accepted is refused for the first reason in this order. */
  function FirstReason(stored: Option<Record>, expected: Option<Environment>, files: Snapshot): RecordError {
    if stored.None? then RecordMissing
    else if stored.value.formatVersion != 1 then UnsupportedFormat
    else if !(forall name | name in stored.value.environment :: "DSH_CLIENT_" <= name) then InvalidEnvironment
    else if stored.value.artifacts.fileCount < 1 || stored.value.artifacts.fileCount > 9007199254740991
      || !IsSha256(stored.value.artifacts.sha256) then InvalidDigest
    else if expected.Some? && stored.value.environment != expected.value then EnvironmentDiffers
    else if files == map[] then NoArtifacts
    else ArtifactsDiffer
  }

  lemma RefusedForFirstReason(stored: Option<Record>, expected: Option<Environment>, files: Snapshot, sort: Sorter, hash: Hash)
    requires ListsEachOnce(sort)
    ensures Read(stored, expected, files, sort, hash).Failure? ==>
      Read(stored, expected, files, sort, hash).error == FirstReason(stored, expected, files)
  {
    ListingSize(sort, files);
    if stored.Some? && forall name | name in stored.value.environment :: IsPublic(name) {
      assert PublicEnvironment(stored.value.environment) == stored.value.environment;
    }
  }

  /** Two files `a` and `b`, of which `b` is empty, are framed as `1:a2:hi1:b0:`. */
  lemma FramedExample()
    ensures Stream([Artifact([97], [104, 105]), Artifact([98], [])]) == [49, 58, 97, 50, 58, 104, 105, 49, 58, 98, 48, 58]
  {
    var a, b := Artifact([97], [104, 105]), Artifact([98], []);
    StreamsAgree([a, b]);
    assert [a, b][1..] == [b] && [b][1..] == [];
    assert Chunk([97]) == [49, 58, 97] && Chunk([104, 105]) == [50, 58, 104, 105];
    assert Chunk([98]) == [49, 58, 98] && Chunk([]) == [48, 58];
    assert StreamFront([b]) == Chunk([98]) + (Chunk([]) + []);
  }

  /**
   Unless their streams collide, a record written for one checkout is accepted for another exactly when both hold the
   same artifact paths and bytes and the environment, if one is required, is the public one it was written with.
   */
  lemma AcceptedIffUnchanged(before: Snapshot, after: Snapshot, environment: Environment, expected: Option<Environment>,
                             sort: Sorter, hash: Hash)
    requires ListsEachOnce(sort) && IsDigestFunction(hash) && NoCollision(hash, sort, before, after)
    requires Written(before, environment, sort, hash).Success? && |Listing(sort, before)| <= MAX_SAFE_INTEGER
    ensures var written := Written(before, environment, sort, hash).value;
      Read(Some(written), expected, after, sort, hash) == Success(written)
      <==> after == before && (expected.Some? ==> expected.value == PublicEnvironment(environment))
  {
    var public := PublicEnvironment(environment);
    assert PublicEnvironment(public) == public;
    DigestDecides(before, after, sort, hash);
  }

  /** Unless they collide, two checkouts have the same digest exactly when they are the same. */
  lemma DigestDecides(before: Snapshot, after: Snapshot, sort: Sorter, hash: Hash)
    requires ListsEachOnce(sort) && NoCollision(hash, sort, before, after)
    ensures hash(Stream(Listing(sort, before))) == hash(Stream(Listing(sort, after))) <==> before == after
  {
    var a, b := Listing(sort, before), Listing(sort, after);
    ListingInjective(sort, before, after);
    if hash(Stream(a)) == hash(Stream(b)) {
      StreamsAgree(a);
      StreamsAgree(b);
      StreamInjective(a, b);
    }
  }
}
