# Verified models of the repository's build and test scripts

A Dafny model of the scripts that build, check and benchmark the repository: the coverage partition scheduler, the
configuration path analyzer, the concurrency protocols of the help reader, the benchmark pool, the development loop
and the coverage forks, the graph and file-tree algorithms, and the sealed encodings. Each module models one script
(the scheduler and the path analyzer take several modules). What a script changes in place is a class or a method with
a loop; what it computes is a function; and what it promises is proved about the two together.

Verify everything with `dafny verify dfyconfig.toml`.

| modules | script | main results |
|---|---|---|
| `LoadBalance`, `TightRatio`, `PartitionScheduler`, `PartitionGuarantees`, `RecordedDurations`, `CoverageRun` (with `TextOrder`) | `coverage-partitions.ts` | the heap loop is longest-first greedy; 4/3 - 1/(3m) of any other split, attained for every m, also in sums of the recorded durations; a run that is not refused ran every file once |
| `TypePathLookup`, `TypePathMeaning`, `TypePathSoundness`, `TypePathForms`, `TypePathTermination`, `TypePathPotential`, `TypePathCompleteness`, `TypePathRecursion` | `gen-config-catalog.ts` | found and missing are never wrong in worlds without eight named forms, and each form breaks that; when exactly the walk ends; the exact verdict, and the guard as the only cause of a lost answer |
| `HelpLimiter`, `HelpPages` | `gen-cli-help.ts` | slots, settlement, abort and order in every interleaving; collection over cyclic help |
| `WorkerPool`, `GitBatch`, `ClientBuildRecord` | `benchmark-next-package-dependency.ts`, `benchmark-npm-resolution.ts`, `client-build-environment.ts` | one outcome for every schedule; decoding inverts encoding |
| `DevLoop`, `ForkObserver` | `dev-web.ts`, `coverage-fork-diagnostics.ts` | latches, escalation order, readiness without lost wakeups, exact exit reports |
| `StagedLinks`, `Clean` (with `TextOrder`), `CleanPlan`, `CleanSamples` | `build-exe-for-python-sdk-staging.ts`, `clean.ts` | every link replaced by its copy; exactly what a plan holds; deletions stay inside, and kept links keep their targets |
| `SyntaxTree`, `CallSites`, `ArchiveManifest`, `AliasRegion`, `AliasReading` | `gen-doc-graphs.ts`, `archived-agent-notes.ts`, `gen-tsconfig-paths.ts` | indexes hold every call once and agree; sealed hashes; regeneration is a fixed point that reads back |

## Where a property holds only under a condition

The model follows the code, also where its documentation says something else. Each property below fails in general, and
a lemma gives the exact condition or an input that shows it.

- The help reader is documented as one first-in, first-out limit. Slots are granted in request order, but a handed-off
  request needs one more microtask than a request that finds a slot free, so reads can start out of order:
  `HelpLimiter.OvertakingRun` is such a run and `HelpLimiter.StartsInOrderIff` says exactly which runs keep the order.
- The path analyzer is documented never to answer definitely about what it cannot see through. It does for eight forms
  of declaration: `keyof`; a reference into a namespace called like a utility; a utility name the file declares or
  imports itself; a type parameter called like a declaration; a name with more than one declaration, or whose
  declaration is not the first one found; a quoted or computed property name; a method or accessor; an index signature.
  `TypePathForms.ReadsRightIff` says that a world is read right for all its types when it has none of them and that each
  one alone breaks that, with one misread input per form (`SampleFound`, `ShadowingFound`, `SampleMissed`);
  `MemberReadRightIff` and `WrapperReadRightIff` give the condition for single members and wrappers in any world.
- The walk need not end: an alias defined by indexed access on itself is walked past every bound
  (`TypePathPotential.SelfIndexedNeverEnds`). In every closed world a walk ends exactly when some length bounds the path
  at each declaration it comes to (`TypePathTermination.EndsIffBounded`). All walks end when no way from a declaration to
  a declaration gains more steps than a potential on the declarations falls (`TypePathPotential.SinkingWalksEnd`), which
  includes worlds where no declaration reaches itself through indexed access (`TypePathPotential.StratifiedWalksEnd`) and
  an interface that indexes its own members (`TypePathPotential.OwnMemberWalksEnd`). That condition is sufficient, not
  necessary: `TypePathPotential.LostMemberWalksEnd`.
- Its recursion guard is shared by siblings and keyed by declaration and remaining path length. A fresh walk answers
  missing exactly when the path is present in no reading and no declaration is reached on two routes with the same
  length left; without such routes it answers found exactly when the path is present in every reading
  (`TypePathCompleteness.VerdictExactly`). It still does where two routes to a declaration lead to one place and pass no
  union (`TypePathRecursion.FoundExactly`). With other such routes it loses both kinds of answer, without any indexed access:
  `TypePathRecursion.SharedBaseHidesMember` (`A | B` over one base) and `SharedBaseHidesAbsence` (`A & B`, where a real
  violation goes unreported); `LengthOnlyGuardHidesMember` does it by indexed access.
- The worker pool ends a worker at the first undefined value it claims, so it reaches every value only while fewer
  undefined values than workers come before it: `WorkerPool.ReachCovers`.
- Rewriting the alias region is a fixed point exactly when the body holds no end marker (`AliasRegion.FixedPointIff`);
  no body the generator renders holds one (`AliasRegion.RegeneratingIsAFixedPoint`).
- A kept module link always keeps its target when `clean` deletes, but can still dangle afterwards when it passed
  through a deleted directory on its way, as `../lib/../src` does (`CleanSamples.KeptLinkDangles`). It still leads on
  when nothing it walks through lies at or below a planned place, and only then, unless a target was reached through
  another target's place (`Clean.LeadsOnExactly`). Then a planned place can stay: `.dsh-build` is a link, an output
  directory lies below it, and the link goes first (`CleanSamples.PlannedPlaceStays`).
- The one-file call index of a local helper agrees with the whole-program index only if the helper's file is one of
  the package sources or never calls it: `CallSites.IndexesAgreeIff`. That such a helper is called in its own file only
  follows from the scan (`CallSites.LocalIsConfined`), and no part of the scan can go (`CallSites.EveryPartIsNeeded`).
- The archive validator alone is transitive exactly for tables closed under chaining (`ArchiveManifest.PreorderIff`);
  the table in use is (`ArchiveManifest.RemovalsAreSingle`).

## Model

| member | source | states |
|---|---|---|
| LoadBalance.LongestFirstRatio | scripts/coverage-partitions.ts:342-365 | after any number of placements no greedy machine exceeds 4/3 - 1/(3m) of a limit that some other assignment of the same jobs keeps everywhere |
| LoadBalance.PlacementBound | scripts/coverage-partitions.ts:355-363 | the same bound at the moment one job is placed, by light jobs against the average and heavy jobs against the pigeonhole |
| LoadBalance.HeavyJobsFit | scripts/coverage-partitions.ts:355-363 | a job over a third of the limit still fits within the limit on some machine, whatever the earlier placement |
| LoadBalance.SumsConserved | scripts/coverage-partitions.ts:355-363 | machine loads and counts add up to the total weight and number of the jobs placed |
| LoadBalance.GapBound | scripts/coverage-partitions.ts:355-363 | any two greedy loads differ by at most the largest weight |
| LoadBalance.HeaviestBound | scripts/coverage-partitions.ts:355-363 | m times any load is at most the total plus m-1 times the largest weight |
| LoadBalance.NoMachineEmpty | scripts/coverage-partitions.ts:340-365 | with at least m jobs greedy by load and then by count leaves no machine empty, zero weights included |
| PartitionScheduler.LongestFirstDescends | scripts/coverage-partitions.ts:348-350 | the placement order has descending weights |
| PartitionScheduler.LeastOfFamily | scripts/coverage-partitions.ts:375-387 | the position chosen is the least of a node and its children by sum, then count |
| PartitionScheduler.SiftDown | scripts/coverage-partitions.ts:368-396 | from a heap with one hole, the array becomes a heap again and still holds the same indices |
| PartitionScheduler.SwapSinksHole | scripts/coverage-partitions.ts:388-394 | exchanging a node with its least child moves the only violation down to that child |
| PartitionScheduler.RootIsLeast | scripts/coverage-partitions.ts:352-356 | the root of a heap is not above any position |
| PartitionScheduler.RootBelowAll | scripts/coverage-partitions.ts:352-356 | the bucket at the root is a least bucket by sum, then file count |
| PartitionScheduler.Place | scripts/coverage-partitions.ts:355-363 | one placement goes to a least bucket and restores the heap |
| PartitionScheduler.PlaceAll | scripts/coverage-partitions.ts:351-364 | the heap loop makes a greedy choice for every file and fills the buckets by those choices |
| PartitionScheduler.AssignWeightedPartitions | scripts/coverage-partitions.ts:342-365 | the result is a longest-first greedy assignment; the empty inventory gives empty partitions; no partition to put a file in is an error |
| PartitionGuarantees.FilesConserved | scripts/coverage-partitions.ts:342-365 | the partitions hold the inventory as a multiset |
| PartitionGuarantees.NonEmptyIffEnoughFiles | scripts/coverage-partitions.ts:340-365 | with non-negative weights no partition is empty exactly when there are at least as many files as partitions |
| PartitionGuarantees.TotalsAreClose | scripts/coverage-partitions.ts:342-365 | any two partition totals differ by at most the largest file weight |
| PartitionGuarantees.HeaviestIsNearAverage | scripts/coverage-partitions.ts:342-365 | m times the heaviest total is at most the total weight plus m-1 times the largest weight |
| PartitionGuarantees.SplitAsChoices | scripts/coverage-partitions.ts:342-365 | every split of the files is an assignment of their sorted indices with the same totals |
| PartitionGuarantees.WithinFourThirdsOfAnySplit | scripts/coverage-partitions.ts:334-365 | every total is within 4/3 - 1/(3m) of the heaviest total of every other split of the files into m partitions |
| RecordedDurations.PlacedByDuration | scripts/coverage-partitions.ts:348-350 | on the duration map: an earlier file has a recorded duration at least that of a later one, a file without a record stands like one of 1, and files of the same duration ascend by name |
| RecordedDurations.TiesKeepTheirOrder | scripts/coverage-partitions.ts:348-350 | files that neither duration nor name comparison tells apart keep the order of the inventory |
| RecordedDurations.WeighsDurations | scripts/coverage-partitions.ts:418-421 | a partition weighs the sum of its recorded durations, and one for each file without a record |
| RecordedDurations.RecordedWithinFourThirds | scripts/coverage-partitions.ts:334-365 | for an inventory with all durations recorded: no partition sums up to more than 4/3 - 1/(3m) of the largest sum in any other split |
| TightRatio.RatioIsAttained | scripts/coverage-partitions.ts:342-365 | for every m there are 2m+1 jobs that the rule puts at 4m-1 where 3m is possible, so the bound is exact |
| CoverageRun.ReadEntries | scripts/coverage-partitions.ts:174-189 | a listing is read exactly when every record is valid and no file is listed twice once made relative to the root, and then recorded entry by entry |
| CoverageRun.ParseFileInventory | scripts/coverage-partitions.ts:174-200 | succeeds exactly on such listings, with the files relative to the root, once each under their listed project and in ascending order, without the exempt matches in either slash form |
| CoverageRun.Includes | scripts/coverage-partitions.ts:433-438 | a project's include list holds exactly the partition's files of that project |
| CoverageRun.IncludedOnce | scripts/coverage-partitions.ts:423-438 | every inventory file is included by exactly one partition and there by exactly one project |
| CoverageRun.SortKeepsContents | scripts/coverage-partitions.ts:581-583 | ordering partitions heaviest first loses and copies no file |
| CoverageRun.EqualPartitionsKeepOrder | scripts/coverage-partitions.ts:581-583 | partitions of the same weight keep the order in which the scheduler left them |
| CoverageRun.PassesIffSameFiles | scripts/coverage-partitions.ts:670-691 | a report passes for a duplicate-free partition exactly when it lists its files, each once |
| CoverageRun.AcceptedIff | scripts/coverage-partitions.ts:538-546 | for a duplicate-free inventory a run is accepted exactly when it splits the files, no partition is empty, there is one blob of each partition numbered 1 to m and no other, and each report lists just its partition's files, each once |
| TextOrder.AtMostIff | scripts/coverage-partitions.ts:199-199 | the sorted order puts a prefix first and otherwise goes by the first difference |
| CoverageRun.CoveragePartitionCoordinator.Create | scripts/coverage-partitions.ts:474-488 | construction is refused below two partitions |
| CoverageRun.CoveragePartitionCoordinator.AssignFiles | scripts/coverage-partitions.ts:565-584 | succeeds exactly when there is a list to assign and a partition for its files, with the scheduler's partitions of the injected list or the parsed inventory, heaviest first |
| CoverageRun.AssignmentSplits | scripts/coverage-partitions.ts:558-584 | such an assignment conserves the files, is heaviest first, and has no empty partition exactly when there are enough files |
| CoverageRun.CoveragePartitionCoordinator.Run | scripts/coverage-partitions.ts:495-531 | a run is not refused exactly when files could be assigned and every gate passed, and its result is zero exactly when nothing failed |
| CoverageRun.EveryFileRanOnce | scripts/coverage-partitions.ts:538-546 | after an accepted run the reports together name every inventory file exactly once and nothing else |
| TypePathLookup.MoreFuel | scripts/gen-config-catalog.ts:407-493 | a walk that ends gives the same answer under every larger bound on its depth |
| TypePathMeaning.ViewIsMeaning | scripts/gen-config-catalog.ts:396-493 | in plain declarations what the walk does at a place is what presence means there; the meaning is defined without the walk and names the utilities itself, so the walk sees through no other and through all of these |
| TypePathSoundness.FoundIsCertain | scripts/gen-config-catalog.ts:418-466 | what is found is shown in every branch of every union, whatever the guard holds |
| TypePathSoundness.MissingIsImpossible | scripts/gen-config-catalog.ts:418-466 | what is missing is shown in no branch and left open nowhere |
| TypePathSoundness.CertainIffInAll | scripts/gen-config-catalog.ts:399-406 | shown in every branch means present in every reading |
| TypePathSoundness.PossibleIffInSome | scripts/gen-config-catalog.ts:399-406 | shown or left open in some branch means present in some reading |
| TypePathSoundness.PlainWalksNeverMisreport | scripts/gen-config-catalog.ts:304-493 | in plain declarations found means the path exists in every union branch and every guess about hidden types; missing means in none |
| TypePathForms.ReadsRightIff | scripts/gen-config-catalog.ts:304-493 | for every set of the eight forms: all worlds that use only these are never misreported exactly when the set is empty |
| TypePathForms.SampleFound | scripts/gen-config-catalog.ts:470-484 | `keyof`, a qualified and a redeclared utility: a member is found that is not there |
| TypePathForms.ShadowingFound | scripts/gen-config-catalog.ts:364-366 | a type parameter called like an interface: its member is found though the argument need not have it |
| TypePathForms.SampleMissed | scripts/gen-config-catalog.ts:425-433 | merged declarations, quoted names, methods and index signatures: a member that is there is answered missing |
| TypePathForms.MemberReadRightIff | scripts/gen-config-catalog.ts:425-433 | in any plain world a single member is read right exactly when it is a property written as its name, or a call signature |
| TypePathForms.WrapperReadRightIff | scripts/gen-config-catalog.ts:470-488 | in any plain world a wrapper is read right around all plain types exactly when it is `readonly` or an unqualified utility |
| TypePathForms.WrapperMisread | scripts/gen-config-catalog.ts:470-484 | for every other wrapper some plain type is misreported |
| TypePathTermination.WalkEnds | scripts/gen-config-catalog.ts:407-493 | a walk ends if some length bounds the path at every declaration it comes to: the guard entries left within that length fall, or the type gets smaller |
| TypePathTermination.EndsIffBounded | scripts/gen-config-catalog.ts:407-493 | in every closed world, from every place and guard: the walk ends exactly when there is such a length |
| TypePathTermination.RoutesBoundedWalkEnds | scripts/gen-config-catalog.ts:407-493 | if a length bounds the path on all routes from a place, the walk from there ends with every guard |
| TypePathPotential.SinkingWalksEnd | scripts/gen-config-catalog.ts:409-475 | every walk ends where a potential on the declarations makes up for the steps that indexed access adds on the ways between them |
| TypePathPotential.StratifiedWalksEnd | scripts/gen-config-catalog.ts:409-475 | as a special case, every walk ends where no declaration reaches itself through indexed access |
| TypePathPotential.OwnMemberWalksEnd | scripts/gen-config-catalog.ts:409-475 | `interface X { a: {}; b: X['a'] }`: no ranking exists, and every walk ends |
| TypePathPotential.LostMemberWalksEnd | scripts/gen-config-catalog.ts:409-475 | `interface A { x: A['y']['z'] }`: no potential exists, and every walk of it ends |
| TypePathPotential.SelfIndexedNeverEnds | scripts/gen-config-catalog.ts:471-475 | an alias defined by indexed access on itself is walked past every bound |
| TypePathCompleteness.MissingEntersOnce | scripts/gen-config-catalog.ts:412-416 | a walk that answers missing entered every declaration its routes lead to, each once |
| TypePathCompleteness.WrongHasCause | scripts/gen-config-catalog.ts:412-416 | where a path present everywhere or nowhere is not answered so, the guard held an entry on its routes at first, or two routes lead to one entry |
| TypePathCompleteness.VerdictExactly | scripts/gen-config-catalog.ts:304-493 | the verdict of every fresh walk of plain declarations: missing, and without double routes found, exactly when the readings say so |
| TypePathRecursion.NotFoundExcused | scripts/gen-config-catalog.ts:412-416 | where double routes meet harmlessly, an unfound present path was cut at a declaration entered before, which has the path too |
| TypePathRecursion.FoundExactly | scripts/gen-config-catalog.ts:412-466 | a fresh walk of plain declarations whose routes to one entry lead to one place and pass no union finds exactly what is present in every reading |
| TypePathRecursion.FlatWalkFindsExactlyWhatIsPresent | scripts/gen-config-catalog.ts:407-493 | without unions and indexed access a fresh walk ends and finds exactly what is present in every reading, double routes and recursion included |
| TypePathRecursion.SharedBaseHidesMember | scripts/gen-config-catalog.ts:412-466 | a union of two interfaces over one base: a member present in every reading is answered unknown |
| TypePathRecursion.SharedBaseHidesAbsence | scripts/gen-config-catalog.ts:412-459 | their intersection: a member present in no reading is answered unknown |
| TypePathRecursion.LengthOnlyGuardHidesMember | scripts/gen-config-catalog.ts:412-475 | two indexed accesses into one declaration: a member present in every reading is answered unknown |
| HelpLimiter.Reader.Create | scripts/gen-cli-help.ts:95-134 | refused below one slot; otherwise the prefetch list has been requested in order |
| HelpLimiter.Reader.AcquireSlot | scripts/gen-cli-help.ts:107-114 | a free slot is taken at once, otherwise the request waits last in line |
| HelpLimiter.Reader.ReleaseSlot | scripts/gen-cli-help.ts:115-119 | a slot goes to the oldest waiter without being counted free |
| HelpLimiter.Reader.ReadHelp | scripts/gen-cli-help.ts:136-142 | a prefetched read is served once; any other request starts a read |
| HelpLimiter.Reader.RunMicrotask | scripts/gen-cli-help.ts:121-129 | the oldest continuation resumes: a handoff takes another turn, an aborted read releases without starting |
| HelpLimiter.EveryRunKeeps | scripts/gen-cli-help.ts:103-133 | in every interleaving reads in flight stay within the limit, slots are counted exactly, waiters imply a full house, grants are in request order, and no request is lost |
| HelpLimiter.EveryRunReflects | scripts/gen-cli-help.ts:103-146 | in terms of the events: the signal is aborted exactly since an abort, every request that continued before one has started, reads run until they settle, and a continued request that did not start has settled |
| HelpLimiter.NoStartAfterAbort | scripts/gen-cli-help.ts:124-146 | after an abort event no read starts any more, and every request that continues afterwards settles without starting |
| HelpLimiter.IdleIffSettled | scripts/gen-cli-help.ts:115-146 | no slot is held and nobody waits exactly when every request has settled |
| HelpLimiter.WorkRunsOut | scripts/gen-cli-help.ts:107-133 | every continuation and settlement uses up work, one is possible while work remains, and none remains only when idle |
| HelpLimiter.StartsInOrderIff | scripts/gen-cli-help.ts:85-128 | reads continue in request order exactly when no request took a free slot while a handed-off one was on its way |
| HelpLimiter.OvertakingRun | scripts/gen-cli-help.ts:107-128 | two slots granted as 0, 1, 2, 3 whose reads start as 0, 1, 3, 2 |
| HelpPages.HelpCollector.AddAlias | scripts/gen-cli-help.ts:52-58 | a new invocation is appended, and continued to every child unless the page is on the current path, where nothing else changes; a known one changes nothing; propagation ends on cyclic pages and keeps every listing truthful |
| HelpPages.HelpCollector.Visit | scripts/gen-cli-help.ts:160-173 | the invocation is listed on the page of its output; joining a page continues it to the page's children unless that page's commands are being visited; every page made on the way has the help of its first invocation, with all commands listed and set as children |
| HelpPages.CollectCliHelp | scripts/gen-cli-help.ts:156-177 | collection ends for finitely many outputs, one page per output without duplicate invocations, and every listed invocation yields its page when equal help implies equal help below |
| HelpPages.BelowExists | scripts/gen-cli-help.ts:49-58 | equal help implies equal sub-help exactly as a function from page and name, which the collection relies on |
| WorkerPool.Resume | scripts/benchmark-next-package-dependency.ts:190-196 | one worker step keeps every index claimed once with its own result and makes progress, or rejects exactly when the awaited operation does |
| WorkerPool.MapConcurrent | scripts/benchmark-next-package-dependency.ts:182-199 | for every schedule: it succeeds exactly when no value that the pool reaches is rejected, then with the operation's results on exactly the reached indices, and otherwise rejects with the error of a reached value; never more than `jobs` operations are in flight |
| WorkerPool.ReachCovers | scripts/benchmark-next-package-dependency.ts:190-194 | an index is reached exactly when fewer undefined values than workers come before it |
| WorkerPool.EveryValueMapped | scripts/benchmark-next-package-dependency.ts:182-199 | without undefined values every index is reached, and gets its own result if none is rejected |
| WorkerPool.AtMostOnePerWorker | scripts/benchmark-next-package-dependency.ts:189-195 | no more operations are in flight than there are workers |
| StagedLinks.FindSymlinkFindsLink | scripts/build-exe-for-python-sdk-staging.ts:49-60 | a path is returned exactly when a link exists below the directory, and it names a link |
| StagedLinks.UpdateCounts | scripts/build-exe-for-python-sdk-staging.ts:80-100 | replacing a node changes the number of links by those of the old and the new node |
| StagedLinks.LeavesAfterUpdate | scripts/build-exe-for-python-sdk-staging.ts:80-100 | after a replacement the files and links are those outside the path and those of the new node |
| StagedLinks.UpdateReplacesLinks | scripts/build-exe-for-python-sdk-staging.ts:80-100 | one round changes links and `.bin` directories only |
| StagedLinks.RoundProgresses | scripts/build-exe-for-python-sdk-staging.ts:77-101 | a round leaves fewer links and only links and `.bin` directories changed, or throws before it changed anything |
| StagedLinks.StagedModules.Materialize | scripts/build-exe-for-python-sdk-staging.ts:73-103 | the loop ends because links strictly fall, and leaves the tree and the outcome of the rounds |
| StagedLinks.MaterializedReplacesLinks | scripts/build-exe-for-python-sdk-staging.ts:62-103 | whether the rounds end or throw every file outside `.bin` is unchanged and no link is new; they end with none, and stop at a link only if it is broken |
| StagedLinks.EveryLinkIsReplaced | scripts/build-exe-for-python-sdk-staging.ts:89-101 | when the rounds end, at the place of every link outside `.bin` stands the copy of what it led to when its turn came, or nothing if that was the payload |
| StagedLinks.ThrowsOnlyFor | scripts/build-exe-for-python-sdk-staging.ts:88-100 | the rounds throw only at a link outside `.bin` that leads nowhere or whose copy fails |
| GitBatch.ReadGitFiles | scripts/benchmark-npm-resolution.ts:145-169 | the loop computes the stepwise parse of the stream, errors included |
| GitBatch.HeaderSize | scripts/benchmark-npm-resolution.ts:156-161 | a written header is one line that reads back as its content's length and is not taken for a missing object |
| GitBatch.ReadsBackStream | scripts/benchmark-npm-resolution.ts:151-168 | anywhere in an output a framed stream reads back to its contents, line feeds and header-like bytes included |
| GitBatch.RefusesProperPrefix | scripts/benchmark-npm-resolution.ts:154-164 | every proper prefix of a valid stream is refused |
| GitBatch.MissingIsNoSuchFile | scripts/benchmark-npm-resolution.ts:157-157 | a line that ends in ` missing` reports a missing file |
| GitBatch.BadSizeIsRefused | scripts/benchmark-npm-resolution.ts:158-161 | a size without digits, a negative one and one that is not exact are refused, whatever the other fields are |
| GitBatch.ReaderInvertsFraming | scripts/benchmark-npm-resolution.ts:145-169 | both of these for the reader as it is called |
| GitBatch.ContentsByPath | scripts/benchmark-npm-resolution.ts:165-168 | with distinct paths each path gets its own blob's content |
| ClientBuildRecord.ClientArtifactDigest | scripts/client-build-environment.ts:349-365 | the digest is the hash of the framed stream of all artifacts; no artifact is an error |
| ClientBuildRecord.ChunkSplits | scripts/client-build-environment.ts:359-362 | a length-prefixed chunk ends where its length says, whatever follows |
| ClientBuildRecord.StreamInjective | scripts/client-build-environment.ts:356-364 | the stream is uniquely decodable: equal streams come from equal file lists |
| ClientBuildRecord.ListingInjective | scripts/client-build-environment.ts:350-353 | sorted listings are equal exactly for equal checkouts |
| ClientBuildRecord.DigestDecides | scripts/client-build-environment.ts:349-365 | two checkouts that are not a hash collision have one digest exactly when they are equal |
| ClientBuildRecord.WriteClientBuildRecord | scripts/client-build-environment.ts:299-312 | the record holds the format, the public variables only, and the current digest |
| ClientBuildRecord.ReadClientBuildRecord | scripts/client-build-environment.ts:320-346 | the record is accepted after the schema, environment and artifact checks, in that order |
| ClientBuildRecord.WrittenHolds | scripts/client-build-environment.ts:299-312 | a build with artifacts leaves format 1, exactly the variables whose names start with `DSH_CLIENT_`, their values, and the number and hash of the artifacts; one without artifacts leaves no record |
| ClientBuildRecord.AcceptedIff | scripts/client-build-environment.ts:320-404 | any stored record is accepted exactly when it is well-formed, has the required environment, and counts and hashes the artifacts that are there |
| ClientBuildRecord.RefusedForFirstReason | scripts/client-build-environment.ts:320-404 | which error a refused record gives |
| ClientBuildRecord.FramedExample | scripts/client-build-environment.ts:358-364 | the stream of two small files, byte for byte |
| ClientBuildRecord.AcceptedIffUnchanged | scripts/client-build-environment.ts:299-346 | a written record is accepted later exactly when artifact paths and bytes and the required environment are those of write time |
| DevLoop.StageSupervisor.LatchRequest | scripts/dev-web.ts:347-355 | only the first shutdown request is kept |
| DevLoop.StageSupervisor.OnExit | scripts/dev-web.ts:250-256 | an exit before a stop is reported and requests shutdown; later ones are silent |
| DevLoop.StageSupervisor.BeginStop | scripts/dev-web.ts:262-273 | `stop` up to its first await |
| DevLoop.StageSupervisor.Settle | scripts/dev-web.ts:266-282 | `stop` from the end of a grace period or the last exit to its next await |
| DevLoop.EveryRunKeeps | scripts/dev-web.ts:237-283 | in every run live stages have been sent exactly the escalation so far and exited ones a beginning of it |
| DevLoop.SendKeepsOrder | scripts/dev-web.ts:264-271 | one more signal to the live stages keeps every stage in escalation order |
| DevLoop.Latches | scripts/dev-web.ts:347-364 | from any point on, a request made is final in code and signal, and no stage is reported stale once a stop has begun |
| DevLoop.FirstEventDecides | scripts/dev-web.ts:347-364 | exit code and first signal are those of the first event that asks for a shutdown: 130 and none for Ctrl-C, 0 and SIGTERM for SIGTERM, 1 and SIGTERM for a stage's own exit |
| DevLoop.ReportsExitsBeforeStop | scripts/dev-web.ts:250-256 | live are the stages added and not exited since; reported are exactly the exits before `stop` began, in order |
| DevLoop.SignalsByFirst | scripts/dev-web.ts:264-271 | the three escalations written out |
| DevLoop.ExitedHearNothing | scripts/dev-web.ts:264-271 | a stage that has exited is sent nothing more |
| DevLoop.StopLeavesNothingRunning | scripts/dev-web.ts:258-273 | `stop` resolves with no live stage |
| DevLoop.StopProceeds | scripts/dev-web.ts:262-282 | once the awaited stages have exited `stop` can take its next step |
| DevLoop.ReadinessBarrier.OnSuccess | scripts/dev-web.ts:193-201 | only a watcher's first success counts |
| DevLoop.ReadinessBarrier.Expect | scripts/dev-web.ts:206-207 | the expected count is set, and resolves at once when already reached |
| DevLoop.ResolvedExactlyWhenReady | scripts/dev-web.ts:183-208 | in every arrival order the barrier is resolved exactly when the count is known and that many distinct watchers built |
| ForkObserver.DiagnosticForkWorker.SendMessage | scripts/coverage-fork-diagnostics.ts:53-57 | run and collect requests are remembered; a stop message latches unless an error did |
| ForkObserver.DiagnosticForkWorker.Stop | scripts/coverage-fork-diagnostics.ts:70-81 | a stop latches and detaches the exit observer unless an error came first |
| ForkObserver.FirstOfThemLatches | scripts/coverage-fork-diagnostics.ts:36-41 | expected exit and worker error are never both set: whichever came first is |
| ForkObserver.OutstandingIsTracked | scripts/coverage-fork-diagnostics.ts:53-68 | the remembered files are those of the last run or collect request that no completion followed |
| ForkObserver.ReportsExactlyUnexpectedExits | scripts/coverage-fork-diagnostics.ts:24-81 | an exit is reported exactly when no stop came before the first error, naming those files |
| ForkObserver.FirstLatches | scripts/coverage-fork-diagnostics.ts:36-81 | nothing later changes which of the two came first |
| Clean.DescendantIff | scripts/clean.ts:65-68 | the relative-path test accepts exactly the paths strictly inside the root |
| Clean.BuildOutputDirectories | scripts/clean.ts:172-206 | the worklist ends, succeeds exactly when every reachable config is sound, and then visited exactly the reachable ones and returns exactly their outputs |
| Clean.AddIfPresent | scripts/clean.ts:218-226 | a path is added exactly when its entry exists, and refused when that entry's physical place is outside the canonical root |
| Clean.ModuleLinks | scripts/clean.ts:42-53 | exactly the links directly in a modules directory and in its scope directories, unless one of them cannot be listed |
| Clean.OrphanPackages | scripts/clean.ts:128-146 | orphans with only residue are added; unsafe entries are noted exactly when some orphan holds an unknown one; fails exactly when one cannot be examined or removed |
| Clean.InOrder | scripts/clean.ts:169-169 | the sorted plan holds every target once, in the order of its text |
| Clean.Plan | scripts/clean.ts:102-170 | succeeds exactly when nothing refuses it; the plan is then exactly the candidates and the scanned links that lead nowhere or to or below the real path of a candidate, each once, in order, and strictly inside the canonical root |
| CleanPlan.PlanIsExactly | scripts/clean.ts:102-170 | with every path and name spelled out: a plan holds the build state at the fixed places, the outputs of reachable configs, the packages of nothing but known residue, the repository's own module links that lead nowhere or into one of these, and nothing else |
| CleanPlan.LinkToPackageStays | scripts/clean.ts:148-160 | a module link whose target is at or below no planned place stays, as a link to a package of which only the output is planned |
| CleanPlan.LivePackageStays | scripts/clean.ts:119-146 | a package with a manifest is not planned, nor is a directory above it, unless a config emits there |
| CleanPlan.SoundIff | scripts/clean.ts:172-200 | what is demanded of a reachable config: it is there, and emits into a `types` directory, or the one exception, whose output lies strictly inside the root |
| CleanPlan.UnknownEntryRefuses | scripts/clean.ts:133-168 | a package without a manifest that holds anything but known residue refuses the whole plan |
| CleanPlan.RemoveTakesTheTree | scripts/clean.ts:98-98 | removing an entry takes away what lies at or below it, and nothing else |
| Clean.ShrinkingOnlyLoses | scripts/clean.ts:98-98 | after deletions a path leads where it did or nowhere |
| Clean.StillResolvesIff | scripts/clean.ts:98-98 | it leads where it did exactly when nothing it walks through was deleted |
| Clean.FoundIffNotCut | scripts/clean.ts:98-98 | a target is still found when its turn comes exactly when neither it nor its approach went before |
| Clean.IndependentPlacesGo | scripts/clean.ts:96-98 | every planned place goes if no target is reached through another's place |
| Clean.LeadsOnExactly | scripts/clean.ts:148-160 | a path still leads where it led when it walks through no planned place, and otherwise leads nowhere if no target is reached through another's place |
| Clean.ResolvesToNonLink | scripts/clean.ts:56-63 | a real path names an existing entry that is no link |
| Clean.RealpathOfEntry | scripts/clean.ts:220-224 | for an entry that is no link, the real path is the real path of its parent followed by its name |
| Clean.KeptTargetUntouched | scripts/clean.ts:148-160 | a scanned link that is not planned leads to a place no planned deletion covers |
| Clean.DeletedLieInside | scripts/clean.ts:208-226 | everything deleted lay strictly inside the canonical root |
| Clean.RepositoryCleaner.RemoveAll | scripts/clean.ts:96-98 | what goes when the targets are removed in order, worked out on the disk before |
| Clean.KeptLinksKeepTargets | scripts/clean.ts:148-160 | after the deletions every kept scanned link's target is there, and the link leads to it exactly when nothing it walks through goes |
| Clean.RepositoryCleaner.Clean | scripts/clean.ts:95-100 | succeeds exactly when nothing refuses the plan; a refused one deletes nothing; otherwise the targets are gone, exactly the effective places with all below them went, all strictly inside the canonical root, and every kept scanned link's target is kept |
| CleanSamples.KeptLinkDangles | scripts/clean.ts:148-160 | a repository where any plan leaves a kept scanned link through `../lib/../src` that leads nowhere after cleaning though its target stays |
| CleanSamples.PlannedPlaceStays | scripts/clean.ts:96-98 | a repository whose plan holds a link and an output below it: the link goes first, and the place of the output stays |
| CallSites.BuildCallSiteIndex | scripts/gen-doc-graphs.ts:1249-1264 | under every declaration the index holds exactly the calls within the files that reach it, in source order |
| SyntaxTree.CallsInAtPlaces | scripts/gen-doc-graphs.ts:1251-1262 | the calls listed for a tree are those at all its places, in source order and once for each place |
| SyntaxTree.ListsEveryPlace | scripts/gen-doc-graphs.ts:1251-1262 | the places are those of all nodes, whatever wraps them |
| SyntaxTree.ListedInOrder | scripts/gen-doc-graphs.ts:1251-1262 | the places are strictly in source order, an outer node first, so none comes twice |
| SyntaxTree.CallsInExactly | scripts/gen-doc-graphs.ts:1251-1262 | a call is listed exactly when it lies within the tree and reaches the declaration |
| CallSites.ScanForEscape | scripts/gen-doc-graphs.ts:1318-1327 | finds exactly the references by name that are not direct callees, seen through value-preserving wrappers |
| CallSites.UsesIffAt | scripts/gen-doc-graphs.ts:1318-1326 | the uses scanned are all identifiers in the tree, each in the role that its nearest parent other than a wrapper gives it |
| CallSites.LocalIffCalleesOnly | scripts/gen-doc-graphs.ts:1297-1330 | in terms of places: a helper passes exactly when it is unexported, named, in a module, and every other identifier of its name and symbol there is the callee of a call |
| CallSites.EventRelationCollector.ProvenLocalCallee | scripts/gen-doc-graphs.ts:1297-1330 | true exactly for an unexported, named function of a module all of whose references there are direct callees, cached or not |
| CallSites.EventRelationCollector.CallSitesFor | scripts/gen-doc-graphs.ts:1274-1286 | which index answers, and with which calls, in every state of the caches |
| CallSites.NeverImported | scripts/gen-doc-graphs.ts:1288-1296 | no use of a helper that passes the scan is resolved through imports, through however many of them |
| CallSites.LocalIsConfined | scripts/gen-doc-graphs.ts:1266-1273 | from the rules of name lookup, imports and values: a helper that passes the scan is called in its own file only |
| CallSites.IndexesAgreeIff | scripts/gen-doc-graphs.ts:1266-1286 | for a helper that passes the scan both indexes agree exactly when its file is covered or calls it nowhere |
| CallSites.EveryPartIsNeeded | scripts/gen-doc-graphs.ts:1300-1327 | for the export modifier, the module file and the escape each: a program where only that part fails and the one-file index misses a call |
| CallSites.AskInOrder | scripts/gen-doc-graphs.ts:1274-1286 | for any order of requests every helper of a package source gets its whole-program calls |
| CallSites.OnlyOwnFile | scripts/gen-doc-graphs.ts:1268-1272 | a helper called in one file only has the same calls in every list of files that holds that one |
| ArchiveManifest.ExtendArchiveManifest | scripts/archived-agent-notes.ts:186-204 | sealed paths keep their hash, new artifacts are added with theirs, and the errors name exactly the sealed paths whose artifact is gone or changed |
| ArchiveManifest.SealedForEver | scripts/archived-agent-notes.ts:185-204 | over any history of error-free extensions a sealed path keeps its hash and its artifact |
| ArchiveManifest.ValidateArchiveManifestExtension | scripts/archived-agent-notes.ts:76-89 | no error exactly when every baseline entry is kept or changed as authorised; the errors name exactly the entries missing and those changed otherwise |
| ArchiveManifest.PreorderIff | scripts/archived-agent-notes.ts:75-89 | what the validator admits is transitive exactly when the authorised changes are closed under chaining |
| ArchiveManifest.OneAuthorisedEdge | scripts/archived-agent-notes.ts:75-89 | over any sequence of admitted manifests a path's hash changes at most once, along an authorised change, and never again |
| ArchiveManifest.RemovalsAreSingle | scripts/archived-agent-notes.ts:57-73 | the table in use has one change per path and is closed under chaining |
| AliasRegion.CollectPackageAliases | scripts/gen-tsconfig-paths.ts:97-117 | refused exactly when two eligible packages share a name; otherwise one alias per package named `@deepseek-ai/dsh-` and its directory, to that package's `src`, and no specifier twice |
| AliasRegion.RenderAliases | scripts/gen-tsconfig-paths.ts:174-183 | the body is the joined lines of exactly the aliases not written by hand |
| AliasRegion.GeneratedAreTheOthers | scripts/gen-tsconfig-paths.ts:174-180 | the aliases generated are exactly those not mapped by hand, each specifier once |
| AliasReading.LineReads | scripts/gen-tsconfig-paths.ts:178-178 | a rendered line, read as a JSON member, gives back its specifier and its source |
| AliasReading.BodyReads | scripts/gen-tsconfig-paths.ts:174-183 | a rendered body gives back its aliases in order, with nothing left over |
| AliasReading.RegionReadsBack | scripts/gen-tsconfig-paths.ts:192-221 | after a run the region between the markers reads back to exactly the aliases not mapped by hand |
| AliasRegion.RewrittenIffOrdered | scripts/gen-tsconfig-paths.ts:192-199 | a text is rewritten exactly when its first begin marker does not come after its first end marker |
| AliasRegion.FixedPointIff | scripts/gen-tsconfig-paths.ts:192-199 | writing one body twice is writing it once exactly when it holds no end marker |
| AliasRegion.OutsideKeptIff | scripts/gen-tsconfig-paths.ts:192-209 | what the hand-written scan sees is unchanged by a write under exactly that condition |
| AliasRegion.BodyHasNoDoubleSlash | scripts/gen-tsconfig-paths.ts:174-183 | no rendered body holds a comment opener, JSON escapes included |
| AliasRegion.RegeneratingSettles | scripts/gen-tsconfig-paths.ts:192-221 | the same for any proper pair of comment markers |
| AliasRegion.RegeneratingIsAFixedPoint | scripts/gen-tsconfig-paths.ts:192-221 | for every text with ordered markers regenerating keeps the outside, keeps the hand-written specifiers, duplicates none of them, and settles after one run |

## Left out

- Durations are exact reals and name order is an arbitrary relation, so floating-point rounding and collation are not modelled; where the order of names matters it is taken to be antisymmetric and transitive.
- JSON parsing and the duration history files are not modelled; strings are ordered by code point instead of code unit.
- PartitionGuarantees.WithinFourThirdsOfAnySplit: for non-negative weights. The report collector keeps only those, but a persisted duration file or a result cache with a negative number is accepted as it is.
- TypePathLookup.Lookup: carries a bound on the recursion depth, which `MoreFuel` shows never changes an answer once it suffices.
- TypePathPotential.SinkingWalksEnd: one way only, because a way that gains steps may never be walked when the member it asks for is not there; the exact condition, which looks at the walk, is `EndsIffBounded`.
- TypePathRecursion.FoundExactly: for double routes that lead to one place and pass no union; what the walk finds where routes meet otherwise has no exact condition here. `FlatWalkFindsExactlyWhatIsPresent` is its case without unions and indexed access.
- Imports, re-exports and merged declarations are a table from names to what the walk takes and what the name means; members that every object has, such as `toString`, and those of `Function` on a callable type, such as `call`, count as absent.
- `parsePath`, `walkSchemaExpr` and the catalog's closure loop are not modelled.
- HelpLimiter.EveryRunKeeps: read results, rejections and the settlement of `close` are not modelled; a read's settling is an event of the environment.
- HelpPages.CollectCliHelp: invocations are argument lists instead of joined strings, a throwing read is not modelled, and only first and top-level invocations are proved to have all their commands listed.
- WorkerPool.MapConcurrent: what the other workers still do after one rejected is not modelled; the operation is a function of its value.
- CoverageRun.ParseFileInventory: how a listed path is made relative to the root is an arbitrary function, and the matches of the exempt patterns are given.
- StagedLinks.StagedModules.Materialize: what a link resolves to and what a copy holds are parameters, the copy assumed free of links; the entry's position in its directory is kept; the removal of duplicate workspace packages is not modelled.
- GitBatch.ReadGitFiles: leading white space in a size field and decoding contents as UTF-8 are not modelled.
- ClientBuildRecord.AcceptedIffUnchanged: for two checkouts that do not collide under the hash; the JSON form of the record and the artifact patterns are not modelled.
- `uncoveredPackages` and the `--check` mode of the alias generator, and the parsing of help text, are not modelled.
- Spawning, timers and the initial build of the development loop, and the superclass calls of the coverage forks, are events or left out.
- Clean.RepositoryCleaner.Clean: the repository-relative names it returns are not modelled; permission errors cannot happen, and parsed configs are a table fixed during the run.
- CallSites.IndexesAgreeIff: how TypeScript resolves names, imports and calls is given by the rules in `WellScoped`, which say nothing about where a function is called; type-only uses count as references.
- ArchiveManifest.ExtendArchiveManifest: the order of added paths is any order that lists each once; paths are not names that every object inherits, such as `constructor`; the note triplet checks are not modelled.
- AliasRegion.RegeneratingIsAFixedPoint: the pattern that reads specifiers is an arbitrary function of the text outside the region; the alias order is any; lone surrogates are not characters here.
- Mermaid and Markdown rendering, the session format catalog, third-party notices and bundle input isolation are not modelled.
