# A verified model of noci

noci is a Nix binary cache whose only database is a JSON index stored in an OCI registry. This project
models the parts of it that decide something: the garbage collector, the protocol by which publishers,
`index repair` and the collector share one index without locks, and the smaller algorithms around them.
It states what each part is for and proves it, for all inputs and for all runs.

`dafny verify dfyconfig.toml` checks everything.

## How the model is laid out

| file | what it holds |
|---|---|
| `Text.dfy`, `StorePaths.dfy`, `Wrappers.dfy` | splitting and joining text, store paths and their hashes, optional values |
| `CacheIndex.dfy` | the index document as an object: adding entries, pinning roots, upgrading version 1 |
| `Graph.dfy`, `GcSpec.dfy` | reachability in a finite, possibly cyclic graph; what a sweep and a cascade must compute |
| `GcEngine.dfy` | the collector's loops, each proved against that specification |
| `PackageNames.dfy` | the package a store object is a version of |
| `GcTheorems.dfy` | what follows: safety, conservation, quota, idempotence, agreement of the two traversals |
| `GcReadings.dfy` | a sweep and an eviction in terms of times, names and the texts of references alone |
| `GcRunner.dfy` | a collection run against the registry: decide, push the index, then prune tags; what it means for clients |
| `Registry.dfy` | the registry: blobs, one manifest per path, all indexes pushed so far; requests may fail |
| `Repair.dfy` | rebuilding entries from manifests, and the repair command |
| `Publisher.dfy` | the publish pipeline: diff, upload, merge |
| `PublishReadings.dfy` | what publishing and repairing put into the index, in terms of manifests and exports |
| `Protocol.dfy` | any number of writers and the collector, interleaved request by request, crashing anywhere |
| `ProtocolLosses.dfy` | what a push can drop, the windows in which it can, and what whole runs keep |
| `ProtocolRuns.dfy` | runs of that protocol that lose an entry or a pin, or list a path that is gone |
| `ProtocolRefinement.dfy` | a publisher, a repair or a collection alone is a run of that protocol |
| `SingleFlight.dfy` | the export cache as an interleaving of callers |
| `ChunkedUpload.dfy` | uploading a blob, whole or in chunks, against a server that may fail before or after storing |
| `DiskCache.dfy` | the server's copy of the index on disk, with a crash at any step of a save, and when the server saves |
| `Base32.dfy`, `Sign.dfy`, `NarInfo.dfy` | Nix base 32, the signed fingerprint, the narinfo text |
| `RateLimiter.dfy`, `CircuitBreaker.dfy` | the token bucket and the breaker of the server |

Code that works by changing things is modelled as classes, arrays and loops; its methods are proved
against specification functions and predicates, and the theorems are about those. Go's map iteration is
an arbitrary choice, `sort.Slice` is "some sorted permutation", and everything that depends on the
network, the file system or the clock is either a parameter or a nondeterministic choice. A registry has
a set of resources it is shaky about; requests for others are answered, so a contract can tell what a
command did not do from what it could not do. In the same way a file may be readable, a disk sturdy, and
the server of an upload steady, which means that it fails at most so many times in a row.

## What is false of the code, and when it holds

* Sweeping twice is not idempotent in general: a version kept only because its group was too large is
  evicted by the next sweep, when the group is no longer too large. `SweepIdempotentIff` gives the exact
  condition and `KeptVersionGoesNextTime` an index on which it fails.
* A push can drop what another writer has just added. There are three windows. The push that ends a diff
  (`pkg/publisher/publisher.go:389-394`) and those of `index pin` and `index repair` compare no digest at all and
  drop what was pushed since the index was fetched: `LostInDiff`, `LostByPin`; when the diff is over its loss stays,
  although the merge refetches the index (`DiffLossStays`). A merge drops what was pushed between fetching the index
  and asking for its digest, if the digest then is still the same (`LostInFirstWindow`), or between asking for it
  again and pushing (`LostInSecondWindow`). `LossFromEmpty` is a registry built from nothing on which the last two
  take place. Any push whose windows were quiet is the current index with the writer's own work added
  (`PushKeepsConcurrentWork`), whatever a push drops was pushed inside one of its windows (`LostOnlyInWindows`,
  `PinsLostOnlyInWindows`), and an entry survives every run with quiet windows in which nobody evicts
  it (`QuietRunKeeps`). `RepairRunRecovers` shows that no entry is lost for good. A lost pin cannot be repaired, and
  the path it was to keep may be collected: `PinLostThenEvicted`.
* The collector beside a writer, or beside another collector, can leave the index listing a path that is gone. The
  code does not keep them apart; `OverlapBreaksSoundness` and `TwoCollectorsBreakSoundness` give the runs,
  `EveryEntryIsServed` what holds when its users do.
* A manifest does not always give its references back: a reference with a comma, or a list with one empty
  reference, comes back different. `RefsAnnotationIff` and `RepairEqualsReplayIff` say exactly when.
* Dropping idle buckets can let more requests through when refilling a bucket takes longer than the idle
  limit: `BoundHoldsIff`, `CleanupInvisibleIff`; `ServerLimiterHarmlessIff` says for which rates the
  server is safe.
* A success recorded while the breaker is open resets its count, after which a failing probe need not
  reopen it: `LateSuccessHidesProbeFailure`; `HalfOpenFailureReopensIff` says from the history when it does.
* `index repair` promises any missing manifest, but looks each tag up in lower case (`cmd/repair.go:59`):
  a live manifest under an upper-case tag is restored if and only if there is one under the lower-case tag
  as well (`UpperCaseRestoredIff`), and a registry that has only the former is never repaired
  (`UpperCaseTagStaysLost`).
* A collection run that finds nothing to evict also leaves the roots it reports as expired or dropped
  (`pkg/gc/runner.go:68-70`). `ExpiredRootsGoIff` and `TargetsUnpinnedIff` say exactly when they go, and
  `RootStays` is an index on which neither a sweep nor the eviction of the pinned path removes them.
* A file of up to 64 MB is sent in one request that is tried four times, but `net/http` closes the file with the first
  try (`pkg/oci/blob.go:151-190`), so that no later one can succeed: a single failed request is the end of the upload,
  where a larger file is uploaded in spite of three failures in a row. `UploadBlobMonolithic` and `UploadBlob` say
  exactly when an upload goes through.
* The digest on disk can be ahead of the index on disk when saves overtake one another: `DigestNeverAheadIff`. The
  server starts a save in the background after every refresh and can start the next refresh before it
  (`pkg/server/server.go:257-288`); `OverlapPutsDigestAhead` is a run of the server that ends so. As long as no refresh
  begins before the last one is saved the digest is never ahead (`SavesInOrder`).

## Model

| member | source | states |
|---|---|---|
| `GcEngine.Engine.Sweep` | pkg/gc/gc.go:45-156 | the result is one that the policy allows: roots' closure, grace period and newest versions protected, the least recently used evicted only as far as the quota asks, all counts and sizes exact; the index is untouched |
| `GcEngine.Engine.Mark` | pkg/gc/gc.go:63-112 | after the three marking stages the candidates are exactly the unprotected entries that no version limit keeps, and the retained size is the sum over the marked ones |
| `GcEngine.Engine.SplitRoots` | pkg/gc/gc.go:53-61 | roots are active or expired by their time to live, each once |
| `GcEngine.Engine.ScanClosure` | pkg/gc/gc.go:168-194 | marks exactly what can be reached from the roots through existing entries not marked before, cycles and missing nodes included; terminates |
| `GcEngine.MarkGracePeriod` | pkg/gc/gc.go:66-83 | marks exactly the entries uploaded within the grace period and sums up what is retained |
| `GcEngine.MarkVersions` | pkg/gc/gc.go:86-106 | in each group larger than the limit that many entries are kept, none older than one that is not; smaller groups keep none |
| `GcEngine.GroupVersions` | pkg/gc/gc.go:87-94 | every unmarked entry is in the one group of its package |
| `GcEngine.ShrinkTo` | pkg/gc/gc.go:121-138 | evicts the shortest prefix of the order that brings the total down to the limit, or everything |
| `GcEngine.Engine.CascadeEvict` | pkg/gc/gc.go:196-266 | evicts exactly the backward closure of the targets, drops the right roots, and accounts for it exactly |
| `GcEngine.ReverseDependencies` | pkg/gc/gc.go:203-211 | lists under each hash exactly the entries that reference it |
| `GcEngine.EvictedBy` | pkg/gc/gc.go:213-231 | breadth-first search over that map is backward reachability through existing entries; terminates |
| `GcEngine.Engine.RootsToDrop` | pkg/gc/gc.go:240-254 | the targets and the evicted roots, each once |
| `GcEngine.Engine.Apply` | pkg/gc/gc.go:158-166 | removes the evicted entries and expired roots and nothing else |
| `GcTheorems.TraversalsAgree` | pkg/gc/gc.go:168-231 | an entry is evicted by a cascade exactly when the mark phase started from it reaches a target |
| `GcTheorems.CascadeLeavesNothingDangling` | pkg/gc/gc.go:158-266 | after a cascade no surviving entry references an evicted one and no root names one; a reference-closed index stays closed |
| `GcTheorems.SweepIsSafe` | pkg/gc/gc.go:45-156 | nothing a live root reaches and nothing in the grace period is evicted, and live entries keep all their references |
| `GcTheorems.LiveIsUnchanged` | pkg/gc/gc.go:158-194 | deleting what a sweep evicts does not change what the roots reach |
| `GcTheorems.NothingLost` | pkg/gc/gc.go:146-155 | retained and evicted sizes and counts add up to the original ones, and are those of the index after the commit |
| `GcTheorems.SweepMeetsQuota` | pkg/gc/gc.go:115-138 | the retained size is within the limit, or everything not protected is gone |
| `GcTheorems.SweepEvictsNoMore` | pkg/gc/gc.go:115-138 | keeping the last evicted entry would exceed the limit |
| `GcTheorems.LargerQuotaEvictsPrefix` | pkg/gc/gc.go:115-138 | for the same order a larger limit evicts a prefix of what a smaller one evicts |
| `GcTheorems.SweepIdempotentIff` | pkg/gc/gc.go:45-166 | a second sweep evicts nothing if and only if versions are not limited, the quota was met, or no group was over the limit |
| `GcTheorems.SweepEvictsNothingIff` | pkg/gc/gc.go:45-156 | a sweep evicts nothing if and only if everything is protected or the index is within the limit as it is |
| `GcTheorems.CascadeEvictsNothingIff` | pkg/gc/gc.go:213-231 | a cascade evicts nothing if and only if none of the targets has an entry |
| `GcTheorems.KeptVersionGoesNextTime` | pkg/gc/gc.go:96-98 | for any two paths an index on which the second sweep does evict |
| `GcReadings.RootExpiresIff` | pkg/gc/gc.go:53-61 | a sweep reports and drops a root if and only if it has a time to live and more whole seconds have passed since it was pinned |
| `GcReadings.RootLasts` | pkg/gc/gc.go:56 | in nanoseconds: a root holds for its time to live and less than a second longer |
| `GcReadings.PinnedStays` | pkg/oci/index.go:113-123 | a pinned path and whatever it refers to, by the texts of references, stays in every sweep until the time to live is over |
| `GcReadings.EdgeIff` | pkg/gc/gc.go:290-300 | the collector follows a reference if and only if its last component begins with a Nix hash, and to there |
| `GcReadings.DependentsGo` | pkg/gc/gc.go:196-231 | a cascade takes along whatever refers to a target, directly or through others, by the texts of references |
| `GcReadings.OthersStay` | pkg/gc/gc.go:196-231 | an entry that is no target stays unless one of its references begins with the hash of something evicted |
| `GcReadings.FreshStays` | pkg/gc/gc.go:74-78 | what was uploaded within the grace period stays |
| `GcReadings.UnlimitedSweepTakesIff` | pkg/gc/gc.go:45-144 | without limits a sweep takes exactly the entries past their grace period to which no root that holds leads |
| `GcReadings.NewerVersionsStay` | pkg/gc/gc.go:85-106 | an entry of a package with more versions than are to be kept goes only if as many stay, none uploaded before it |
| `GcReadings.LeastRecentlyUsedFirst` | pkg/gc/gc.go:110-138 | something collectable stays while something used later goes only if it is among the newest versions of such a package |
| `GcReadings.SamePackage` | pkg/gc/gc.go:268-288 | objects whose names differ in a version only are versions of one package |
| `GcReadings.MigratedRootStays` | pkg/oci/index.go:61-72 | a root of a version 1 index holds for ever |
| `GcReadings.MigratedGrace` | pkg/oci/index.go:76-93 | an entry without time of upload has its grace period counted from when it was added |
| `GcReadings.MigratedOrder` | pkg/oci/index.go:76-93 | entries without time of use are evicted in the order in which they were added |
| `GcReadings.MigrationKeeps` | pkg/oci/index.go:76-93 | nothing else of an entry changes |
| `PackageNames.BasePackageName` | pkg/gc/gc.go:268-288 | the two passes over the segments find the name up to its version |
| `PackageNames.VersionsShareBase` | pkg/gc/gc.go:268-288 | a version with a dot or four characters is cut off whatever the package is called |
| `PackageNames.ShortVersionIff` | pkg/gc/gc.go:268-288 | a shorter one if and only if no segment of the package's own name looks surely like a version |
| `PackageNames.PackageIsFront` | pkg/gc/gc.go:268-288 | what is cut off is a dash and something that begins with a digit |
| `GcRunner.Runner.Run` | pkg/gc/runner.go:46-88 | for every outcome the exact effect on the registry: nothing before a decision, the index before any tag, and only evicted tags deleted or buried, all of those that the registry is not shaky about if pruning is on; fetch and push fail only if the registry is shaky about the index |
| `GcRunner.Runner.Commit` | pkg/gc/runner.go:76-85 | if the push fails, which it does only if the registry is shaky about the index, no tag is touched |
| `GcRunner.Runner.PhysicalDelete` | pkg/gc/runner.go:90-113 | whatever requests fail, only the given tags can be gone or buried, and those that the registry is not shaky about are |
| `GcRunner.OutcomeKeepsSound` | pkg/gc/runner.go:76-88 | however a run ends, every entry of the index still has a live manifest and a stored archive |
| `GcRunner.RunPushesApplied` | pkg/gc/runner.go:76-80 | clients fetch exactly the old index with the result applied |
| `GcRunner.RunKeepsChain` | pkg/gc/runner.go:46-88 | however a run ends, what a root that holds leads to stays in the index and its manifest stays |
| `GcRunner.RunKeepsFresh` | pkg/gc/runner.go:46-88 | and so does what was uploaded within the grace period |
| `GcRunner.RunLeavesIff` | pkg/gc/runner.go:46-88 | a run without limits that gets its answers leaves exactly what is not collectable; a dry run leaves everything |
| `GcRunner.TargetedRunTakes` | pkg/gc/runner.go:59-88 | a targeted run takes whatever refers to a target, and its pin |
| `GcRunner.TargetedRunLeaves` | pkg/gc/runner.go:59-88 | and leaves what neither is a target nor refers to anything that went |
| `GcRunner.EvictedStaysGone` | pkg/gc/runner.go:83-113 | with pruning on, an evicted path that the registry is not shaky about is gone from index and registry, and no repair brings it back |
| `GcRunner.ExpiredRootsGoIff` | pkg/gc/runner.go:62-80 | expired roots leave the index if and only if there is something to evict, said of the index before the run |
| `GcRunner.TargetsUnpinnedIff` | pkg/gc/runner.go:59-80 | evicted targets lose their pins if and only if one of them has an entry |
| `GcRunner.RootStays` | pkg/gc/runner.go:68-70 | for any path an index on which its root is reported as gone and stays, for a sweep and for a targeted eviction |
| `CacheIndexes.ParseReferencesFromNarInfo` | pkg/oci/index.go:125-138 | the references on the first references line, as store paths |
| `CacheIndexes.CacheIndex.Upgrade` | pkg/oci/index.go:53-94 | version, roots and every entry migrated as specified, whatever the order of iteration |
| `CacheIndexes.UpgradeIdempotent` | pkg/oci/index.go:53-94 | upgrading an upgraded index at any later time changes nothing |
| `CacheIndexes.CacheIndex.AddEntry` | pkg/oci/index.go:96-111 | the entry is set and nothing else but the generation time changes |
| `CacheIndexes.CacheIndex.PinRoot` | pkg/oci/index.go:113-123 | the root is set and nothing else changes |
| `Registries.Registry.FetchIndex` | pkg/oci/manifest.go:173-222 | the last index pushed, upgraded, or a new one |
| `Registries.Registry.PushIndex` | pkg/oci/manifest.go:224-284 | on success the index is the last one; on failure it may have been stored all the same |
| `Registries.Registry.DeleteManifest` | pkg/oci/manifest.go:87-119 | on success the tag is gone or overwritten by a tombstone; it fails only if the registry is shaky about the tag |
| `Registries.NixHashIsCanonical` | pkg/domain/types/types.go:14-20 | parsing a Nix hash gives it back, and it is a valid tag |
| `Registries.DigestIsCanonical` | pkg/domain/types/types.go:26-37 | parsing a digest of lower-case hexadecimal gives it back |
| `Registries.HashInAnySpelling` | pkg/domain/types/types.go:14-20 | a Nix hash is found in upper and lower case and between blanks |
| `Registries.DigestWithOrWithout` | pkg/domain/types/types.go:26-37 | a digest is found in upper and lower case, with its prefix and without, and between blanks |
| `StorePaths.HashOfStorePath` | pkg/gc/gc.go:290-300 | both the collector and the publisher find the hash at the start of a store path's name, and the publisher the name behind it |
| `StorePaths.AlphabetIs` | pkg/nix/sign.go:65 | the alphabet has all digits and lower-case letters but four |
| `Repairs.RepairIndexEntry` | pkg/oci/manifest.go:120-157 | either the entry the manifest describes is added, or nothing changes and the error says which condition failed |
| `Repairs.RefsAnnotationIff` | pkg/publisher/publisher.go:500 | joining and splitting the references is the identity if and only if none has a comma and they are not one empty reference |
| `Repairs.RepairEqualsReplayIff` | pkg/oci/manifest.go:121-157 | the entry rebuilt from a published manifest is the one the merge adds, under exactly that condition; apart from the references it always is |
| `Repairs.CandidateHashes` | cmd/repair.go:57-66 | exactly the unlisted Nix hashes that are some tag in lower case |
| `Repairs.RepairAll` | cmd/repair.go:84-100 | whatever the order of the workers, every candidate with a live manifest is restored unless the registry is shaky about it; the restored are no more than counted as repaired, the skipped no more than counted as failed; nothing without a live manifest is counted as repaired, and nothing with one as failed unless the registry is shaky about it |
| `Repairs.RunRepair` | cmd/repair.go:36-118 | for every outcome: the pushed index is the old one with exactly the missing live paths added except for skipped ones, which the registry is shaky about and which are counted as failed; no push without a repaired entry, nor in a dry run, which reports exactly the candidates |
| `Repairs.CountsAreExact` | cmd/repair.go:88-97 | without trouble the counts reported are exactly those of the unlisted tags with and without a live manifest |
| `Repairs.UpperCaseRestoredIff` | cmd/repair.go:58-65 | after any repair that went through and did not skip the path, the index clients fetch has a path under an upper-case tag if and only if its lower-case tag is live as well |
| `Repairs.UpperCaseTagStaysLost` | cmd/repair.go:58-105 | a registry whose only live tag is upper-case: every repair fails and changes nothing |
| `Publishers.Publisher.IsUpstreamCached` | pkg/publisher/publisher.go:412-435 | true if and only if some signature is not ours |
| `Publishers.Publisher.CandidatePaths` | pkg/publisher/publisher.go:304-321 | exactly the closure paths with path info that are not upstream-signed |
| `Publishers.Publisher.RepairStale` | pkg/publisher/publisher.go:348-387 | every missing path is in the index afterwards or to be uploaded; the index changes only by entries that manifests describe |
| `Publishers.Publisher.StageDiffIndex` | pkg/publisher/publisher.go:273-410 | every candidate is indexed, recovered or to be uploaded, nothing that is indexed, or could be recovered, is uploaded again, and the index is pushed only if something was recovered |
| `Publishers.Publisher.PublishSingle` | pkg/publisher/publisher.go:565-629 | the archive is stored and the result says what the path's own facts say; no tag changes; it fails only for a path that cannot be exported or a registry shaky about blobs |
| `Publishers.Publisher.StageUpload` | pkg/publisher/publisher.go:437-530 | on success every path has a stored archive and a live manifest; on failure nothing is taken away, what was stored is exact, and some path has an excuse: it cannot be exported, its hash is none, or the registry is shaky |
| `Publishers.Publisher.StageMergeIndex` | pkg/publisher/publisher.go:532-563 | pushes the initial index with the results, but only if its digest is still current, or else the current one with the results |
| `Publishers.Publisher.PublishToRegistry` | pkg/publisher/publisher.go:190-241 | on a registry nobody else writes to: nothing is ever lost or promised in vain, and on success every candidate is in the index and, if it was not before, served; it fails only if the registry is shaky about the index or some candidate has an excuse; the course of the run is one of those the stages allow |
| `PublishReadings.PublishGrowsTruly` | pkg/publisher/publisher.go:190-241 | after a run that ends well every old entry is as it was, and every new one has the size, digest, name and narinfo text of the manifest under its hash, and the time of the run |
| `PublishReadings.BrokenRunGrowsTruly` | pkg/publisher/publisher.go:190-241 | and one that breaks off leaves only entries true to the manifests there are or were before |
| `PublishReadings.RepairGrowsTruly` | pkg/oci/manifest.go:120-157 | the same of a repair, however it ends |
| `PublishReadings.SweepCountsLayers` | pkg/oci/index.go:96-111 | then the bytes a sweep counts grow by exactly the layers of the manifests behind the new entries |
| `PublishReadings.PublishedAsExported` | pkg/publisher/publisher.go:565-629 | a wanted path that was not there is filed under the hash at the start of its name with the size and hash of its export, its name, references, and a narinfo text with its own facts |
| `PublishReadings.EntryTells` | pkg/publisher/publisher.go:594-629 | read back, the narinfo text of such an entry gives the path, both hashes, both sizes and all signatures, those of the path before ours |
| `PublishReadings.OnlyWantedAdded` | pkg/publisher/publisher.go:304-321 | nothing is added but paths of the closure that, if others' are skipped, bear our signatures only |
| `Publishers.AddAllKeys` | pkg/publisher/publisher.go:558-560 | merging adds exactly the results' hashes and each entry is the old one or a result's |
| `Publishers.RepairIsBacked` | pkg/publisher/publisher.go:376-387 | entries recovered during the diff can be served |
| `Publishers.MergeKeeps` | pkg/publisher/publisher.go:532-563 | merging keeps all entries, roots and tags, and keeps the index sound |
| `Publishers.PipelinePublishes` | pkg/publisher/publisher.go:301-409 | the stages together file every candidate; a tombstoned or deleted path is uploaded again |
| `Publishers.PublishedEntryIsStable` | pkg/oci/index.go:76-93 | a published entry comes back from a fetch unchanged |
| `Protocols.StepIsSafe` | pkg/publisher/publisher.go:438-563 | every single step of a writer or the collector keeps the invariant: index, copies, results and history all stand |
| `Protocols.EveryEntryIsServed` | pkg/gc/runner.go:76-85 | in every interleaving with crashes anywhere, of any number of writers or one collector at a time, every index entry has a live manifest and a stored archive |
| `Protocols.RepairRecovers` | cmd/repair.go:57-110 | in every reachable state the index with all live paths restored lists every path ever indexed and not deleted and every path uploaded, keeps all entries, revives nothing deleted, and can be served |
| `Protocols.RepairRunRecovers` | cmd/repair.go:36-118 | from every reachable state, a repair command that skips nothing, as one that reports no failure does, leaves such an index for its clients |
| `Protocols.RepairAfterwards` | cmd/repair.go:36-118 | the loops of the command themselves, run after any interleaving with every request answered, leave such an index |
| `ProtocolLosses.PushKeepsConcurrentWork` | pkg/publisher/publisher.go:389-563 | after any run, a push of a diff, a pin or a merge whose windows were quiet is the current index with the writer's repairs, roots or results added |
| `ProtocolLosses.LostOnlyInWindows` | pkg/publisher/publisher.go:277-563 | after any run, whatever entry such a push drops was listed by a push inside one of its windows |
| `ProtocolLosses.PinsLostOnlyInWindows` | pkg/publisher/publisher.go:277-563 | the same of the pins it drops |
| `ProtocolLosses.LostInSomeStep` | pkg/publisher/publisher.go:277-563 | an entry missing at the end of a run was dropped by a step of it that is a collector's eviction of it or a push in whose windows it was listed |
| `ProtocolLosses.QuietRunKeeps` | pkg/publisher/publisher.go:277-563 | an entry survives every run without such a step |
| `ProtocolRefinements.PublicationIsRun` | pkg/publisher/publisher.go:190-241 | all that a lone publisher does to a registry, successful or not, one writer of the protocol can do, so it keeps the invariant |
| `ProtocolRefinements.RepairIsRun` | cmd/repair.go:36-118 | the same of a repair |
| `ProtocolRefinements.CollectionIsRun` | pkg/gc/runner.go:46-113 | the same of a collection run and the protocol's collector |
| `ProtocolRuns.LostInDiff` | pkg/publisher/publisher.go:389-394 | a run in which the push of a diff drops what was pushed since its fetch |
| `ProtocolRuns.DiffLossStays` | pkg/publisher/publisher.go:535-563 | in that run the merge is quiet and pushes an index without the entry |
| `ProtocolRuns.LostByPin` | cmd/pin.go:54-70 | a run in which a pin drops an entry pushed since its fetch |
| `ProtocolRuns.LostInFirstWindow` | pkg/publisher/publisher.go:277-286 | a run in which a push between fetch and digest is lost |
| `ProtocolRuns.LostInSecondWindow` | pkg/publisher/publisher.go:543-562 | a run in which a push between the second digest and the merge is lost |
| `ProtocolRuns.LossFromEmpty` | pkg/publisher/publisher.go:438-563 | a run from an empty registry to one on which both take place |
| `ProtocolRuns.PinLostThenEvicted` | cmd/pin.go:54-70 | a run in which a pin is lost, after which every sweep without limits evicts the path it was to keep |
| `ProtocolRuns.OverlapBreaksSoundness` | pkg/gc/runner.go:46-88 | on every sound registry a run in which the collector works between a writer's fetch and its digest, after which the index lists a path whose manifest is gone |
| `ProtocolRuns.TwoCollectorsBreakSoundness` | pkg/gc/runner.go:46-88 | on every sound registry two overlapping collections, the second of which lists a path again that the first has pruned |
| `SingleFlight.InvAlways` | pkg/publisher/publisher.go:42-87 | the invariant of the export cache holds in every interleaving |
| `SingleFlight.ExportedOnce` | pkg/publisher/publisher.go:42-68 | a path is exported at most once and every caller that returns has that export's outcome |
| `SingleFlight.OutcomeIsFinal` | pkg/publisher/publisher.go:62-67 | an outcome never changes |
| `SingleFlight.NobodyStuck` | pkg/publisher/publisher.go:48-56 | behind every waiting caller there is an outcome or somebody who can take a step towards it |
| `SingleFlight.CleanupRemovesEachOnce` | pkg/publisher/publisher.go:70-87 | a finished cleanup has removed exactly the created files, each once |
| `SingleFlight.CleanupProgress` | pkg/publisher/publisher.go:81-86 | a cleanup never waits for an export that will not end |
| `NixBase32.EncodeNixBase32` | pkg/nix/sign.go:100-120 | the shift-and-reverse loop yields the base-32 numeral of the little-endian value; all accesses in bounds |
| `NixBase32.LoopDigit` | pkg/nix/sign.go:104-114 | the five bits taken at position i are the i-th base-32 digit of that value |
| `NixBase32.ReverseInPlace` | pkg/nix/sign.go:116-118 | the digits in reverse order |
| `NixBase32.DecodedEncoded` | pkg/nix/sign.go:100-120 | a reference decoder gives the bytes back, for every length |
| `NixBase32.EncodedInjective` | pkg/nix/sign.go:100-120 | inputs of one length with the same text are equal |
| `NixBase32.HexToNixBase32` | pkg/nix/sign.go:89-98 | a sum in hexadecimal is encoded, anything else refused |
| `NixBase32.HexRoundTrip` | pkg/nix/sign.go:89-98 | decoding hexadecimal undoes writing it |
| `NixBase32.EncodedExamples` | pkg/nix/sign.go:100-120 | three small encodings, spelt out |
| `Signing.Fingerprint` | pkg/nix/sign.go:46-57 | the fingerprint of the path with its references in sorted order |
| `Signing.SortedUnique` | pkg/nix/sign.go:53 | there is only one sorted arrangement, so the result does not depend on the algorithm |
| `Signing.BeforeIff` | pkg/nix/sign.go:53 | the order is that of the first difference, a prefix coming first |
| `Signing.FingerprintSays` | pkg/nix/sign.go:46-57 | read back, the text names the version, path, hash and size in this order and then the references, sorted |
| `Signing.FingerprintIgnoresOrder` | pkg/nix/sign.go:46-57 | references in another order give the same signed text |
| `NarInfos.GenerateNarInfo` | pkg/nix/nar.go:87-113 | the loops produce the specified lines in order |
| `NarInfos.FieldsRoundTrip` | pkg/nix/nar.go:87-113 | path, URL, compression, both hashes and both sizes can be read back from a generated text |
| `NarInfos.SignaturesRoundTrip` | pkg/nix/nar.go:108-110 | and so can the signatures, in order |
| `NarInfos.ReferencesRoundTrip` | pkg/oci/index.go:125-138 | parsing the references out of a generated text gives them back in order |
| `NarInfos.UpgradeRestoresGraph` | pkg/oci/index.go:76-93 | backfilling an index that lost its references restores the collector's graph |
| `NarInfos.RewriteNarInfoURL` | pkg/server/handler.go:283-301 | the in-place edit rewrites the first URL line of the text |
| `NarInfos.RewriteChangesOnlyUrl` | pkg/server/handler.go:283-301 | only that line changes, and its extension is kept |
| `NarInfos.RewriteOfGenerated` | pkg/server/handler.go:283-301 | a generated text has its URL replaced by the digest with the right extension and stays otherwise the same |
| `NarInfos.OfferedFilesResolve` | pkg/server/handler.go:303-328 | both file names under which an entry is offered resolve to that entry's blob |
| `ChunkedUploads.SendChunk` | pkg/oci/blob.go:256-333 | a chunk that is acknowledged has been stored exactly once, whatever failed before; as many failures in a row as there are retries are made up for |
| `ChunkedUploads.Commit` | pkg/oci/blob.go:348-401 | success means that the stored bytes are the blob; only trouble beyond the retries, or an expired session, prevents it |
| `ChunkedUploads.UploadBlobChunked` | pkg/oci/blob.go:211-402 | nothing but the whole file is ever committed; success means it was, in contiguous ranges each acknowledged once; with a readable file only an expired session, or more failures in a row than retries, prevents it |
| `ChunkedUploads.UploadBlobMonolithic` | pkg/oci/blob.go:97-209 | wherever the HTTP client leaves the file, and whether or not going back to its start works, nothing but the whole file is ever stored; with a closed file a failed first request is the end, otherwise as many failures as retries are made up for |
| `ChunkedUploads.TilesAreContiguous` | pkg/oci/blob.go:254-258 | such ranges start at 0, follow one another without gap, end at the size, and are no longer than 4 MB |
| `ChunkedUploads.UploadBlob` | pkg/oci/blob.go:27-86 | for files of every size: the registry's blobs keep matching their digests, and after success it holds the file; it succeeds if the file can be read, no more requests fail in a row than it endures and no more than two sessions expire, and at once if the blob is there |
| `RateLimiting.RateLimiter.Allow` | pkg/server/handler.go:54-77 | refills, caps and takes one token exactly when there is one; other clients' buckets are untouched |
| `RateLimiting.RateLimiter.Cleanup` | pkg/server/handler.go:43-52 | drops exactly the buckets idle for more than five minutes |
| `RateLimiting.TokenBucketBound` | pkg/server/handler.go:43-77 | in any stretch of any run a client gets at most the burst plus rate times duration, and buckets stay between 0 and the burst |
| `RateLimiting.BoundHoldsIff` | pkg/server/handler.go:43-77 | with cleanups anywhere the bound holds for all runs if and only if an idle bucket refills before it is dropped |
| `RateLimiting.AllAdmittedIff` | pkg/server/handler.go:54-77 | in any run a client gets all its requests through if and only if no stretch of them has more than the burst and what accrues in its duration |
| `RateLimiting.CleanupInvisible` | pkg/server/handler.go:43-52 | under that condition removing all cleanups from a run changes no decision |
| `RateLimiting.CleanupInvisibleIff` | pkg/server/handler.go:43-52 | and only under that condition |
| `RateLimiting.ServerLimiterHarmlessIff` | pkg/server/server.go:85-92 | the server's own settings meet it if and only if the rate is at least one request in five minutes |
| `RateLimiting.ServerLetsThroughIff` | pkg/server/server.go:85-92 | the server lets through at once what its rate allows in two seconds, and at least one request |
| `CircuitBreaking.CircuitBreaker.Allow` | pkg/server/circuitbreaker.go:36-54 | the answer and the new state as specified |
| `CircuitBreaking.CircuitBreaker.RecordSuccess` | pkg/server/circuitbreaker.go:56-69 | the new state as specified |
| `CircuitBreaking.CircuitBreaker.RecordFailure` | pkg/server/circuitbreaker.go:71-80 | the new state as specified |
| `CircuitBreaking.OpenClosesOnlyByProbing` | pkg/server/circuitbreaker.go:36-80 | in every run, from open to closed it takes a call later than the last failure plus the timeout and then two successes while half-open |
| `CircuitBreaking.HalfOpenFailureReopensIff` | pkg/server/circuitbreaker.go:56-80 | a failing probe reopens the breaker if and only if the threshold is reached by the failures recorded since the last success outside half-open or closing |
| `CircuitBreaking.HalfOpenFailureReopens` | pkg/server/circuitbreaker.go:66-80 | without late successes it always does |
| `CircuitBreaking.LateSuccessHidesProbeFailure` | pkg/server/circuitbreaker.go:66-68 | a run with a late success in which it does not |
| `CircuitBreaking.SerialRefines` | pkg/server/circuitbreaker.go:36-80 | in serial use the breaker behaves as the three-phase textbook machine |
| `CircuitBreaking.OpensExactlyAtThreshold` | pkg/server/circuitbreaker.go:71-80 | in serial use it opens from closed exactly at the threshold of consecutive failures, and from half-open exactly at a failure |
| `DiskCaches.DiskIndexCache.Save` | pkg/server/diskcache.go:96-130 | wherever a save stops, the files under their final names are whole, and are those before, or the new index, or both new files; on a sturdy disk they are the new ones |
| `DiskCaches.DiskIndexCache.Load` | pkg/server/diskcache.go:68-94 | what the files hold; no digest without an index |
| `DiskCaches.DigestNeverAheadIff` | pkg/server/diskcache.go:96-130 | over any saves interrupted anywhere the digest on disk is never ahead of the index if and only if no save has an index older than an earlier or its own digest |
| `DiskCaches.CurrentOnDisk` | pkg/server/server.go:206-209 | then a server that finds the remote digest on disk has the current index |
| `DiskCaches.SavesInOrder` | pkg/server/server.go:193-334 | a server whose refreshes do not overlap saves in that order, whatever others push and however often it restarts |
| `DiskCaches.DiskIsTrusted` | pkg/server/server.go:193-225 | so wherever its saves were interrupted, if it finds the remote digest on disk it has the remote index |
| `DiskCaches.OverlapPutsDigestAhead` | pkg/server/server.go:257-288 | a run of the server with two refreshes under way that leaves the digest ahead of the index |

## Left out

- UploadBlobChunked: an unanswered final request is a failure here, where the original dereferences a missing response (`pkg/oci/blob.go:371-394`).
- UploadBlobMonolithic: so is an unanswered upload request (`pkg/oci/blob.go:149-190`); delays between attempts are not modelled.
- SendChunk: the server accepts a chunk only at its current end, as the OCI Distribution Specification asks, and what it acknowledges it has stored.
- GetPathHash: takes paths as already cleaned; `filepath.Clean` is not modelled.
- Run: one collector at a time, and for the invariant not beside writers; the code enforces neither.
- PublishToRegistry: the public key manifest is not modelled, and the closure and the path infos are parameters.
- PublishSingle: compression, normalizing the hash of a path and signing are parameters that yield some text or fail; a Nix hash that is no valid tag makes the push fail.
- StageUpload: the workers run one after the other here; `Protocol.dfy` has all their interleavings with other writers. The order of uploads (largest first) is not modelled.
- RunRepair: no cancellation; a worker that is never started reports success in the original.
- ToLower: ASCII only, as tags and digests are.
- FetchIndex: an index that is stored as version 1 is read as such by `CacheIndex.Decode`; in the registry model all stored indexes have migrated roots.
- Engine: groups by an arbitrary function; the one used is `PackageNames.BasePackageName`.
- Sizes are unbounded natural numbers, times unbounded integers, and token counts real numbers: overflow and rounding are not modelled.
- Text is a sequence of characters; lengths count characters, where the original counts bytes.
- Equal indexes pushed twice count as different pushes; the original's digest may coincide, which is harmless.
- The registry's own removal of blobs that no manifest names is not modelled.
- `index clean` and the server's delete: further sequences of fetching, pushing and deleting, by a writer or a collector as above.
- `NormalizeNarHash`: base 64 decoding is library code.
- HTTP, tokens, redirects, the reverse proxy, the dashboard, metrics, logging and the command line.
