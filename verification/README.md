# Verified model of complyctl

complyctl caches *complypacks* (content for policy evaluators) fetched from OCI registries, scans targets with
provider plugins, and turns what the providers report into evaluation logs. This project models the parts of it where
several pieces of state have to agree, and proves that they do, or says exactly when they do not.

**Cache and sync.** `Storage` is what survives a process: the version directories `{evaluator-id}/{version}` and
`state.json`. Its class `Disk` also records every durable moment, so that a crash can be placed between any two steps.
`SyncState` is the in-memory state with its save and reload; `Cache` is lookup, the write-then-rename `Store` and the
retention-aware eviction; `Sync` is one call of `SyncComplypack` with its five outcomes. The methods are proved to keep
within relations (`StoreStep`, `LookupAnswer`, `SyncStep`, `SyncMoment`) that leave open what Go leaves open: the
iteration order of maps and the order of timestamp ties. The order of `ReadDir` is left open as well, which covers the
sorted order it has in Go. `CacheTheorems` and `SyncTheorems` are about those relations. `Releases` adds what the
registries publish, `Agreement` says exactly which calls and crashes keep state and disk together, `Runs` is about whole
runs, `Confluence` about the order of calls, and `Determinism` shows that in a one-owner catalog nothing depends on what
was left open. `Get` is the loop over all configured complypacks and its check for shared evaluators, `Workspaces` the
invalidation after a fetch. `Paths` looks at Store and at removals in the workspace on the level of joined paths.

**Scan to report.** `Evaluation` is the accumulating evaluator, over an update function of which only laws are assumed
(`Aggregation`); `Mapping` is the merge of mapping references, `Scan` the scan into parallel lists and the split into
reports, `Grouping` the routing of assessment plans to evaluators.

**Code written twice.** `Doctor` compares the doctor's orphan list with eviction, and its registry error cache with the
plain loop; `Generation` compares what a generation records with what the next freshness check asks.

## How the main results are stated

* `Releases` works against a catalog of releases. `GoodCatalog` says: one owner repository per evaluator-id, releases
  named by their embedded version, well-formed and collision-free digests, and version directories that are neither `.`
  nor hidden. `Serves` says that during one call lookup and copy agree, and that a version which is a release name means
  that release (immutable tags). `SomeCatalog` shows that the catalog's conditions can be met.
* Runs mix sync calls, crashes at any durable moment of a call, and restarts. `Sound` holds in every world of every run,
  whatever fails.
* `Agreed` says that each entry's own version is complete on disk. Whether a call keeps it, from any agreed world and
  whatever its I/O does, depends on a condition that can be checked before the call (`DropsMemory`, `DropsSaved`); the
  same for a crash at the worst moment of a call (`CrashDrops`). Each is proved in both directions.
* `Settled` is agreed with nothing waiting to be saved, as after every start. It lasts through every run in which saves
  work and crashes happen only where at least two versions are retained (`Calm`): final renames, removals, listings,
  downloads and verifications may fail, and a crash may come at any moment. Transparency is stated outright for such
  runs, for runs in which no condition holds, and for every fetch and cache hit of any run; for a skip after failures it
  has an exact condition.
* `Confluence` assumes that saves succeed, repositories differ, and the evaluators the calls may touch are disjoint. In a
  catalog the last follows from the others (`CatalogMakesIndependent`), every call is determined (`CallIsDetermined`), and
  so any two runs over the same list, in whatever orders, end in one world with the same results (`AllOrdersMeet`).
* What a crash can leave is bounded from both sides: `SyncMoment` by every moment that the methods record, `Passing` by
  moments that they are proved to record. Harm is shown at moments of the second kind.

## What turned out not to hold

* With one version retained, a skip after a crash between the store and the save serves another release: the entry's
  version was evicted, and lookup falls back to the directory scan, which finds the newer one (`RollbackAfterCrash`).
  With two or more it cannot happen (`CalmKeepsSettled`). A skip is right exactly when the recorded version is still on
  disk (`SyncIsTransparentIff`).
* A comment at internal/cache/complypack.go:157-159 says a failed rename preserves old versions. The target itself is
  removed first (line 145). For a call from a settled world that matters in one case only: a cache hit that could not be
  saved is followed by a fetch of the same version, whose rename fails (`MemoryBackedIff`, `UnsavedHitThenFailedRename`).
  Where memory and the saved entries already differ, the version lost can also be the one that the saved entry names
  (`DropsSaved`).
* Two repositories with one evaluator-id are never answered by a skip (`SharedEvaluatorNeverSkips`): offline their syncs
  fail, and with an unchanged registry they are fetched again or recorded anew as a cache hit. If both are configured they
  are reported, after the syncs. If one is an entry left over from an earlier configuration they are never reported,
  although every lookup of the evaluator then fails; internal/cache/state.go:254-257 says that the get command rules this
  out (`CleanCheckIff`, `RenamedRepositoryIsNeverReported`).
* `ValidatePathComponent` accepts `.`. Store then removes other evaluators' files, and with version `.` also what it just
  stored (`OthersStayIff`, `DotFate`, `DotVersionRemovesItself`).
* The doctor flags hidden temp directories that eviction never removes (`FlaggedGoesIffVisible`).
* A cached complypack of an evaluator that a policy does not use makes every check of that policy regenerate
  (`ReusedWhenAgreedIff`).
* Invalidation removes `{workspace}/{evaluator}`, which leaves generation states and other evaluators' artifacts alone
  exactly when the evaluator is called neither `.` nor `generation` (`RemovalIsHarmlessIff`).
* The doctor lets a pinned policy pass without looking at the cached version when the registry has no "latest" but knows
  the pin (`PassesIff`); with a "latest" it compares the two.
* The split by target is lossless exactly when no other target of the same id has findings (`SplitIsLosslessIff`);
  configuration validation excludes equal ids.

## Model

| member | source | states |
|---|---|---|
| Naming.ValidatePathComponent | internal/cache/complypack.go:61-78 | accepts exactly the non-empty names over letters, digits, dot, underscore and hyphen without two dots in a row, though it checks in stages |
| Naming.AcceptedIff | internal/cache/complypack.go:57-78 | the accepted names written out: non-empty, over the listed characters, nowhere two dots in a row |
| Naming.DigestForm | internal/cache/sync.go:37-47 | what counts as a digest: algorithm, colon, and that algorithm's number of lower-case hexadecimal digits |
| Naming.OwnDirectoryIffNotDot | internal/cache/complypack.go:57-84 | a validated pair has a directory of its own if and only if neither name is a single dot, which validation lets through |
| Naming.ReferencePinsTheVersion | internal/cache/sync.go:16-47 | two requested versions share a lookup reference if and only if they are equal or both mean "latest", so the verifier never approves a reference standing for another pinned version |
| Naming.ReferenceIsHostQualified | internal/cache/sync.go:16-47 | with a registry host the reference is host, slash and repository, followed by nothing for "latest", "@" and a digest, or ":" and a tag |
| Naming.ReferenceOtherwise | internal/cache/sync.go:16-47 | without a host it starts with the repository; slashes at the end of the host do not matter |
| Naming.HostIsBare | internal/registry/client.go:89-106 | with any scheme and with or without a trailing slash a registry is known by its bare host |
| Paths.OthersStayIff | internal/cache/complypack.go:82-160 | whatever eviction keeps as tracked, Store leaves other evaluators' files alone if and only if neither name is a single dot |
| Paths.DotFate | internal/cache/complypack.go:98-160 | with one dot a file of another visible evaluator stays if and only if its evaluator is kept as tracked, or, for the evaluator ".", it is one of the two files written over the evaluator that the version names; with two dots none stays |
| Paths.DotVersionRemovesItself | internal/cache/complypack.go:98-162 | with version "." even the files just stored are removed, while Store reports success |
| Cache.LookupVersion | internal/cache/complypack.go:308-341 | a hit if and only if both names are valid and both files are there and parse, and then the answer is that directory and its config; never a quiet miss |
| CacheTheorems.FoundIffThere | internal/cache/complypack.go:308-341 | a version is found with a config if and only if both names are valid and the directory holds some content and that config |
| SyncState.State.UpdateComplypack | internal/cache/state.go:201-227 | a malformed digest changes nothing; otherwise exactly one entry and the sync time change |
| SyncState.State.EvaluatorIDToVersion | internal/cache/state.go:248-278 | the reverse lookup: the version if one repository has the evaluator, nothing if none, an error if two, for any map order |
| SyncState.ActiveIsUnique | internal/cache/state.go:248-278 | the answer of the reverse lookup is determined by the state alone |
| SyncState.SaveState | internal/cache/state.go:125-172 | replaces the file as one durable moment with the whole state, or changes nothing |
| SyncState.ExcludeMalformed | internal/cache/state.go:91-111 | deleting while iterating keeps exactly the entries with an empty or well-formed digest, for any order |
| SyncState.LoadState | internal/cache/state.go:63-89 | a missing file gives an empty state, an unreadable or unparsable one an error, any other the well-formed entries of the file |
| SyncState.SaveLoadRoundTrip | internal/cache/state.go:63-172 | save then load gives the state back if and only if every digest is well formed; loading what was loaded changes nothing more |
| Cache.SortByStamp | internal/cache/complypack.go:286-306 | a permutation in which no version comes before one with an earlier timestamp; nothing is said about ties |
| Cache.ComplypackCache.CollectStamps | internal/cache/complypack.go:269-306 | exactly the tracked versions, each with the timestamp of one entry tracking it |
| Cache.ComplypackCache.LookupByDirScan | internal/cache/complypack.go:389-428 | an answer of the scan for any order of names: an error if the directory cannot be listed or at a visible directory with content and no readable config, nothing only if no visible directory has content |
| Cache.ComplypackCache.LookupByEvaluatorID | internal/cache/complypack.go:343-387 | the state's active version if it is complete, an error for a shared evaluator, else an answer of the scan |
| Cache.ComplypackCache.Partition | internal/cache/complypack.go:206-240 | splits the candidates exactly into tracked and orphaned |
| Cache.ComplypackCache.ExcessVersions | internal/cache/complypack.go:240-267 | what is left of the tracked versions is min(N-1, tracked) of them, none older than one that goes |
| Cache.ComplypackCache.EvictOldVersions | internal/cache/complypack.go:165-267 | removes everything visible but the target, a choice of newest tracked versions, and what cannot be removed; each moment on the way lacks only versions that are gone in the end |
| Cache.ComplypackCache.Store | internal/cache/complypack.go:86-163 | the whole tree after success and after each kind of failure, the state file untouched, every durable moment in between a point of this Store, and among them the tree without the old target and the final one |
| CacheTheorems.ExactRetention | internal/cache/complypack.go:165-306 | survivors beside the target are tracked, exactly min(N-1, tracked) many, none older than an evicted tracked one; the target, other evaluators and hidden directories do not change |
| CacheTheorems.RetainedCount | internal/cache/complypack.go:244-260 | beside the target stay all tracked versions if they are at most N-1, else exactly N-1, and none for N of 1 or less |
| CacheTheorems.NewestStay | internal/cache/complypack.go:251-306 | of a version that stays and a tracked one that goes, the entries themselves say that the first was not updated earlier |
| CacheTheorems.SingleOwnerRetention | internal/cache/complypack.go:165-306 | with one owner the only possible survivor beside the target is the previously active version, kept exactly when N is above 1 |
| CacheTheorems.StoreIsCrashSafe | internal/cache/complypack.go:98-162 | at every moment a visible directory is an old one unchanged or the complete new one; none but the target goes before the new one is in place; what is retained is there all the time; complete trees stay complete |
| CacheTheorems.FailedStore | internal/cache/complypack.go:112-151 | a failed Store leaves everything but its temp directory and the target; the target is lost if and only if it was there and both files had been written; with working cleanup nothing is added, else only a hidden directory |
| CacheTheorems.ScanOfWholeTree | internal/cache/complypack.go:389-428 | over complete visible directories a scan cannot fail, never answers with a hidden directory, and answers nothing exactly when there is no visible one |
| CacheTheorems.LookupFindsActive | internal/cache/complypack.go:343-387 | with one owner whose version is complete, every order of map and directory gives that version |
| Sync.ComplypackSync.CacheExistsForState | internal/cache/complypack_sync.go:60-69 | yes and no only where some lookup of the recorded evaluator hits or does not hit |
| Sync.ComplypackSync.TryLocalCacheHit | internal/cache/complypack_sync.go:223-272 | hits exactly when the version is on disk, the verifier approves and the save works; a failed save leaves the entry in memory only |
| Sync.ComplypackSync.Fetch | internal/cache/complypack_sync.go:161-220 | world and result of every step from verification to save, and what a crash at any moment leaves |
| Sync.ComplypackSync.SyncComplypack | internal/cache/complypack_sync.go:71-221 | one of the five outcomes with exactly its effect on disk, memory and saved state; what a crash at any moment may leave, and the moments the call is certain to pass through |
| SyncTheorems.SelfHealing | internal/cache/complypack_sync.go:142-272 | from any world, "fetched" means: remote digest recorded, named version complete on disk, saved equal to memory, and the verifier approved in this call the reference written out as host, slash, repository and the pin asked for |
| SyncTheorems.RecordedAfterSync | internal/cache/complypack_sync.go:115-271 | "fetched" records either the version asked for under the recorded evaluator, already on disk, or the evaluator and version that the package for that version names, with that package on disk; digest and time are those of this call, and without a verifier the entry is marked unverified |
| SyncTheorems.RepeatIsSkip | internal/cache/complypack_sync.go:97-127 | after "fetched" with one owner, repeating with the same remote digest or without a registry is a skip that changes nothing |
| SyncTheorems.SharedEvaluatorNeverSkips | internal/cache/complypack_sync.go:60-127 | repositories sharing an evaluator are never answered by a skip; offline they fail |
| SyncTheorems.FailureFrame | internal/cache/complypack_sync.go:79-200 | an error before Store leaves disk and saved state; memory changed if and only if a cache hit was recorded and its save failed |
| SyncTheorems.OutcomeFrame | internal/cache/complypack_sync.go:79-221 | in every outcome only this repository's entry and the directory of the evaluator of the package handed out in this call can differ |
| SyncTheorems.StoredTarget | internal/cache/complypack.go:90-163 | after a successful Store the target is complete, whatever eviction managed to remove |
| Releases.SomeCatalog | internal/cache/complypack_sync.go:208-213 | the assumptions on the registry, and those of the two counterexamples, can be met: two releases of one evaluator, the first recorded |
| Releases.HitIsFaithful | internal/cache/complypack_sync.go:223-272 | with immutable tags the entry a cache hit records names the release the registry serves, with that release's bytes on disk, although the digest comes from elsewhere |
| Releases.SyncKeepsSound | internal/cache/complypack_sync.go:79-221 | whatever fails, directories hold the releases they name and entries describe releases; a fetch or hit leaves its entry on disk |
| Releases.CrashKeepsSound | internal/cache/complypack_sync.go:79-221 | the same for every moment of a call cut short |
| Releases.SyncIsTransparentIff | internal/cache/complypack_sync.go:79-221 | after a fetch or hit lookup can only give the served release; after a skip it does if and only if the recorded version is on disk |
| CacheTheorems.StaysIff | internal/cache/complypack.go:190-266 | where at most one version is tracked, a candidate stays if and only if nothing can be listed, its removal fails, or it is the tracked one and N is above 1 |
| Agreement.LostIff | internal/cache/complypack.go:90-267 | the version an entry names is gone after a Store of its repository if and only if its replacement failed at the rename, or the Store succeeded and eviction under the current state removes it |
| Agreement.CallCases | internal/cache/complypack_sync.go:97-205 | from an agreed state a call reaches Store if and only if the digest is new, no saved hit answers and all steps before succeed; otherwise the disk stays and at most a hit is recorded |
| Agreement.MemoryBackedIff | internal/cache/complypack_sync.go:142-220 | memory and disk agree after a call, whatever its I/O does, if and only if it is not an unsaved hit followed by a failed replacement |
| Agreement.SyncKeepsAgreedIff | internal/cache/complypack_sync.go:79-221 | state and disk, in memory and as saved, stay in agreement if and only if neither that happens nor the version the saved entry names is lost while the entry stays |
| Agreement.CrashKeepsAgreedIff | internal/cache/complypack_sync.go:142-220 | every moment of a call leaves saved entries whose versions are on disk, if and only if the saved version is neither being replaced nor about to be evicted; otherwise a moment the call is certain to pass through does harm |
| Agreement.SettledConditions | internal/cache/complypack.go:219-266 | where memory is as saved, a crash or failed save costs the active version if and only if another version is stored, removal works, and N is 1 or a hit was not saved |
| Agreement.SavingKeepsSettled | internal/cache/complypack_sync.go:142-220 | with working saves every call, failed renames included, keeps agreement and memory as saved |
| Runs.StepKeepsSound | internal/cache/complypack_sync.go:79-221 | calls, crashes at any moment and restarts keep soundness |
| Runs.StepKeepsAgreed | internal/cache/complypack_sync.go:79-221 | each of them keeps agreement where its condition does not hold, and a call loses it where it does |
| Runs.CalmKeepsSettled | internal/cache/complypack.go:240-267 | with working saves, and N of 2 or more where it crashes, a crash at any moment keeps agreement |
| Runs.RunInvariant | internal/cache/complypack_sync.go:79-221 | soundness holds in every world of a run; agreement as long as no condition holds; agreement with memory as saved in every calm run |
| Runs.AgreedUntilDrop | internal/cache/complypack_sync.go:79-221 | in a run of calls and restarts every world is agreed if and only if no call meets its condition |
| Runs.CacheTransparency | internal/cache/complypack_sync.go:79-221 | over whole runs: a call that returned no error with the registry reachable leaves lookup answering exactly the served release, in any map and directory order; only a skip after failures can differ, with its exact condition |
| Runs.AlwaysServed | internal/cache/complypack_sync.go:97-127 | in such runs every recorded repository is served from disk at all times, with or without a registry |
| Runs.RollbackAfterCrash | internal/cache/complypack_sync.go:119-127 | with N of 1, a crash between store and save at a moment the call is certain to pass through, a restart, and the old release served again: the sync is a skip and lookup answers the other release |
| Runs.UnsavedHitThenFailedRename | internal/cache/complypack_sync.go:142-206 | a call from a settled world after which memory names a version that is not on disk |
| Confluence.LookupIsLocal | internal/cache/complypack.go:343-428 | lookup depends only on the evaluator's directories and the entries tracking it |
| Confluence.StoreIsLocal | internal/cache/complypack.go:86-267 | Store and eviction act the same on trees and states that agree about the evaluator |
| Confluence.CallIsLocal | internal/cache/complypack_sync.go:79-272 | a call does to any world that looks the same to it what it did to this one |
| Confluence.CallsCommute | internal/cache/complypack_sync.go:79-272 | calls on distinct repositories with disjoint evaluators commute: same disk, entries, saved entries and results |
| Confluence.OrderDoesNotMatter | cmd/complyctl/cli/get.go:506-546 | every order of an independent list of complypacks can end in exactly the same worlds with the same results |
| Determinism.PresenceIsDetermined | internal/cache/complypack_sync.go:60-69 | whether a recorded evaluator is found does not depend on any order |
| Determinism.EvictionIsDetermined | internal/cache/complypack.go:206-266 | with one owner per evaluator, what eviction removes does not depend on any order |
| Determinism.CallIsDetermined | internal/cache/complypack_sync.go:79-272 | from a sound world, what a call does and returns is determined by what the outside answers |
| Determinism.CatalogMakesIndependent | cmd/complyctl/cli/get.go:506-546 | in a one-owner catalog calls on distinct repositories touch disjoint evaluators |
| Determinism.AllOrdersMeet | cmd/complyctl/cli/get.go:506-546 | any two runs over the same configured complypacks, in whatever orders, end in one world with the same result for every entry |
| Get.SyncSingleComplypack | cmd/complyctl/cli/get.go:548-628 | an entry that does not parse or has no verifier changes nothing; otherwise one sync step for the requested or resolved version, and exactly after a fetch the invalidation step of its evaluator, whatever fails in it |
| Get.PinIsRequested | cmd/complyctl/cli/get.go:565-593 | what is synced is the URL's own pin, else what the registry names as latest, else "latest"; insecure exactly for a plain http registry |
| Get.PinIsApproved | cmd/complyctl/cli/get.go:558-593 | from the configured URL to the verifier: a pinned complypack reported as fetched had its host, repository and pin approved in that call, however the registry was written |
| Get.PinIsRecorded | cmd/complyctl/cli/get.go:558-593 | and what is recorded is the pinned version from the cache or the package the registry holds under the pin |
| Get.SyncAllComplypacks | cmd/complyctl/cli/get.go:506-546 | the loop is the sequence of all single syncs, failed ones included |
| Get.ValidateUniqueEvaluatorIDs | cmd/complyctl/cli/get.go:659-707 | reports exactly the evaluators claimed by more than one configured entry |
| Get.ClaimsIff | cmd/complyctl/cli/get.go:666-686 | an evaluator is reported if and only if two configured entries at different places have it |
| Get.RenamedRepositoryIsNeverReported | internal/cache/state.go:254-257 | a repository renamed in the configuration: the sync succeeds, the check is clean, and every lookup of the evaluator fails |
| Get.NoneForgotten | internal/cache/state.go:201-227 | no call removes an entry, so that entries outlive their configuration |
| Workspaces.Workspace.InvalidateGenerationForComplypack | cmd/complyctl/cli/get.go:630-657 | the workspace after success and after each kind of failure: only states naming the evaluator go, all of them before its artifacts, and nothing for an unrecorded repository |
| Paths.RemovalIsHarmlessIff | internal/policy/generation_state.go:153-166 | derived from joined paths: removing an evaluator's directory leaves all generation states and other evaluators' artifacts alone if and only if the validated name is neither "." nor "generation" |
| Workspaces.LeftAfterInvalidation | cmd/complyctl/cli/get.go:630-657 | file by file: an invalidation that worked leaves everything but the evaluator's artifacts and the states naming it |
| Workspaces.ArtifactsAreGone | cmd/complyctl/cli/get.go:649-653 | the evaluator has no artifacts afterwards |
| Workspaces.FetchForcesRegeneration | cmd/complyctl/cli/get.go:605-625 | after an invalidation that worked exactly those policies reuse artifacts that did before and whose state does not name the evaluator; none does for the names "." and "generation" |
| Get.CleanCheckIff | cmd/complyctl/cli/get.go:659-707 | under a clean check the reverse lookup cannot fail if and only if no recorded repository that is no longer configured shares its evaluator with another recorded one |
| Doctor.FindOrphanedVersions | internal/doctor/doctor.go:1226-1291 | each version directory not tracked by the state, once, with the label for a missing state, and none below a directory that cannot be listed |
| Doctor.FlaggedIffUntracked | internal/doctor/doctor.go:1226-1291 | no tracked version is flagged and every other one is, with and without state |
| Doctor.FlaggedGoesIffVisible | internal/doctor/doctor.go:1226-1291 | what the doctor flags for an evaluator, other than the version being stored, is removed by the next Store under the same state if and only if it is visible |
| Doctor.StoreSettlesDoctor | internal/doctor/doctor.go:1226-1291 | after such a Store at most the version just stored is flagged among the visible ones |
| Doctor.ResolvePinnedFallback | internal/doctor/doctor.go:569-621 | the result of a failed lookup, with a second call exactly for a pinned policy whose "latest" was not found |
| Doctor.CheckPolicyVersions | internal/doctor/doctor.go:443-567 | one result per policy in order and exactly the calls of the specification; each goes to its own policy's registry, not known to be down, and a pinned one only after "not found" |
| Doctor.NoCallAfterFailure | internal/doctor/doctor.go:471-621 | in the sequence of calls none of any kind follows to a registry after a latest lookup there failed other than by "not found" |
| Doctor.JustifiedAreMade | internal/doctor/doctor.go:471-621 | no call is left out either: every cached policy is asked for unless its registry is down, and its pin after "not found" |
| Doctor.PassesIff | internal/doctor/doctor.go:474-621 | a policy passes if and only if its cached version is the pin, or without a pin the latest, or "latest" is missing and the pin resolves; it fails if and only if its URL does not parse |
| Doctor.CachedPassesIff | internal/doctor/doctor.go:493-505 | with the error cache it passes if and only if it would without it and no earlier lookup at its registry failed |
| Doctor.ResultsTell | internal/doctor/doctor.go:512-562 | while the registry answers, the result names the cached version and what it was compared with: the pin it misses, the newer latest one, or neither |
| Doctor.DownIff | internal/doctor/doctor.go:471-520 | a registry is taken as down if and only if a lookup there failed for an earlier policy |
| Doctor.ErrorCacheAgreesIff | internal/doctor/doctor.go:471-567 | the results equal those of the loop without error cache if and only if failed registries would have kept failing |
| Aggregation.SomeLawfulUpdate | internal/output/sarif.go:57-64 | the laws assumed of the library's update function can be met |
| Aggregation.FoldUpdate | internal/output/evaluator.go:98-105 | updating one control's result in place updates the fold over all controls by the same result |
| Aggregation.FoldOfPermutation | internal/output/sarif.go:57-64 | the order of results does not matter |
| Evaluation.AggregateResultFromSteps | internal/output/sarif.go:57-64 | the loop computes the fold of the converted step results |
| Evaluation.MatchingStepMessage | internal/output/scan_summary.go:43-56 | the message of the first step with the wanted result, else of the first step, else nothing |
| Evaluation.LogExplainsResult | internal/output/evaluator.go:195-271 | a log's result is the fold of what its own steps return; unless it passed, its message is that of the first step that decided the result, or the assessment's if that is empty; it lacks a description only if the requirement has no id |
| Evaluation.Evaluator.AddTarget | internal/output/evaluator.go:78-106 | the three tables together become the old ones with all converted assessments added |
| Evaluation.LogCarriesAssessment | internal/output/evaluator.go:195-271 | everything not aggregated is taken over: requirement, plan, evidence, confidence, recommendation, and for each step its message and the result of the same meaning |
| Evaluation.ControlsHoldTheirAssessments | internal/output/evaluator.go:78-106 | a control holds the logs of exactly those assessments whose requirement is mapped to it, or is not mapped and has its name, each as often as it was added |
| Evaluation.AssessmentIsFound | internal/output/evaluator.go:188-193 | each assessment's log is found under the control its requirement is mapped to, or else under the requirement, and under no other |
| Evaluation.AccumulationIsAHomomorphism | internal/output/evaluator.go:78-106 | adding two lists in turn is adding their concatenation |
| Evaluation.EachControlHoldsItsOwn | internal/output/evaluator.go:78-106 | each control holds exactly its own logs in input order, the fold of their results, and a step-name row for each |
| Evaluation.UnderIsExact | internal/output/evaluator.go:188-193 | every assessment is under its own control and no other, as often as it was added |
| Evaluation.OrderIsFirstAppearance | internal/output/evaluator.go:83-93 | exactly the controls of the input are listed, by the position of their first occurrence in the input |
| Evaluation.TwoLevelsAreOne | internal/output/evaluator.go:98-125 | folding within controls and then over controls is folding over all assessments |
| Evaluation.OverallIsFlatFold | internal/output/evaluator.go:110-149 | the overall result is one fold over all steps of all assessments, except "not applicable" when there are none |
| Evaluation.OverallIsOrderAndMapFree | internal/output/evaluator.go:110-149 | it depends neither on the order of the assessments nor on the requirement-to-control map |
| Evaluation.Evaluator.GemaraLog | internal/output/evaluator.go:108-149 | the controls in listed order with the overall result |
| Evaluation.Evaluator.ToSerializable | internal/output/evaluator.go:373-421 | one serialized control per listed control, made from its logs and its rows of names |
| Evaluation.SerializationIsExact | internal/output/evaluator.go:373-421 | every log stands with the identities of its own step names, and the guard for a missing row never applies |
| Evaluation.SerializedStepsAreOwn | internal/output/evaluator.go:357-421 | each serialized log is the log of some assessment, and its steps are that assessment's step names in order, prefixed by the complypack's reference and "#" where both are there |
| Mapping.MergeMappingReferences | internal/output/scan_summary.go:215-279 | the merge is policy references then first-wins provider references with notes where the index points; every losing reference is reported in order with the right titles and winner; references without id are discarded |
| Mapping.PolicySurvives | internal/output/scan_summary.go:215-279 | a policy reference stays in its place with its own description at the end, and is changed at all if and only if a provider reference has its non-empty id and no later policy reference does |
| Mapping.ProviderSurvives | internal/output/scan_summary.go:225-279 | the kept provider references follow the policy's in order with their own descriptions at the end; one is changed if and only if its id occurs again |
| Mapping.NotesReverse | internal/output/scan_summary.go:255-279 | notes stack with the latest in front, one for each losing reference, at its own id only |
| Mapping.NothingIsLost | internal/output/scan_summary.go:225-279 | every provider reference is kept, collides or has no id, as often as it occurs |
| Mapping.KeptCoversIds | internal/output/scan_summary.go:225-279 | the kept references cover exactly the non-empty ids outside the policy's |
| Mapping.KeptIsFirstWins | internal/output/scan_summary.go:225-279 | a provider reference is kept if and only if it is the first with its non-empty id and the policy does not use the id |
| Mapping.KeptAreDistinct | internal/output/scan_summary.go:225-279 | no two kept references share an id |
| Mapping.DiscardedTitles | internal/output/scan_summary.go:225-279 | the discarded titles are those of the references without an id, in order |
| Mapping.EarlierStays | internal/output/scan_summary.go:225-279 | more provider references never change what earlier ones contributed |
| Mapping.Annotated | internal/output/scan_summary.go:255-279 | the index points at the right entry when one note is prepended, and no other entry changes |
| Scan.ScanSingleTarget | cmd/complyctl/cli/scan.go:834-865 | all evaluators' findings in order, or an error exactly when one cannot be routed |
| Scan.ScanAllTargets | cmd/complyctl/cli/scan.go:800-832 | the parallel lists, errors and per-target references of all targets in order, or an error exactly when one target fails |
| Scan.SingleHoldsAnswers | cmd/complyctl/cli/scan.go:852-865 | a target's findings, errors and references are exactly the evaluators' answers, one after the other at the offsets their lengths give |
| Scan.OutputHoldsParts | cmd/complyctl/cli/scan.go:805-818 | over all targets, findings, their target ids, errors and each id's references are exactly the targets' own, one after the other |
| Scan.EveryAnswerIsReported | cmd/complyctl/cli/scan.go:800-865 | what an evaluator answers for a target stands whole and in order in the flat list, and with distinct ids in that target's report |
| Scan.SplitIsJoined | cmd/complyctl/cli/scan.go:629-637 | splitting the parallel lists gives an id the findings of all targets with that id |
| Scan.SplitIsLosslessIff | cmd/complyctl/cli/scan.go:606-640 | the split gives a target exactly what was scanned for it if and only if no other target of the same id has findings |
| Scan.ReportsPartitionTheScan | internal/complytime/config.go:456-466 | with the distinct ids that validation enforces, each target gets exactly its findings and the reports together are the flat list |
| Scan.BuildEvaluators | cmd/complyctl/cli/scan.go:587-641 | one fresh evaluator per target holding exactly that target's share, references merged with that target's alone, the collisions of all targets with each id once, and all discarded titles in order |
| Scan.DiscardedInOrder | cmd/complyctl/cli/scan.go:606-623 | the discarded titles of all targets, one target after the other |
| Scan.WarnedOnce | cmd/complyctl/cli/scan.go:602-622 | an id is warned about if and only if it collides on some target, and then once |
| Grouping.ExtractFromPolicy | internal/policy/resolver.go:411-443 | each plan with its evaluator, in order; the graph-level evaluator is set exactly when all plans have the same |
| Grouping.GroupByEvaluator | internal/policy/assessment.go:34-56 | the shortcut's single group, or the partition by evaluator |
| Grouping.ShortcutIsPartitionIff | internal/policy/assessment.go:34-56 | the shortcut's group is the partition if and only if there are plans and all name that evaluator |
| Grouping.GroupsPartitionPlans | internal/policy/assessment.go:34-56 | every configuration is in its evaluator's group and no other, as often as it occurs |
| Grouping.PartitionIsUnique | internal/policy/assessment.go:34-56 | there is one partition, order inside the groups included |
| Grouping.GroupsOfPolicy | internal/policy/resolver.go:416-443 | from a policy to its groups, shortcut or not: each plan is in the group of its own first executor if that is named, else of the policy's first, else of the empty id; nothing else is in a group, and the groups are the partition |
| Grouping.ConfigurationOfPlan | internal/policy/resolver.go:423-434 | the i-th configuration carries the i-th plan's id and requirement and the evaluator it is routed to |
| Generation.ComplypackDigestsByEvaluator | cmd/complyctl/cli/scan.go:681-689 | exactly the evaluators with a recorded digest, each with one entry's digest, for any map order |
| Generation.DigestsAreUnique | cmd/complyctl/cli/scan.go:681-689 | with one owner per evaluator the order does not matter |
| Generation.HasArtifactsIff | cmd/complyctl/cli/scan.go:721-734 | an evaluator's artifact directory holds something if and only if some file's path starts with its name |
| Generation.NeedsRegeneration | cmd/complyctl/cli/scan.go:704-734 | no exactly when a generation is recorded, fresh, and all its artifact directories are non-empty |
| Generation.GenerateForAllTargets | cmd/complyctl/cli/scan.go:754-790 | available are exactly the groups whose lookup found a complypack, in any order; no answer only where a lookup may fail or a provider does |
| Generation.RunGeneration | cmd/complyctl/cli/scan.go:736-752 | records the digests of exactly the available evaluators and all evaluator ids, or nothing |
| Generation.ReusedIff | cmd/complyctl/cli/scan.go:665-752 | with nothing changed the next check reuses the artifacts if and only if every evaluator with a cached digest was available and all artifact directories are non-empty |
| Generation.ReusedWhenAgreedIff | cmd/complyctl/cli/scan.go:665-790 | where state and disk agree: if and only if every cached complypack belongs to an evaluator of this policy and all artifact directories are non-empty |
| Generation.ReuseServesTheSame | cmd/complyctl/cli/scan.go:665-790 | when artifacts generated in one agreed world are reused in another, every evaluator of the policy recorded in either is recorded in both and served the same release in both |
| Generation.AgreedIsOwnedAndBacked | internal/cache/complypack_sync.go:208-220 | the agreement kept over runs is what the freshness result needs |
| Generation.InvalidateForEvaluator | internal/policy/generation_state.go:99-151 | removes exactly the readable well-formed states naming the evaluator and reports the unreadable and malformed ones; fails exactly when the directory cannot be opened or walked or such a state not removed, and then still removes no other |
| Generation.SavedIsLoaded | internal/policy/generation_state.go:31-70 | what is saved for a policy is what is loaded for it and for no other; a missing file is no state, an unreadable or malformed one an error |
| Generation.OldStateIsFreshIff | internal/policy/generation_state.go:72-86 | a state without a digest map is fresh exactly while its policy digest is current and no complypack is cached |
| Generation.InvalidationIsExact | internal/policy/generation_state.go:52-151 | afterwards exactly the policies whose state named the evaluator have no state; all others load as before |

## Left out

- Cache.ComplypackCache.Store: requires evaluator-id and version other than `.`, which the code accepts; what Store then does to the files is in `Paths`.
- Sync.ComplypackSync.Fetch: requires the same of the package handed out in this call.
- Sync.ComplypackSync.SyncComplypack: requires the same of the package handed out in this call; the OCI transport, unpacking, verifier, clock and temporary OCI store are parameters (`Answers`).
- Paths.OthersStayIff: is about one Store on joined paths that succeeds with working removals; lookups under `.` are not modelled.
- Storage.Disk.RemoveAll: removal, rename and the replacement of `state.json` are single steps that succeed or change nothing; a partly removed directory is not modelled.
- Storage.Disk.ReadDir: whether a listing fails is a parameter of lookup and eviction; empty evaluator directories are not distinguished from absent ones.
- Cache.ComplypackCache.RemoveVersions: cannot fail as a whole, as in the code; versions whose removal fails stay and only a warning is logged, which is not modelled.
- Runs.CacheTransparency: for a request of "latest" the version is what the lookup reports; that immutable tags equal the embedded version, and that nobody else deletes directories, is assumed.
- Runs.StepKeepsAgreed: for a crash the condition is about the worst moment of the call; a crash at an earlier moment may do no harm although it holds.
- Confluence.OrderDoesNotMatter: assumes that saves succeed; the time of the last sync is not compared, each call keeps its own clock readings, and the invalidations after fetches are not part of it.
- Get.SyncSingleComplypack: requires a package with directories of its own, as `SyncComplypack` does; parsing of the policy URL and the choice of the verifier are outcomes given with the request; what the registry names as latest is one too; progress output and the note about unverified packages are not modelled.
- Get.SyncAllComplypacks: the workspace after the whole loop is not specified, only after each entry.
- Get.ValidateUniqueEvaluatorIDs: gives the conflicting evaluators, not the message text with their repositories.
- Workspaces.Workspace.InvalidateGenerationForComplypack: the removal of an artifact directory is one step; a directory with nothing but empty directories in it counts as empty.
- Doctor.CheckPolicyVersions: parsing of policy URLs is a given (a missing reference is one that does not parse); the answer of a registry is a function of the position of the policy; a missing or corrupt state file, message texts and digest comparison beyond versions are not modelled.
- Evaluation.LogExplainsResult: assumes of the library's update function that it gives one of its two arguments, besides the laws; start times, the confidence enumeration and the conversion of evidence payloads are not modelled.
- Evaluation.Evaluator.AddTarget: the library's update function is a parameter.
- Mapping.PolicySurvives: holds for every text of notes that is never empty; `CollisionNote` gives the program's own text.
- Scan.ScanAllTargets: evaluator ids come as a sorted list; provider calls are a parameter.
- Grouping.ExtractFromPolicy: names, frequencies, timelines and other fields copied along are not modelled.
- Generation.RunGeneration: creation times, the lookup of the policy digest, and reading the state once for the check and once more for the generation are not modelled.
- `SyncPolicy` and the policy store: the presence check looks for a marker file only, so the results for complypacks do not carry over.
- `CacheRetentionCount`: how the environment variable becomes a number; the cache is modelled for every number.
- `FormatScanSummary`, SARIF, OSCAL and Markdown rendering, `Write`, the remaining doctor checks, `resolveAssessmentIDs`, and the command-line wiring: presentation, or easy members only.
- Two processes working on one cache at the same time.
