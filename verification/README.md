# RAM dedupe engine: a verified model

This project models the page-deduplication logic of Project RAM Crisis and proves what it keeps.
It covers the user-space engine (`user/dedupe_engine.cpp`), its scan scheduler
(`user/scan_scheduler.cpp`), the driver's page registry (`driver/deduper.cpp`) and the
controller's process-list loop (`user/controller.cpp`).

Code that updates things in place is modelled by classes, arrays and loops; every method is tied
to a function of the old state, and the theorems are about those functions, over all inputs, all
runs or all interleavings.

| files | what they hold |
|---|---|
| `Pages.dfy`, `Partition.dfy`, `Buckets.dfy`, `Operations.dfy` | pages, regions and counters as values; what a scan and a write compute; bucket probes |
| `Engine.dfy` | the engine's classes: pages updated in place, the bucket map, the counters |
| `Runs.dfy`, `RunCounters.dfy`, `Storage.dfy` | invariants of every run; what a run adds to each counter; the store of unshared pages against plain memory |
| `Hashing.dfy`, `LowBytes.dfy`, `Fingerprints.dfy`, `Casts.dfy`, `SignatureLaws.dfy`, `Signing.dfy` | the hashes and the fingerprints, the changes they tell, their values and what lengths add, and the engine run with them |
| `Scheduling.dfy`, `Interleaving.dfy`, `InterleavedCounters.dfy`, `Scheduler.dfy` | selection, repeated iterations, interleavings and their counters, the scheduler's class |
| `PageOrder.dfy`, `Collisions.dfy` | the driver's comparator, lookups guided by it, and pages its signature does not separate |
| `Registry.dfy`, `FrameOrder.dfy`, `OrderedTables.dfy`, `Grouping.dfy`, `Draining.dfy` | the driver's tables and operations as values; their order on any contents; ordered tables against maps from content to entry; the grouping; one drain |
| `RegistryRuns.dfy`, `RegistryBooks.dfy`, `RegistryLaws.dfy` | runs of additions, faults and drains: their invariant, its proof, and what follows |
| `GroupingCondition.dfy`, `Sections.dfy` | when the page table groups by content; additions in their separate locked sections |
| `Driver.dfy` | the driver's registry in place: 64-slot arrays with their shifting loop, two searched tables, the copy-on-write set |
| `ProcessList.dfy`, `Options.dfy` | the list command's retry loop and the driver's reply; optional values |

## Main results

- A scan with hash buckets merges a page into j exactly when j is the least unshared page with the
  same bytes and comes before it, for any signature function, however badly it collides. This holds
  exactly for regions in which no unshared page carries the index of its twin as a leftover
  (`mergePage` would return early); no run from fresh pages produces such a region.
- Following homes from every page gives back the bytes plain memory would hold, at every moment of
  a run, if and only if no write of the run changes the bytes of a page that is the home of a
  shared page. Chains of homes do form and are harmless. A write to a representative is not
  copy-on-write, because the representative is not flagged shared.
- `collisionProbes` grows by at least the number of repeated pages d and at most u(u-1)/2 + d*u,
  and by exactly d if and only if no two different scanned pages share a signature.
- Over every run each counter of scans grows by exactly what the run's scans add, counted on sets of
  pages: `collisionProbes` by the pairs of an unshared page and an earlier first page of the same
  signature. Writes move the two write counters alone.
- Strings that differ in exactly one byte never share the 64-bit hash, and a common suffix neither
  creates nor removes a collision. On pages of at least eight bytes, and on no shorter ones, one
  changed byte changes the fingerprint exactly when it is sampled, even where samples overlap.
  The fingerprint stays inside a page exactly when its length is at least 3 and is not 8, 9 or 16,
  and pages whose samples agree share it exactly when their lengths agree modulo 2^32.
- Every interleaving of the worker's four steps with additions and snapshots is a run with atomic
  scans, and at every moment of it the pages shared across all processes are the duplicates counted.
  Left alone, the worker rescans one region forever, and the counters follow a closed law.
- Call contents contiguous when, among tracked frames of one signature, no frame whose number lies
  between those of two frames of equal content holds other words. `ComparePageEntries` is a strict weak order, and lookups in
  trees ordered by it are complete, if and only if contents are contiguous. With the driver's own
  signature they need not be: every page of at least two words has colliding pages, which are
  constructed.
- Over all runs the page table is the grouping by content of the frames observed since the last drain
  if and only if contents are contiguous: for lookups through trees of any shapes, and also when every
  tree of the page table has at its root what was looked up last, as splaying leaves it. What a run
  reaches is independent of the shapes under the same condition. Under it the books of groups and
  registrations balance across drains and write faults, even when the pool refuses insertions, and
  groups stay sound, of one content each and of different contents.
- An addition is up to three locked sections. The books balance at every moment of every interleaving
  of such sections and of write faults, and the groups and the protected frames lag by exactly the
  promotions under way. That needs drains to run between additions: one that falls between the
  sections of an addition leaves a page protected for good.
- Contiguous contents or not, the page table stays ordered by hash, fingerprint and frame number, as
  numbers, and every drain ends with an empty page table.
- Demotion looks a group up with frame 0. So, with contents contiguous, demotion undoes promotion if
  and only if frame 0 holds the words of the frame and the frame was new to a group with room or to
  no group (a 65th frame is counted and never uncounted). And a drain after any run, with frame 0
  among the contiguous frames, clears exactly what holds the words of frame 0: it empties the
  copy-on-write registry if and only if every protected frame does, although
  `docs/safety_review.md:41` and `user/driver_test.cpp:173-190` expect it to be empty after every
  drain.

## Assumptions

- `size_t` and `ULONG` counters are natural numbers; they agree with the code while no counter
  reaches 2^64 (2^32 for the driver's reference counts). Vectors have at most SIZE_MAX elements.
- The engine takes its signature function as a parameter, defined on the pages it is given to;
  `Signing` instantiates it with the engine's own. Operation results are modulo 2^64 and 2^32.
- Scores are real numbers and the predictor is any pair of functions with scores in [0, 1].
- The scheduler's locked sections are atomic. As written, `workerLoop` already holds the mutex when
  `scanNextCandidate` locks it (`user/scan_scheduler.cpp:49`, `user/scan_scheduler.cpp:74`).
- The driver's locked sections are atomic, and so is a whole drain, although it takes no lock of its
  own (`driver/deduper.cpp:1007-1028`). The laws of runs take whole additions as steps;
  `Sections.AdditionIsItsSections` takes them apart, and drains then run while no addition is under
  way; `Sections.DrainBetweenSections` shows what happens otherwise. As written,
  `PromoteSharedPageGroup` returns holding the mutex (`driver/deduper.cpp:838`), and so does the
  not-found path of `DemoteSharedPageGroup` (`driver/deduper.cpp:847-849`).
- Frame contents do not change while tracked, mapping a frame succeeds, and a frame is added with
  the signature of its own words.
- A driver table is a binary search tree of its comparator, read by sign. Its shape at each lookup is
  a parameter, because lookups splay it; a new entry goes where the descent ended, a deletion searches
  for its element again, and enumeration follows the order of the tree.
- A list request counts the process table before taking the mutex and copies it under the mutex
  (`driver/deduper.cpp:1049`, `driver/deduper.cpp:1062`), so the two may disagree within one call;
  both are parameters of the call. A reply that overflows reports more bytes than the buffer holds
  (`driver/deduper.cpp:1072`); the request machinery is taken to copy no more than the caller's buffer.
- Failing pool allocations and failing private copies are parameters of the operations.
- The controller and the driver are taken to agree on control codes; their headers declare them with
  different access bits (`user/controller.cpp:6-11`, `driver/deduper.h:5-10`).

## Model

| member | source | states |
|---|---|---|
| Engine.DedupeEngine.ScanRegion | user/dedupe_engine.cpp:102-135 | the bucketed scan in place gives the quadratic partition of an opted-in region, leaves any other region alone, and moves the counters by the stated amounts |
| Engine.DedupeEngine.ScanPages | user/dedupe_engine.cpp:110-134 | the loop over pages, with the bucket map holding exactly the representatives seen so far |
| Engine.DedupeEngine.VisitPage | user/dedupe_engine.cpp:116-133 | one page not yet shared is merged into its twin or becomes a representative |
| Engine.DedupeEngine.FindDuplicate | user/dedupe_engine.cpp:121-128 | the search of a candidate list finds a page with equal bytes, or there is none in the list |
| Engine.DedupeEngine.MergePage | user/dedupe_engine.cpp:79-87 | shares the page and counts 4096 bytes saved, or does nothing when the home is already that one |
| Engine.DedupeEngine.ClonePageForWrite | user/dedupe_engine.cpp:89-100 | a shared page becomes a private copy of its bytes; an unshared one is left alone |
| Engine.DedupeEngine.WriteToPage | user/dedupe_engine.cpp:137-152 | overwrites byte 0 of the one page, after unsharing it, or after growing it when empty; an index out of range changes nothing; no counter but the two of writes changes |
| Engine.Page.MarkShared | user/dedupe_engine.cpp:56-59 | sets home and flag, keeps the bytes |
| Engine.MemoryRegion.constructor | user/dedupe_engine.h:33-37 | a region object is a deep copy of the region value |
| Engine.CandidatesInOrder | user/dedupe_engine.cpp:119-128 | candidates precede the page, and one of them holds its bytes exactly when it has an earlier twin, whatever collides |
| Partition.ScanIsNaivePartition | user/dedupe_engine.cpp:102-135 | the scan is the quadratic partition exactly when no unshared page carries a leftover home |
| Partition.NaivePartitionIsUnique | user/dedupe_engine.cpp:102-135 | the quadratic partition determines every page |
| Partition.ScanIsIdempotent | user/dedupe_engine.cpp:102-135 | a second scan changes no page; unshared pages are then pairwise different exactly when there was no leftover home |
| Partition.RepresentativesAreContents | user/dedupe_engine.cpp:130-133 | pages counted unique are the distinct contents among unshared pages |
| Partition.MergedAreTheRest | user/dedupe_engine.cpp:79-87 | without leftover homes every unshared page is either unique or merged |
| Partition.ScannedUnshared | user/dedupe_engine.cpp:84-85 | the scan shares exactly the merged pages |
| Partition.SavingIgnoresOrder | user/dedupe_engine.cpp:102-135 | regions holding the same pages in any order count the same unique and merged pages |
| Buckets.BucketHoldsTwin | user/dedupe_engine.cpp:119-128 | the list for a signature holds the page's twin, and no other page with its bytes |
| Buckets.ProbeBounds | user/dedupe_engine.cpp:119-120 | lower and upper bound of the probes of one scan |
| Buckets.ProbesMinimalExactlyWhenSeparated | user/dedupe_engine.cpp:119-120 | the lower bound is met exactly when no two different scanned pages share a signature |
| Runs.WellFormedHasNoStaleHome | user/dedupe_engine.cpp:79-83 | on pages shared exactly when they have a home, `mergePage` never returns early |
| Runs.ScanDeltas | user/dedupe_engine.cpp:102-135 | exact growth of every counter and of the number of shared pages in one scan |
| Runs.RescanDeltas | user/dedupe_engine.cpp:102-135 | scanning again visits one page per distinct content, all unique |
| Runs.RunKeepsInvariant | user/dedupe_engine.cpp:79-152 | over every run: homes precede pages and exist exactly for shared pages; scanned = unique + duplicate; saved = 4096 * duplicate; shared now = duplicate - copies on write |
| Runs.RunCountsWrites | user/dedupe_engine.cpp:137-141 | over every run no page is added or lost, and writes are counted exactly when their page exists |
| Runs.FreshSatisfiesInvariant | user/dedupe_engine.cpp:49-50 | fresh pages and zero counters satisfy the invariant |
| RunCounters.WriteLeavesScanCounters | user/dedupe_engine.cpp:137-152 | a write counts itself when its page exists and its copy when that page is shared, and leaves the five counters of scans alone |
| RunCounters.WriteLeavesHomes | user/dedupe_engine.cpp:89-152 | a write unshares its page, which loses its home if it was shared and keeps it if not, and touches no other page |
| RunCounters.ProbesArePairs | user/dedupe_engine.cpp:119-120 | the probes of a scan are the pairs of an unshared page and an earlier first page of the same signature |
| RunCounters.RunAddsItsScans | user/dedupe_engine.cpp:102-152 | over every run scanned, unique, duplicate, saved and probed grow by n, u, n-u, 4096*(n-u) and the probe pairs of each scan of an opted-in region, and by nothing else |
| Storage.RootsRepresentPagesExactlyWhenCoherent | user/dedupe_engine.cpp:79-87 | the roots give back every page exactly when each shared page agrees with its own home |
| Storage.WriteKeepsCoherentExactly | user/dedupe_engine.cpp:137-152 | a write keeps that agreement exactly when it does not change a home in use |
| Storage.OverwrittenChangesExactly | user/dedupe_engine.cpp:148-151 | a write changes bytes exactly when the page is empty or byte 0 differs, and touches byte 0 only |
| Storage.StepRefinesFlat | user/dedupe_engine.cpp:102-152 | each operation acts on the bytes as it would on a plain array of pages; a scan changes none |
| Storage.RootsRepresentRunExactly | user/dedupe_engine.cpp:79-152 | over every run from coherent regions the roots represent plain memory throughout exactly when no write changes a home in use |
| Storage.RootsRepresentFreshRunExactly | user/dedupe_engine.cpp:49-152 | so for every run from fresh regions |
| Storage.SharedPagesAreReadOnly | docs/safety_review.md:14-15 | while a page stays shared neither its bytes nor its home change |
| Storage.WritingARepresentativeIsNotCopyOnWrite | user/dedupe_engine.cpp:142-151 | after scanning two equal pages, a changing write to page 0 leaves page 1 sharing a home with other bytes |
| Storage.ChainsForm | user/dedupe_engine.cpp:122-128 | a home merged later into an earlier page leaves a chain of two homes that still leads to the right bytes |
| Hashing.FastHash64 | user/dedupe_engine.cpp:10-22 | the accumulator loop and the finalizer compute the specified hash |
| Hashing.AbsorbInjective | user/dedupe_engine.cpp:12-15 | a step of the accumulator is injective in the state and in the byte |
| Hashing.FinalizeBijective | user/dedupe_engine.cpp:16-20 | the finalizer is a bijection of 64-bit words, with its inverse |
| Hashing.OneByteChangesHash | user/dedupe_engine.cpp:10-22 | strings of equal length that differ in exactly one byte never collide |
| Hashing.CommonSuffixKeepsHash | user/dedupe_engine.cpp:10-22 | a common suffix neither creates nor removes a collision |
| Hashing.ComputeFingerprint | user/dedupe_engine.cpp:24-37 | the sampling loop computes the specified fingerprint, reading inside the page |
| Hashing.SamplesInBoundsExactly | user/dedupe_engine.cpp:27-32 | the samples lie inside the page exactly for lengths of at least 3 other than 8, 9 and 16 |
| Fingerprints.OneByteChangesFingerprint | user/dedupe_engine.cpp:24-37 | on pages of at least eight bytes one changed byte changes the fingerprint exactly when it is sampled, however often |
| Fingerprints.OneByteChangesFingerprintExactlyWhenSampled | user/dedupe_engine.cpp:24-37 | that holds for the pages of a length exactly when the length is at least eight; shorter pages collide |
| SignatureLaws.AbsorbTakesXorFirst | user/dedupe_engine.cpp:12-15 | a step depends on the exclusive or of state and word alone, and multiplies it by the prime |
| SignatureLaws.HashValues | user/dedupe_engine.cpp:10-22 | the hashes of no byte, one byte and two bytes, as numbers |
| SignatureLaws.FingerprintAddsLength | user/dedupe_engine.cpp:36-36 | pages whose samples agree have fingerprints whose exclusive or is that of their lengths modulo 2^32 |
| SignatureLaws.FingerprintTellsLength | user/dedupe_engine.cpp:36-36 | so they share a fingerprint exactly when their lengths agree modulo 2^32 |
| SignatureLaws.ZeroPagesTellLengths | user/dedupe_engine.cpp:24-37 | in particular pages of zeros |
| SignatureLaws.FingerprintOfThreeBytes | user/dedupe_engine.cpp:24-37 | the fingerprint of three bytes, as a number |
| SignatureLaws.FingerprintOfZeroPage | user/dedupe_engine.cpp:24-37 | the fingerprint of 4096 zeros, as a number |
| SignatureLaws.DriverFingerprintFoldsHalves | driver/deduper.cpp:645-645 | the driver's fingerprint is the exclusive or of the halves of the hash, zero exactly when they agree |
| SignatureLaws.OneHalfChangesDriverFingerprint | driver/deduper.cpp:645-645 | hashes that differ in one half alone never share a fingerprint |
| SignatureLaws.DriverSignatureValues | driver/deduper.cpp:637-646 | the driver's signatures of no word and of one word, as numbers |
| Hashing.MakeSignature | user/dedupe_engine.cpp:69-72 | pairs the hash and the fingerprint of a page |
| Hashing.MakePageSignatureFromUserPage | driver/deduper.cpp:637-646 | the driver's word loop computes its specified signature |
| Hashing.DriverSignatureSeparates | driver/deduper.cpp:637-646 | driver signatures agree exactly when hash states do, over any common tail, and one changed word always changes them |
| Signing.WriteChangesSignature | user/dedupe_engine.cpp:148-151 | writing a different byte to a non-empty page always changes its signature |
| Signing.SignableExactly | user/dedupe_engine.cpp:69-72 | a scan reads no byte outside a page exactly when every unshared page has a safe length |
| Signing.SafeLengthsNeverGetStuck | user/dedupe_engine.cpp:102-152 | from safe lengths every sequence of operations on existing regions runs without reading outside a page |
| Scheduling.SelectionExists | user/scan_scheduler.cpp:98-100 | nothing is selected exactly when no opted-in process has a region |
| Scheduling.BestByPredictions | user/scan_scheduler.cpp:81-90 | the best region is the one whose two predictions have the greatest sum, strictly greater than every earlier candidate's |
| Scheduling.BestIsUnique | user/scan_scheduler.cpp:82-95 | the first region of maximal score is unique |
| Scheduling.SameShapeSameSelection | user/scan_scheduler.cpp:75-95 | selection depends on names, opt-in flags and counts only, so scanning does not change it |
| Scheduling.IterationsReachFixpoint | user/scan_scheduler.cpp:47-116 | with no process added every iteration selects the same region, the list is stable from the second on, and the counters follow n+(k-1)u, k*u and n-u |
| Scheduler.ScanScheduler.SelectCandidate | user/scan_scheduler.cpp:67-96 | the nested loops return the first region of maximal sum of predictions among opted-in processes, with their reasons, or the sentinel when there is none |
| Scheduler.ScanScheduler.ScanNextCandidate | user/scan_scheduler.cpp:67-116 | select, copy, scan and write back replace the selected region by its scan and move the counters; the detail is that of the selected region |
| Scheduler.ScanScheduler.WorkerLoop | user/scan_scheduler.cpp:47-65 | the loop, stopped after k wake-ups, has made k iterations |
| Scheduler.ScanScheduler.AddProcess | user/scan_scheduler.cpp:14-17 | appends the process |
| Scheduler.ScanScheduler.SnapshotProcesses | user/scan_scheduler.cpp:42-45 | returns the list as it is |
| Interleaving.StepRefinesAtomicStep | user/scan_scheduler.cpp:73-113 | each step keeps the worker's indices valid and the copied region current, and is a step of the scheduler with atomic scans |
| Interleaving.WorkerIndicesStayValid | user/scan_scheduler.cpp:102-113 | copying and writing back are always possible |
| Interleaving.TraceRefinesAtomicRun | user/scan_scheduler.cpp:67-116 | every interleaving is a run with atomic scans; snapshots see a region wholly before or after its scan |
| Interleaving.TracePreservesProcesses | user/scan_scheduler.cpp:14-116 | no added process is lost or reordered, no byte changes, and opted-out regions and processes stay as they were |
| InterleavedCounters.TraceBalances | user/scan_scheduler.cpp:73-113 | over every interleaving from any counters and well-formed pages: scanned - unique - duplicate, saved - 4096 * duplicate, and shared pages - duplicates, apart from the processes added, never change |
| InterleavedCounters.FreshTraceBalances | user/scan_scheduler.cpp:73-113 | from zero counters and fresh pages: scanned = unique + duplicate, saved = 4096 * duplicate, and the pages shared across all processes are the duplicates |
| PageOrder.CompareBySignatureThenFrame | driver/deduper.cpp:433-458 | the comparator orders by signature, then by frame number unless contents agree, and is antisymmetric |
| PageOrder.CompareByHash | driver/deduper.cpp:437-442 | the smaller hash, as a number, comes first |
| PageOrder.CompareByFingerprint | driver/deduper.cpp:443-448 | with equal hashes, the smaller fingerprint |
| PageOrder.CompareByFrame | driver/deduper.cpp:450-457 | with equal signatures, the smaller frame number, unless the contents agree |
| PageOrder.StrictWeakOrderExactlyWhenContiguous | driver/deduper.cpp:433-458 | it is a strict weak order exactly when equal contents are contiguous within each signature |
| PageOrder.FaithfulSignaturesOrderStrictly | driver/deduper.cpp:433-458 | in particular when equal signatures imply equal contents |
| PageOrder.DescentEndsInPlace | driver/deduper.cpp:433-458 | with contents contiguous, a descent through a tree of any shape that finds nothing ends where the key goes |
| PageOrder.LookupCompleteExactlyWhenContiguous | driver/deduper.cpp:433-458 | every lookup in every tree ordered by it finds a page of the same content if there is one, exactly when contents are contiguous |
| Collisions.DriverSignaturesCollide | driver/deduper.cpp:637-646 | for every page and every other first word there is a different page with the same driver signature |
| Collisions.DriverContentsNeedNotBeContiguous | driver/deduper.cpp:433-458 | three frames holding two such pages on which the comparator is no strict weak order, and a run on them, through trees with the last lookup at their root, that enters one page twice |
| FrameOrder.AddingKeepsPageTable | driver/deduper.cpp:743-745 | on any contents an addition keeps the page table ordered by signature and frame number |
| FrameOrder.DeletionFindsEntry | driver/deduper.cpp:1023-1023 | on any contents deleting a page entry by its key deletes one entry, of the same signature and content |
| FrameOrder.UnsharedEntriesUnmarkNothing | driver/deduper.cpp:1017-1021 | a drain of unshared entries leaves groups and registrations alone |
| OrderedTables.SearchByContent | driver/deduper.cpp:743-745 | with contents contiguous, a lookup through a tree of any shape finds the entry of the frame's content, or the place where a new entry keeps the order |
| OrderedTables.OwnKeyIsFound | driver/deduper.cpp:873-873 | with contents contiguous, deleting an entry by its key deletes that entry |
| OrderedTables.RepresentationIsUnique | driver/deduper.cpp:433-458 | an ordered table is determined by the entries it represents |
| OrderedTables.PromotedRepresents | driver/deduper.cpp:802-839 | with contents contiguous, promotion grows the group of the frame's content, or makes one if the pool serves it, and keeps the table ordered and sound |
| OrderedTables.DemotedRepresents | driver/deduper.cpp:841-878 | with contents contiguous, frame 0 among them, demotion takes the frame out of the group of its content exactly when frame 0 has that content and the group lists the frame, and otherwise changes nothing |
| Registry.MatchesExactly | driver/deduper.cpp:433-452 | an entry equals a key exactly when signature and content agree |
| Registry.GroupsStaySound | driver/deduper.cpp:802-878 | promotion keeps every group duplicate-free, within 64 slots and no longer than its count; demotion does exactly when the deletion of a group it emptied finds that group |
| Registry.DemotionDeletesExactly | driver/deduper.cpp:868-874 | a demotion deletes the group exactly when it took its only frame or its last reference |
| Registry.FaultAnswers | driver/deduper.cpp:574-612 | which answer a fault gets, and that only success takes the page out |
| Registry.RegistrationAnswers | driver/deduper.cpp:972-997 | the answers of entering and removing a frame, and that removal undoes entering |
| Registry.WithoutMembers | driver/deduper.cpp:852-861 | removal takes out exactly one frame |
| Registry.WithoutAt | driver/deduper.cpp:855-858 | removal keeps the order of the other frames |
| Registry.FaultHandledOnce | driver/deduper.cpp:574-612 | a fault takes effect exactly for a write to a protected frame with a private copy, and only once per registration |
| OrderedTables.DemoteUndoesPromoteExactly | driver/deduper.cpp:802-878 | with contents contiguous: demoting a promoted frame restores the groups exactly when frame 0 holds the same words and the frame was new to a group with room or to no group; it finds nothing exactly when frame 0 holds other words or the group was full |
| Grouping.AddingKeepsGrouping | driver/deduper.cpp:735-800 | with contents contiguous, after every accepted observation the table is the grouping by content: first 64 distinct frames in first-seen order, counted as listed frames plus unlisted observations |
| Grouping.ExpectedEntry | driver/deduper.cpp:755-784 | an entry lists the first 64 distinct frames of its content, counts them and every observation of another, and is shared from the second frame on |
| Grouping.DistinctGrowsAtEnd | driver/deduper.cpp:765-766 | later observations are listed after earlier ones |
| Grouping.LaterObservation | driver/deduper.cpp:755-784 | listing while there is room and counting what is not listed keeps an entry the expected one |
| RegistryRuns.GroupOfPromotion | driver/deduper.cpp:802-839 | the group of a promoted content is the one a drain left with the frame observed, or a new one listing that frame |
| Draining.UnmarkingTakesOut | driver/deduper.cpp:1017-1021 | unmarking an entry takes each of its frames out of their group and of the registry when frame 0 has their content, and nothing otherwise, whatever the group lists |
| Draining.DrainClearsZero | driver/deduper.cpp:1007-1028 | from a registry that accounts for the content of frame 0, a drain clears exactly the group and the registrations of that content |
| RegistryBooks.StepKeepsInvariant | driver/deduper.cpp:574-1028 | with contents contiguous, additions, faults and drains keep tables, promotions and registrations in step, whatever the pool refuses and whatever the trees |
| RegistryBooks.DrainAfterRun | driver/deduper.cpp:1007-1028 | every state of a run accounts for the content of frame 0, so a drain after any run clears exactly that content |
| RegistryLaws.RunIsGroupedAndBalanced | driver/deduper.cpp:574-1028 | with contents contiguous, after every run: the page table groups the frames accepted since the last drain; groups are sound, of one content each and of different contents; groups = left over + made; protected + handled faults = left over + entered; promotions = duplicates; no frame entered twice since the drain |
| RegistryLaws.FreshIntervalBooks | driver/deduper.cpp:574-1028 | if the last drain left nothing: groups = duplicates - refused groups, protected = groups - refused registrations - handled faults |
| RegistryLaws.ServedRunBooks | driver/deduper.cpp:574-1028 | with a pool that never refuses, all observations since the last drain are grouped; if that drain left nothing, groups = duplicates and protected = groups - handled faults |
| RegistryLaws.OneGroupPerSharedEntry | driver/deduper.cpp:780-790 | if no group was refused, a content in the page table has a group exactly when a drain left one or at least two distinct frames were seen; a group not left over lists the first of them |
| RegistryLaws.OneGroupPerSharedEntryInRuns | driver/deduper.cpp:735-839 | the same after every run whose pool never refuses, for every frame observed since the last drain |
| RegistryLaws.RunKeepsPageTable | driver/deduper.cpp:1007-1028 | over all runs on any contents the page table stays ordered by signature and frame number, and a drain ends with an empty page table |
| RegistryLaws.RunOrdersHashes | driver/deduper.cpp:437-448 | at every moment of every run the hashes of the page table, as numbers, never decrease from one entry to a later one |
| RegistryLaws.DrainEmptiesExactly | driver/deduper.cpp:841-849 | with contents contiguous, after any run: a drain leaves exactly the groups and protected frames of other content than frame 0's; no protected frame exactly when all hold its words, nothing at all exactly when all groups do, and only then do group and duplicate counts agree again |
| RegistryLaws.DrainCanLeaveProtectedPages | user/driver_test.cpp:173-190 | two observations of other words, after which a drain leaves a protected frame |
| GroupingCondition.GroupingExactlyWhenContiguous | driver/deduper.cpp:735-800 | over all runs on a set of frames and all trees, the page table is the grouping by content exactly when contents are contiguous; the same over the runs whose page-table trees have the last lookup at their root |
| GroupingCondition.HidingRunIsSplayed | driver/deduper.cpp:743-745 | the run that enters a content twice uses such trees only |
| Sections.AdditionIsItsSections | driver/deduper.cpp:735-800 | an atomic addition is its locked sections one after the other |
| Sections.TraceIsGroupedAndBalanced | driver/deduper.cpp:735-897 | with contents contiguous, the page table is the grouping and the books balance at every moment of every interleaving of locked sections |
| Sections.TablesLagByPendingPromotions | driver/deduper.cpp:880-897 | with a pool that never refuses, groups = duplicates - promotions waiting for their group, protected + handled faults = groups - promotions waiting for their registration |
| Sections.DrainBetweenSections | driver/deduper.cpp:786-790 | a drain between the flagging of an entry and its promotion leaves a group and a protected frame that no later drain takes out |
| GroupingCondition.TreesDoNotMatterExactlyWhenContiguous | driver/deduper.cpp:433-458 | what a run reaches is independent of the shapes of the trees exactly when contents are contiguous |
| Driver.Entry.ShiftDown | driver/deduper.cpp:855-858 | the shifting loop closes the gap in the array and keeps the order of the rest |
| Driver.Entry.Observe | driver/deduper.cpp:756-773 | lists a new frame while there is room and counts it |
| Driver.Entry.Remove | driver/deduper.cpp:851-870 | removes one frame from the array and one reference |
| Driver.Table.Lookup | driver/deduper.cpp:846-846 | the descent from the root, guided by the comparator, ends at the specified place |
| Driver.Table.DeleteElement | driver/deduper.cpp:873-873 | deletion searches for the element again and takes out the entry found |
| Driver.Table.PromoteSharedPageGroup | driver/deduper.cpp:802-839 | creates a group or adds the frame to the one found |
| Driver.Table.DemoteSharedPageGroup | driver/deduper.cpp:841-878 | removes the frame from the group found with frame 0, and deletes the group by its key when nothing is left |
| Driver.Table.AddOrObserve | driver/deduper.cpp:743-786 | the locked section of the addition, with its decision to promote |
| Driver.DedupeDriver.AddPageEntry | driver/deduper.cpp:735-800 | the addition on all three tables |
| Driver.DedupeDriver.MarkPageShared | driver/deduper.cpp:880-897 | promotion, then registration if it succeeded |
| Driver.DedupeDriver.UnmarkPageShared | driver/deduper.cpp:899-916 | demotion, then removal from the registry if it succeeded |
| Driver.DedupeDriver.CowFaultCallback | driver/deduper.cpp:574-612 | only a write fault on a protected frame with a private copy changes the registry |
| Driver.DedupeDriver.RegisterCowProtectedPage | driver/deduper.cpp:972-983 | enters a frame once |
| Driver.DedupeDriver.UnregisterCowProtectedPage | driver/deduper.cpp:985-997 | removes a frame, or reports it missing |
| Driver.DedupeDriver.QueryDedupeHealth | driver/deduper.cpp:943-970 | the loop recounts the duplicates; the other counts are table sizes; a short buffer is refused |
| Driver.DedupeDriver.DrainDedupeState | driver/deduper.cpp:1007-1028 | the loops compute the specified drain and end, on any contents, with an empty page table |
| ProcessList.ListOptedInProcesses | driver/deduper.cpp:1048-1074 | fills the buffer with the count and as much of the table as fits, and reports the size needed for the count, which may differ from the table's |
| ProcessList.ListProcesses | user/controller.cpp:172-226 | the retry loop ends within the stated number of calls under a changing table, never needs to double, and prints as many entries as were counted at the last call, which is the table exactly when its size did not change within that call; or it fails where that call failed |
| ProcessList.BuffersGrow | user/controller.cpp:192-198 | each overflow strictly enlarges the buffer |
| ProcessList.UnchangingTableNeedsTwoCalls | user/controller.cpp:176-202 | with an unchanging table one call is enough exactly when the table fits eight words with its count, and two calls always are |

## Left out

- Dispatch of requests, device creation, threads, symbolic links, packaging and signing scripts.
- Process policy checks and the address-space walk of the driver; observations of frames are given.
- The private-copy table: a private copy succeeds or fails and touches nothing else modelled.
- The rebalancing inside the Windows generic tables, beyond what is at the root: any shape is allowed.
- Drains interleaved with the sections of an addition, beyond the case that is shown to fail.
- The time and condition-variable behaviour of the worker, and the predictor's string matching.
- The bucket choice of `PageSignatureHash`, which affects speed only.
- ProcessList.ListProcesses: asks for counts whose size in bytes fits 32 bits, the width in which the controller passes it.
