# Verification of the DLP platform's core

This project models the parts of the data-loss-prevention platform whose
correctness rests on logic rather than on a library or a database, and proves
what they are for. There is one module per component; every main result is a
statement about all inputs, all runs or all reachable states.

* `Fingerprint`, `ShingleText`, `AgentDetect`, `Incidents`: documents become token shingles, shingle hashes and
  a winnowed set of recorded hashes; similarity is set overlap, and an incident
  shows the matched stretches as ranges. The winnowing guarantee is proved for
  every hash function, its bound is tight for every choice of parameters, and a common
  hash means a common shingle or a collision.
* `Widths`, `LittleEndian`, `KeySort`, `Bloom`, `BloomVectors`, `BundleFormat`, `BundleLayout`,
  `IndexBundle`, `BundleTheorems`, `BundleLookup`: the signed index bundle. The writer and the
  parser are inverse, the accepted buffers are exactly the signed encodings, the
  bytes are canonical, and lookup is a linear scan that a filter miss may skip.
* `ScanQueue`, `ScanQueueInvariant`, `ScanQueueRuns`, `ScanQueueFifo`: producers, worker and unload path of the
  asynchronous scan queue as interleaved atomic steps, with the invariant and the order of the jobs over every run.
* `KernelLong`, `EpochRing`, `TaintTable`, `EgressCallout`: the epoch-stamped
  rings and the taint table as arrays updated in place, proved against functions
  on values, and the connect callout that reads the table.
* `VerdictChannel`, `VerdictRuns`, `VerdictCaches`, `VerdictEpochs`: the verdict up-call with its circuit breaker,
  and where the entries of the verdict caches come from, over every run of
  concurrent callers, reconnects and evictions.
* `Sha256`, `Sha256Vectors`, `Sha256Roots`: the streaming hash of the minifilter against FIPS 180-4, a known
  digest and the origin of the constants.
* `CanonicalJson`, `JsonReader`, `AuditChain`, `AuditText`: the canonical encoder, a reader that takes its text for
  the value, and the hash chain that stands on it.
* `Csv`, `EdmIngest`, `NumberForm`, `NumberMeaning`: ingestion of structured datasets. `CodeUnits`: the strings
  of these modules, of the encoder and of text extraction are sequences of UTF-16 code units.
* `ZipExtract`, `ZipOrder`, `ZipEncryption`: text extraction from nested archives under one
  shared budget, and exactly when it refuses.

Where a promise is false of the code, the model keeps the code, a lemma gives a
concrete failing input and another one says exactly when the promise holds:

* A bloom filter of more than 2^31 bits misses members, because the byte offset
  is computed with a 32-bit signed shift (`Bloom.MemberIsFound`,
  `Bloom.LargeFilterMisses`).
* The text of a nested archive is charged to the extraction budget once per
  nesting level, so text well under the documented cap is cut
  (`ZipExtract.LosslessWithinCharge`, `ZipExtract.NestedTextIsChargedTwice`).
* "Encryption anywhere inside refuses the whole container" holds exactly for the
  first refusing fault that is reached (`ZipEncryption.RefusedForEncryption`). Not
  reached are an archive behind a spent budget, one that is corrupt before its
  encrypted entry, one below the depth cap and a member over the size cap
  (`ZipExtract.SpentBudgetHidesEncryption`, `ZipExtract.CorruptHidesEncryption`,
  `ZipEncryption.DepthCapHidesEncryption`, `ZipEncryption.SizeCapHidesEncryption`).
* When the scan worker has been stopped, a callback that had allocated its job but
  not yet entered the rundown still holds it (`ScanQueueRuns.JobsAfterStop`,
  `ScanQueueRuns.JobMayOutliveStop`).
* Under FailMode BLOCK a timed-out write seeds the known-bad hashes although no
  verdict was given (`VerdictEpochs.WriteSeedsUnvalidated`,
  `VerdictEpochs.TimeoutPoisonsBadHash`).
* A reconnect forgets the verdicts before it exactly as far as none of their inserts
  is still to come (`VerdictEpochs.InsertEpochExact`, `VerdictEpochs.KnownBadEpochExact`,
  `VerdictEpochs.ReconnectForgets`, `VerdictEpochs.PendingReconnectBreaks`).
* A key of an old epoch is visible again after 2^32 epoch bumps
  (`EpochRing.HeldKeyIsVisible`, `EpochRing.StaleReturnsAfterWrap`).
* The canonical encoder is not injective outside JSON: NaN prints as null and an array of a
  single `undefined` as the empty array (`CanonicalJson.UndefinedItemIsLost`). Up to key order
  these are the only collisions (`CanonicalJson.SameTextExactly`); the audit writer
  normalizes first (`CanonicalJson.NormalizedIsStored`).
* A bundle whose header lists are not arrays is accepted with indices that name
  no element of an array (`BundleTheorems.AcceptedIndices`, `BundleTheorems.UnsizedAcceptsAnyIndex`).
* The block loop of the streaming hash reads behind an input whose whole blocks end at
  2^32-64 or later (`Sha256.OffsetFitsExactly`, `Sha256.OffsetWraps`).
* A CSV text whose last row is one empty quoted field and has no line end loses
  that row (`Csv.ReadUndoesPrintOpen`).

## Model

| member | source | states |
|---|---|---|
| Fingerprint.ShinglesOf | dlp-management-server/lib/fingerprint.js:59-68 | k below 1 is refused; otherwise the shingles are all windows of k tokens, or the whole shorter document as one |
| Fingerprint.MinIndexIn | dlp-management-server/lib/fingerprint.js:101-108 | the position found is a minimum of the window and every later element is larger: the rightmost minimum |
| Fingerprint.Winnow | dlp-management-server/lib/fingerprint.js:95-125 | w below 1 is refused; otherwise the positions recorded are exactly the rightmost minima, under unsigned comparison, of the full windows (of the whole list when it is shorter), ascending, each with its hash |
| Fingerprint.WinnowingUnique | dlp-management-server/lib/fingerprint.js:84-94 | the rules determine the recorded list, so any two implementations of them agree |
| Fingerprint.WinnowShape | dlp-management-server/lib/fingerprint.js:95-125 | recorded positions start in the first window, end in the last, are strictly increasing with gaps of at most w, and number between n/w and n-w+1 |
| Fingerprint.FingerprintTokens | dlp-management-server/lib/fingerprint.js:130-139 | the pipeline yields a winnowing of the shingle hashes, with the true shingle and token counts |
| Fingerprint.ToHashSet | dlp-management-server/lib/fingerprint.js:146-156 | the set of recorded hashes |
| Fingerprint.IntersectionSize | dlp-management-server/lib/fingerprint.js:158-163 | the cardinality of the intersection, whichever set is scanned |
| Fingerprint.Containment | dlp-management-server/lib/fingerprint.js:168-173 | the fraction of the first set found in the second, 0 when the first is empty |
| Fingerprint.Similarity | dlp-management-server/lib/fingerprint.js:177-185 | containment and coverage are the two directed fractions |
| Fingerprint.SharedRunIsDetected | dlp-management-server/lib/fingerprint.js:85-87 | for every hash function, documents with a common run of at least w+k-1 tokens, wherever it lies in each, have both similarity measures above 0 and at most 1 |
| Fingerprint.WholeDocumentIsContained | dlp-management-server/lib/fingerprint.js:165-173 | a document of at least w+k-1 tokens that occurs whole in another has containment exactly 1 in it |
| Fingerprint.BoundIsTight | dlp-management-server/lib/fingerprint.js:85-87 | for every k and w there are documents that share a run one token shorter and a hash function under which they have no recorded hash in common, so containment is 0 |
| ShingleText.JoinSplits | dlp-management-server/lib/fingerprint.js:61-65 | the text of a shingle is its tokens with one space between neighbours, however it is split |
| ShingleText.JoinInjective | dlp-management-server/lib/fingerprint.js:45-65 | different lists of tokens have different texts |
| ShingleText.CommonHashIsCommonShingle | dlp-management-server/lib/fingerprint.js:130-139 | the converse of detection: a hash recorded for two documents belongs to a shingle that both contain token for token, or to two different texts with that hash |
| ShingleText.WindowRecordsUnsignedMinimum | dlp-management-server/lib/fingerprint.js:84-94 | every full window records its smallest hash as an unsigned 64-bit number, the rightmost among equal ones |
| AgentDetect.IntersectionSize | dlp-agent/src/detect/mod.rs:54-57 | the cardinality of the intersection |
| AgentDetect.SimilarityOf | dlp-agent/src/detect/mod.rs:79-87 | the agent computes the same two fractions as the server's `Fingerprint.Similarity` |
| AgentDetect.ContainmentMeans | dlp-agent/src/detect/mod.rs:59-69 | containment lies in 0 to 1; it is 1 exactly when a nonempty document's hashes are all in the other, and 0 exactly when none is |
| Incidents.CollapseSeqRanges | dlp-management-server/lib/incidents.js:31-46 | the ranges returned are the positions of the maximal runs of consecutive matched rows, in order |
| Incidents.MaximalRunsUnique | dlp-management-server/lib/incidents.js:31-46 | there is only one list of maximal runs for given rows and matches |
| Incidents.CollapseIsExact | dlp-management-server/lib/incidents.js:31-46 | on rows in seq order the ranges are disjoint, ascending, cover exactly the matched rows, and are the only such answer |
| Incidents.RangesMeanMatched | dlp-management-server/lib/incidents.js:31-46 | a row's seq lies in some range exactly when its hash is matched |
| Incidents.RangesAscend | dlp-management-server/lib/incidents.js:31-46 | ranges are disjoint and ascending |
| Incidents.RangesAreMaximal | dlp-management-server/lib/incidents.js:31-46 | between two ranges there is always an unmatched row |
| Incidents.WinnowedRanges | dlp-management-server/lib/incidents.js:31-46 | on the rows of a winnowed document a recorded position lies in a range exactly when its hash is matched |
| ScanQueueInvariant.InvRun | dlp-minifilter/src/dlpflt.c:2418-2470 | the whole invariant (depth, rundown, tokens, stop phases, references) holds in every state of every interleaving of any number of producers, the worker and the stopper |
| ScanQueueRuns.RundownAccounts | dlp-minifilter/src/dlpflt.c:2431-2453 | rundown references equal queued jobs plus jobs acquired but not inserted plus the one dequeued but not released |
| ScanQueueRuns.DepthBound | dlp-minifilter/src/dlpflt.c:2759-2765 | with the unlocked check the depth is the queue length and never exceeds 255 plus the number of producers |
| ScanQueueRuns.NoLostWakeup | dlp-minifilter/src/dlpflt.c:2549-2582 | before stop, tokens plus inserted-not-signalled plus woken-not-dequeued equal the queue length, so a woken worker never finds the queue empty |
| ScanQueueRuns.DroppedExactlyOnce | dlp-minifilter/src/dlpflt.c:2418-2429 | every file reference is dropped at most once, and is dropped exactly when no queue, producer or worker owns its job |
| ScanQueueRuns.RundownIsFinal | dlp-minifilter/src/dlpflt.c:2633-2650 | after the rundown wait nothing is queued, in flight or acquirable |
| ScanQueueRuns.JobsAfterStop | dlp-minifilter/src/dlpflt.c:2633-2658 | when the stop routine has returned, the jobs not yet dropped are exactly those of callbacks that allocated and have not yet tried to acquire the rundown |
| ScanQueueRuns.JobMayOutliveStop | dlp-minifilter/src/dlpflt.c:2633-2658 | a run in which such a job exists after the join |
| ScanQueueRuns.RankFalls | dlp-minifilter/src/dlpflt.c:2640-2645 | while the rundown is awaited every step towards release lowers a rank that no step raises |
| ScanQueueRuns.RundownProgress | dlp-minifilter/src/dlpflt.c:2640-2645 | while it is not satisfied such a step is enabled: the wait cannot deadlock |
| ScanQueueFifo.JobsAreTakenInOrder | dlp-minifilter/src/dlpflt.c:2444-2470 | in every run the jobs the worker took, followed by the queued ones, are the jobs inserted, in that order: none is lost, duplicated or overtaken |
| ScanQueueFifo.GateAt256 | dlp-minifilter/src/dlpflt.c:2757-2765 | a callback is admitted exactly while fewer than 256 jobs are counted |
| ScanQueueFifo.QueuedJobsMove | dlp-minifilter/src/dlpflt.c:2549-2582 | while a job is queued before the stop, the worker or the producer that owes it a signal can move |
| ScanQueueFifo.OneJobIsScanned | dlp-minifilter/src/dlpflt.c:2436-2582 | a run in which a job is admitted, queued, taken, scanned and dropped once, after which all is at rest |
| KernelLong.LongOfCollides | dlp-minifilter/src/dlpflt.c:1304 | two readings of a 32-bit epoch are equal exactly when a multiple of 2^32 bumps lies between them |
| KernelLong.LongOfIsResidue | dlp-minifilter/src/dlpflt.c:1304 | a reading is the number of bumps modulo 2^32 as a signed number |
| EpochRing.InsertedKeepsDeduplicated | dlp-minifilter/src/dlpflt.c:1322-1352 | an insert keeps the last N stamps pairwise different and makes its key visible |
| EpochRing.VisibleForExactlyN | dlp-minifilter/src/dlpflt.c:1290-1352 | a fresh key is visible as long as fewer than N later inserts, of any keys and itself included, were no duplicates, and is gone when exactly N were: using a key again does not renew it |
| EpochRing.UnusedKeyLeaves | dlp-minifilter/src/dlpflt.c:1290-1352 | a key that is not inserted again is visible exactly until N later inserts were no duplicates |
| EpochRing.RunIsDeduplicated | dlp-minifilter/src/dlpflt.c:1321-1352 | over every run no key occupies two slots of one epoch |
| EpochRing.VisibleMeansInserted | dlp-minifilter/src/dlpflt.c:1299-1319 | what a lookup finds, under whichever epoch it read before taking the lock, was inserted with a reading a multiple of 2^32 bumps apart from that one |
| EpochRing.StaleNeverReturns | dlp-minifilter/src/dlpflt.c:1299-1319 | before the epoch wraps, what a lookup finds was inserted under the very epoch it read, after every bump before that reading |
| EpochRing.HeldKeyIsVisible | dlp-minifilter/src/dlpflt.c:1299-1319 | a key the ring still holds under the epoch of one insert is found exactly by the lookups whose epoch reading is a multiple of 2^32 bumps apart from that of the insert |
| EpochRing.StaleReturnsAfterWrap | dlp-minifilter/src/dlpflt.c:1304 | after 2^32 bumps without any insert an old key is visible again |
| EpochRing.Ring.constructor | dlp-minifilter/src/dlpflt.c:1299-1352 | an array of unused slots is the empty log |
| EpochRing.Ring.Lookup | dlp-minifilter/src/dlpflt.c:1299-1319 | the array scan finds a key exactly when its stamp is among the last N of the abstract log |
| EpochRing.Ring.Insert | dlp-minifilter/src/dlpflt.c:1321-1352 | the array update is the FIFO insert on the abstract log: a duplicate changes nothing, otherwise the oldest of N goes |
| EpochRing.FileLookup | dlp-minifilter/src/dlpflt.c:2182-2207 | file id 0 is never found; any other id is looked up in the ring |
| EpochRing.FileInsert | dlp-minifilter/src/dlpflt.c:2210-2254 | file id 0 is never inserted; any other id is inserted as in the ring |
| TaintTable.AddedKeepsConsistent | dlp-minifilter/src/dlpflt.c:1594-1660 | Add keeps the counter equal to the valid slots and one slot per process and epoch |
| TaintTable.RemovedKeepsConsistent | dlp-minifilter/src/dlpflt.c:1662-1687 | Remove keeps both |
| TaintTable.AddEffect | dlp-minifilter/src/dlpflt.c:1594-1660 | after Add its process is tainted, and any other taint survives unless all 1024 slots were valid and it sat in the one slot at the cursor |
| TaintTable.RemoveEffect | dlp-minifilter/src/dlpflt.c:1662-1687 | Remove clears exactly the taints of its process, in every epoch |
| TaintTable.RunIsConsistent | dlp-minifilter/src/dlpflt.c:1563-1696 | over every run of adds, exits and resets the counter is the number of valid slots and no process has two current slots |
| TaintTable.TaintHasOrigin | dlp-minifilter/src/dlpflt.c:2994-3008 | whoever is tainted under an epoch value was added under it after its last exit |
| TaintTable.TaintedOnlySinceReset | dlp-minifilter/src/dlpflt.c:1689-1696 | whoever a lookup finds tainted, under whichever epoch it read before taking the lock, was added after its last exit with a colliding reading; before the epoch wraps with the same one, so after the reset that began it, and after every reset when it is still current |
| TaintTable.TaintLasts | dlp-minifilter/src/dlpflt.c:1594-1660 | a current Add lasts until exit or reset as long as no later Add finds all slots valid, its own process absent and this taint in the slot at the cursor |
| TaintTable.EvictionEndsTaint | dlp-minifilter/src/dlpflt.c:1641-1660 | and such an Add does end it |
| TaintTable.TaintedProcesses.constructor | dlp-minifilter/src/dlpflt.c:1563-1592 | the zeroed array is the table of the empty run |
| TaintTable.TaintedProcesses.Lookup | dlp-minifilter/src/dlpflt.c:1563-1592 | the scan answers membership in the abstract table; process id 0 is never tainted |
| TaintTable.TaintedProcesses.FindFree | dlp-minifilter/src/dlpflt.c:1633-1640 | the first invalid slot, or -1 exactly when all are valid |
| TaintTable.TaintedProcesses.Add | dlp-minifilter/src/dlpflt.c:1594-1660 | the array, counter and cursor after the call are the abstract Add of their old value |
| TaintTable.TaintedProcesses.Remove | dlp-minifilter/src/dlpflt.c:1662-1687 | the array and counter after the call are the abstract Remove of their old value |
| EgressCallout.RemoteIsLocal | dlp-minifilter/src/wfpcallout.c:107-155 | the mask tests pick out exactly the loopback, private and link-local address blocks given by first and last address |
| EgressCallout.ShouldVeto | dlp-minifilter/src/wfpcallout.c:169-223 | a connect is vetoed exactly when it is attributed to a tainted process other than the agent and the system and the policy does not exempt its destination |
| EgressCallout.Classify | dlp-minifilter/src/wfpcallout.c:169-223 | without the write right nothing is touched; otherwise the record says Block with the right removed, or Continue, according to the veto |
| EgressCallout.VetoNeedsFreshTaint | dlp-minifilter/src/wfpcallout.c:169-223 | over every run a veto hits only a process added after its last exit and, before the epoch wraps, after the reset that began the epoch the callout read, which is the last one when that epoch is still current |
| VerdictChannel.Channel.constructor | dlp-minifilter/src/dlpflt.c:256-272 | no client, breaker closed, first epoch |
| VerdictChannel.Channel.PortConnect | dlp-minifilter/src/comms.c:122-171 | connecting records the client, bumps the epoch and closes the breaker |
| VerdictChannel.Channel.PortDisconnect | dlp-minifilter/src/comms.c:174-192 | disconnecting forgets the client and keeps epoch and breaker |
| VerdictChannel.Channel.QueryVerdict | dlp-minifilter/src/comms.c:453-609 | the verdict leaves the FailMode default only through a reply of exact length that echoes the file id and carries a known verdict; timeouts count up, live replies reset, an open breaker sends nothing |
| VerdictRuns.BreakerBound | dlp-minifilter/src/comms.c:490-497 | with n concurrent callers at most 7+n sends time out between two resets, in every interleaving |
| VerdictRuns.RunTraced | dlp-minifilter/src/dlpflt.c:1984-2008 | over every run each cache entry traces to a validated verdict on content that was shipped, or to a write that timed out under FailMode BLOCK; when no reconnect falls between a verdict and its inserts, to one of the epoch the entry carries |
| VerdictRuns.CleanNeedsAllow | dlp-minifilter/src/dlpflt.c:1996-2003 | every known-clean file had a validated ALLOW of reading that file |
| VerdictRuns.BadNeedsBlock | dlp-minifilter/src/dlpflt.c:2526-2540 | under FailMode ALLOW, or when no write timed out, every known-bad hash had a validated BLOCK of shipped content with that hash, and such content was read from every known-sensitive file |
| VerdictCaches.VerdictReachesCaches | dlp-minifilter/src/dlpflt.c:1984-2003 | a validated verdict reaches exactly these caches: a block the hash of shipped content and, on the read paths, the file; an allow the clean files, on the synchronous read path |
| VerdictCaches.NoVerdictNothingCached | dlp-minifilter/src/dlpflt.c:1071-1077 | without a validated verdict nothing is cached, but for a timed-out write under FailMode BLOCK |
| VerdictCaches.KnownBadIsNotAsked | dlp-minifilter/src/dlpflt.c:1068-1070 | content known as bad under the current epoch is not asked about again |
| VerdictCaches.BreakerGate | dlp-minifilter/src/comms.c:490-497 | a message is sent exactly while a scanner is connected and fewer than 8 sends in a row timed out |
| VerdictEpochs.WriteSeedsUnvalidated | dlp-minifilter/src/dlpflt.c:1071-1077 | over every run, a write inserts a new known-bad hash without a verdict exactly when FailMode is BLOCK and the send of that request timed out |
| VerdictEpochs.TimeoutPoisonsBadHash | dlp-minifilter/src/dlpflt.c:1071-1077 | a run that leaves a known-bad hash with no verdict ever given |
| VerdictEpochs.EpochBetween | dlp-minifilter/src/comms.c:157-171 | the epoch never falls, and is the same at two points of a run exactly when there was no reconnect between them |
| VerdictEpochs.EpochReadings | dlp-minifilter/src/comms.c:157-171 | the epoch counts the reconnects, and its 32-bit readings at two points of a run agree exactly when a multiple of 2^32 reconnects lies between them |
| VerdictEpochs.EveryInsertHasOrigin | dlp-minifilter/src/dlpflt.c:1071-1077 | nothing enters a cache but by the insert of a caller that found its hash, got a verdict, or timed out on a write under FailMode BLOCK, and it enters under the epoch of that moment |
| VerdictEpochs.InsertEpochExact | dlp-minifilter/src/dlpflt.c:1322-1330 | an entry inserted after an answer carries the epoch of its verdict exactly when no reconnect came between the reply and the insert |
| VerdictEpochs.KnownBadEpochExact | dlp-minifilter/src/dlpflt.c:2508-2519 | an entry inserted after a hit in the known-bad ring carries the epoch of the entry found exactly when no reconnect came between lookup and insert |
| VerdictEpochs.ReconnectForgets | dlp-minifilter/src/comms.c:157-171 | if no reconnect falls between a verdict or hit and its inserts, every cache entry traces to evidence of its own epoch |
| VerdictEpochs.PendingReconnectBreaks | dlp-minifilter/src/comms.c:157-171 | and the condition is needed: from every state in which a caller still has an insert to make, a reconnect and that insert leave an entry of an epoch without any evidence |
| VerdictEpochs.OldVerdictUnderNewEpoch | dlp-minifilter/src/dlpflt.c:1322-1330 | a run in which an entry carries the epoch after a reconnect although its only verdict is older |
| Sha256.RotrIsRotation | dlp-minifilter/src/dlpflt.c:1165-1198 | the shift-and-or form is the 32-bit rotation for every amount used |
| Sha256.HashOneMore | dlp-minifilter/src/dlpflt.c:1211-1238 | hashing one more block is one more compression: the hash of blocks can be taken in a stream |
| Sha256.Sha256Context.constructor | dlp-minifilter/src/dlpflt.c:1200-1209 | the initial state has absorbed the empty message |
| Sha256.Sha256Context.ExpandSchedule | dlp-minifilter/src/dlpflt.c:1172-1180 | the 64 words are the message schedule of FIPS 180-4 section 6.2.2 |
| Sha256.Sha256Context.Temporaries | dlp-minifilter/src/dlpflt.c:1185-1194 | the two temporaries are those of one round |
| Sha256.Sha256Context.Block | dlp-minifilter/src/dlpflt.c:1165-1198 | the in-place loop is the compression function |
| Sha256.OffsetFitsExactly | dlp-minifilter/src/dlpflt.c:1228-1231 | the 32-bit test for one more block is right exactly when the end of the whole blocks is below 2^32-64; otherwise it passes with less than a block left |
| Sha256.OffsetWraps | dlp-minifilter/src/dlpflt.c:1228-1231 | given 2^32-64 bytes on an empty buffer, the test passes after the whole input was taken |
| Sha256.Sha256Context.Update | dlp-minifilter/src/dlpflt.c:1211-1238 | for every chunk of 32-bit length: no byte behind the chunk is read exactly when that test does not wrap, and the state then stands for the old message followed by the chunk, with the buffer holding its length modulo 64 |
| Sha256.Sha256Context.PadTo56 | dlp-minifilter/src/dlpflt.c:1247-1264 | the message is followed by 0x80 and zeros up to 56 modulo 64, crossing a block boundary when needed; the length clamp is never taken |
| Sha256.Sha256Context.Final | dlp-minifilter/src/dlpflt.c:1240-1277 | for any split into updates the output is the FIPS 180-4 digest of the concatenation |
| Sha256.Sha256Context.Output | dlp-minifilter/src/dlpflt.c:1271-1277 | the words are written big-endian |
| Sha256.ComputeSha256 | dlp-minifilter/src/dlpflt.c:1279-1287 | for every input of 32-bit length: the digest exactly when the test does not wrap, otherwise bytes behind the input would enter |
| Sha256Vectors.DigestOfAbc | dlp-minifilter/src/dlpflt.c:1144-1287 | the digest of the message "abc" is the 32 bytes of the example to FIPS 180-4 |
| Sha256Roots.ConstantsAreCubeRoots | dlp-minifilter/src/dlpflt.c:1144-1161 | each round constant is the first 32 bits of the fraction of the cube root of its prime |
| Sha256Roots.InitialHashIsSquareRoots | dlp-minifilter/src/dlpflt.c:1200-1209 | each word of the initial hash value is that of the square root of its prime |
| CanonicalJson.EscapedPrefixFree | dlp-management-server/lib/audit.js:25 | a quoted string can be told from whatever follows it: equal texts mean equal strings, surrogates and control characters included |
| CanonicalJson.SortPairsSorts | dlp-management-server/lib/audit.js:22 | sorting distinct keys gives a strictly ascending list of the same members |
| CanonicalJson.CanonicalPrefixFree | dlp-management-server/lib/audit.js:14-30 | no printed value is the beginning of another printed value followed by anything that can follow it, at every nesting depth; `undefined` is included, except alone in an array |
| CanonicalJson.SameTextIsEquiv | dlp-management-server/lib/audit.js:14-30 | equal texts mean values equal up to key order, if neither holds NaN or an array of a single `undefined` |
| CanonicalJson.EquivIsSameText | dlp-management-server/lib/audit.js:11-13 | key order never shows in the text, of any value |
| CanonicalJson.CanonicalForm | dlp-management-server/lib/audit.js:14-30 | on JSON values the texts are equal exactly when the values are equal up to object key order at every depth |
| CanonicalJson.SameTextExactly | dlp-management-server/lib/audit.js:14-30 | any two values have the same text exactly when they are equal up to key order once NaN is read as null and an array of a single `undefined` as the empty array |
| CanonicalJson.UndefinedItemIsLost | dlp-management-server/lib/audit.js:15-17 | an array holding one undefined prints as the empty array, and NaN as null |
| CanonicalJson.NormalizedIsStored | dlp-management-server/lib/audit.js:32-38 | whatever detail is passed, NaN, infinities, dates and undefined included, what is hashed is JSON that the column can hold; normalizing it again changes nothing exactly when the detail is not itself NaN or infinite |
| CanonicalJson.RoundTrippedIsEquiv | dlp-management-server/lib/audit.js:32-38 | normalizing a value that is JSON, dates aside, does not change its canonical text |
| JsonReader.CanonicalMeansItsValue | dlp-management-server/lib/audit.js:14-30 | the canonical text of a JSON value is JSON text that a reader, written apart from the encoder, takes for that value up to key order |
| JsonReader.EscapeTable | dlp-management-server/lib/audit.js:25 | the short escapes, four lower-case hex digits for other control characters and half surrogate pairs, every other code unit itself |
| JsonReader.OutsideJson | dlp-management-server/lib/audit.js:14-30 | what is printed for NaN, undefined and an undefined item |
| JsonReader.NormalizeIsRoundTrip | dlp-management-server/lib/audit.js:32-38 | normalizing a detail is reading back what the runtime prints for it, undefined members dropped and undefined items as null; no detail is an empty object |
| AuditChain.AuditLog.constructor | dlp-management-server/lib/audit.js:49-52 | the empty log |
| AuditChain.AuditLog.Audit | dlp-management-server/lib/audit.js:44-73 | one committed call appends one row with exactly the fields of the call and its normalized detail, chained to the hash before it or to "genesis"; a call that rolls back appends none, whether or not it had drawn a sequence number |
| AuditChain.VerifyChain | dlp-management-server/lib/audit.js:77-98 | nothing is returned exactly when every row is consistent; otherwise the sequence number of the first row that is not |
| AuditChain.EntryStringMeans | dlp-management-server/lib/audit.js:40-42 | two entries have the same text exactly when all five fields agree, the detail up to key order |
| AuditText.EntryText | dlp-management-server/lib/audit.js:40-42 | the hashed text of an entry, unit for unit: action, actor, detail, target and ts in this order |
| AuditChain.StoredIsIntact | dlp-management-server/lib/audit.js:11-13 | reordering the keys of stored details breaks no row |
| AuditChain.WrittenIsIntact | dlp-management-server/lib/audit.js:44-73 | every sequence of committed and rolled-back calls yields a consistent chain with ascending sequence numbers |
| AuditChain.CommittedCallsAreLogged | dlp-management-server/lib/audit.js:44-73 | the log has as many rows as there were committed calls, and the row at the place of a committed call holds its fields and its normalized detail |
| AuditChain.EveryRunVerifies | dlp-management-server/lib/audit.js:75-98 | and it verifies however storage orders the keys |
| AuditChain.LogsAgree | dlp-management-server/lib/audit.js:1-5 | two logs that verify and end in the same hash have the same length and the same entries, or two of the texts they hashed collide |
| AuditChain.EditIsLocated | dlp-management-server/lib/audit.js:75-98 | changing the content of one row makes that row the only inconsistent one, unless the change is a hash collision |
| AuditChain.NotCovered | dlp-management-server/lib/audit.js:77-98 | a log cut off at the end or renumbered still verifies |
| Csv.ParseCsv | dlp-management-server/lib/edm.js:149-183 | the index loop reads what the state machine on the remaining text reads, with the same errors at the same offsets |
| Csv.ReadUndoesPrint | dlp-management-server/lib/edm.js:142-183 | for every table of rows with at least one field, any legal choice of quoting and CRLF, LF or CR after each row, reading gives the table back |
| Csv.ReadUndoesPrintOpen | dlp-management-server/lib/edm.js:180-181 | without the last line end it does exactly when the last row is not one empty field |
| Csv.UnclosedQuoteIsRefused | dlp-management-server/lib/edm.js:179 | a quoted field that is never closed refuses the text, wherever it starts |
| Csv.StrayQuoteIsRefused | dlp-management-server/lib/edm.js:170 | a quote inside a field that did not start with one refuses the text, with its offset |
| EdmIngest.DropBlankRows | dlp-management-server/lib/edm.js:212-215 | what remains is a prefix whose last row is not blank |
| EdmIngest.IngestCells | dlp-management-server/lib/edm.js:226-234 | a row adds its non-null cells in order, or reports its first fault |
| EdmIngest.IngestRows | dlp-management-server/lib/edm.js:224-236 | the entries are exactly the non-null cells of the data rows, row-major with 1-based row ids, or the first fault of the first faulty row |
| EdmIngest.IngestCsv | dlp-management-server/lib/edm.js:202-237 | the errors of schema, parse, empty file, header and rows in this order, otherwise the ingested entries |
| EdmIngest.OutcomeUnique | dlp-management-server/lib/edm.js:186-194 | the description of the outcome determines it |
| EdmIngest.PrintedTableIsIngested | dlp-management-server/lib/edm.js:202-237 | a printed table with fitting header, full rows and a non-blank last row is ingested cell for cell |
| EdmIngest.HeaderDecides | dlp-management-server/lib/edm.js:218-222 | a table whose last row is not blank is refused for its header exactly when a name or the number of names differs |
| EdmIngest.BlankRowsAtTheEnd | dlp-management-server/lib/edm.js:212-215 | a last row counts exactly when one of its cells is not blank |
| NumberForm.NormalizeKeepsValue | dlp-management-server/lib/edm.js:73-86 | a cell is accepted exactly when it denotes a number, and its canonical text denotes the same number |
| NumberForm.CanonicalNumber | dlp-management-server/lib/edm.js:73-86 | accepted cells have the same canonical text exactly when they denote the same rational |
| NumberForm.NormalizeIdempotent | dlp-management-server/lib/edm.js:73-86 | normalizing twice is normalizing once, and a negative zero never comes out |
| NumberMeaning.NormalizeMeans | dlp-management-server/lib/edm.js:73-86 | a cell is accepted exactly when, grouping left out, it spells a decimal number by place value, and its canonical text spells the same one |
| NumberMeaning.SameTextSameNumber | dlp-management-server/lib/edm.js:73-86 | cells that spell the same number, and no others, get the same text |
| NumberMeaning.CanonicalShape | dlp-management-server/lib/edm.js:70-86 | the canonical text has no plus sign, no grouping, no superfluous zero and no minus before zero |
| ZipExtract.CollectStream | dlp-management-server/lib/extractText.js:162-178 | over the cap, a broken stream, or complete, decided by the total length |
| ZipExtract.ReadEntry | dlp-management-server/lib/extractText.js:132-151 | what one entry contributes or why it rejects the archive |
| ZipExtract.ReadZipEntries | dlp-management-server/lib/extractText.js:120-158 | the members in archive order, or the first fault |
| ZipExtract.ExtractZip | dlp-management-server/lib/extractText.js:285-308 | with depth between 1 and 3 throughout, the walk and the shared budget do what the walk on values does; it terminates and the budget never goes negative |
| ZipExtract.ExtractContent | dlp-management-server/lib/extractText.js:316-327 | the recursive step of the same |
| ZipExtract.ExtractText | dlp-management-server/lib/extractText.js:337-347 | files over 100 MiB are refused, others extracted from depth 1 with a budget of 10 Mi characters |
| ZipExtract.PiecesWithinBudget | dlp-management-server/lib/extractText.js:285-308 | at every level the pieces together are no longer than what was spent there, and only the last can be empty |
| ZipExtract.OutputWithinBudget | dlp-management-server/lib/extractText.js:281-307 | the text of an archive, separators included, is at most twice what was spent on it |
| ZipExtract.NormalReturnIsUnencrypted | dlp-management-server/lib/extractText.js:114-119 | if extraction returns, its archive has no encrypted entry and every nested archive opened on the way has none either or was given up as corrupt; `ZipEncryption.ReturnsText` is the exact condition |
| ZipExtract.CorruptHidesEncryption | dlp-management-server/lib/extractText.js:300-305 | a nested archive that breaks before its encrypted entry is passed over |
| ZipExtract.SpentBudgetHidesEncryption | dlp-management-server/lib/extractText.js:290 | behind a spent budget a nested archive is never opened |
| ZipExtract.LosslessWithinCharge | dlp-management-server/lib/extractText.js:285-308 | for an archive without refusing faults the result equals extraction without a budget exactly when its charge fits; otherwise text is missing and the budget ends at zero (`ZipEncryption.BudgetRefusal` is the case with such faults) |
| ZipExtract.NestedTextIsChargedTwice | dlp-management-server/lib/extractText.js:294-299 | a text of 6 Mi characters one archive deep is charged 12 Mi and cut to 4 Mi |
| ZipOrder.JoinPlaces | dlp-management-server/lib/extractText.js:307 | piece i of a joined list stands after the pieces before it and one line feed for each, and a line feed follows it unless it is the last |
| ZipOrder.TextsInOrder | dlp-management-server/lib/extractText.js:285-308 | if nothing refuses and the charge fits, the output is every text inside the archive, however deep, in visiting order with line feeds between them |
| ZipOrder.PlainArchive | dlp-management-server/lib/extractText.js:285-308 | nonempty texts that fit the budget come out in archive order |
| ZipOrder.MemberLimit | dlp-management-server/lib/extractText.js:141-148 | a member is kept up to 20 MiB, claimed and actual |
| ZipOrder.DepthLimit | dlp-management-server/lib/extractText.js:292 | a text inside three archives is found, inside four it is not |
| ZipEncryption.FullZipRefuses | dlp-management-server/lib/extractText.js:285-308 | without a budget an archive is refused exactly with the first refusing fault in visiting order: an encrypted or foreign entry or document, or, for the archive itself, corruption |
| ZipEncryption.BudgetRefusal | dlp-management-server/lib/extractText.js:290 | an archive that would be refused without a budget is refused under one exactly when it cannot be read itself or the budget outlasts the charge of everything before the fault; otherwise it returns text with the budget spent |
| ZipEncryption.RefusedForEncryption | dlp-management-server/lib/extractText.js:281-307 | an archive is refused for encryption exactly when the first refusing fault is an encrypted entry or document and is reached before the budget is spent |
| ZipEncryption.ReturnsText | dlp-management-server/lib/extractText.js:281-307 | extraction returns text exactly when the archive can be read and no refusing fault is reached |
| ZipEncryption.DepthCapHidesEncryption | dlp-management-server/lib/extractText.js:292 | at depth 3 a nested archive is skipped whatever it holds |
| ZipEncryption.SizeCapHidesEncryption | dlp-management-server/lib/extractText.js:141-148 | a member over 20 MiB is skipped whatever it holds |
| Widths.ViewsAgree | dlp-management-server/lib/indexBundle.js:50-54 | hashes agree as unsigned exactly when they agree as signed 64-bit integers |
| Widths.ViewsAreResidues | dlp-management-server/lib/indexBundle.js:50-54 | both views are the residue modulo 2^64, in the unsigned and in the signed range |
| LittleEndian.ReadWritten | dlp-management-server/lib/indexBundle.js:126-140 | a written integer that fits is read back |
| LittleEndian.WriteRead | dlp-management-server/lib/indexBundle.js:126-140 | every byte string is the writing of the integer it reads as |
| KeySort.SortByAscends | dlp-management-server/lib/indexBundle.js:159-168 | the comparator chain sorts and keeps every element |
| KeySort.LessMeans | dlp-management-server/lib/indexBundle.js:159-168 | the order is that of a dictionary: the first place that differs decides, and a proper beginning comes first |
| KeySort.SortedKeysCanonical | dlp-management-server/lib/indexBundle.js:159-168 | the sorted keys depend only on the multiset of keys |
| Bloom.Fnv1a64Bytes | dlp-management-server/lib/indexBundle.js:66-73 | the loop is the byte-by-byte fold of the hash |
| Bloom.BloomBitIndexes | dlp-management-server/lib/indexBundle.js:85-96 | one index per probe, each below the number of bits |
| Bloom.SetSlot | dlp-management-server/lib/indexBundle.js:110 | a write sets the addressed bit and no other; outside the buffer it is lost |
| Bloom.BuildBloom | dlp-management-server/lib/indexBundle.js:101-113 | the filter has exactly the addressable bits that some hash of the list hits |
| Bloom.BloomHas | dlp-management-server/lib/indexBundle.js:116-121 | the answer is yes exactly when every probed bit is inside the buffer and set |
| Bloom.FilterUnique | dlp-management-server/lib/indexBundle.js:101-113 | the filter depends only on the set of 64-bit values |
| Bloom.MemberIsFound | dlp-management-server/lib/indexBundle.js:98-121 | a member is found exactly when all its bit indexes read as non-negative 32-bit integers |
| Bloom.SmallFilterHasNoFalseNegative | dlp-management-server/lib/indexBundle.js:98-121 | up to 2^31 bits every member is found |
| Bloom.LargeFilterMisses | dlp-management-server/lib/indexBundle.js:118 | a filter of 2^32-1 bits, all set, still answers no for hash 0 |
| BloomVectors.FnvStepInjective | dlp-management-server/lib/indexBundle.js:66-73 | different bytes lead to different hashes |
| BloomVectors.KnownProbes | dlp-management-server/lib/indexBundle.js:76-96 | the seven bits of hash 0x0123456789abcdef in a filter of 1024 bits |
| BloomVectors.FilterSize | dlp-management-server/lib/indexBundle.js:101-106 | the filter has the least multiple of 64 bits that gives every entry 10 and the whole 1024, and seven probes |
| BundleFormat.BodyRoundTrip | dlp-management-server/lib/indexBundle.js:186-211 | the signed part of a bundle is read back, whatever follows it |
| BundleFormat.BodyInverse | dlp-management-server/lib/indexBundle.js:227-299 | whatever is read fits the format and is the encoding of what was read |
| BundleFormat.ShapeIsExact | dlp-management-server/lib/indexBundle.js:227-308 | a buffer has the right shape exactly when it is the encoding of some body and a signature |
| BundleFormat.ShapeIsPrefixFree | dlp-management-server/lib/indexBundle.js:308 | no such buffer is a proper beginning of another |
| BundleLayout.Front | dlp-management-server/lib/indexBundle.js:199-207 | the bytes DLPX1, version 1, the header behind its length, the filter numbers and the filter stand at these offsets |
| BundleLayout.SectionCounts | dlp-management-server/lib/indexBundle.js:207-210 | each section starts with its count |
| BundleLayout.IdmEntryAt | dlp-management-server/lib/indexBundle.js:186-190 | document entry i has its hash and its index at these offsets |
| BundleLayout.EdmEntryAt | dlp-management-server/lib/indexBundle.js:191-197 | structured entry i has hash, source, row and field at these offsets |
| IndexBundle.WriteIdm | dlp-management-server/lib/indexBundle.js:186-190 | the section's bytes, or a range error exactly when some index does not fit |
| IndexBundle.WriteEdm | dlp-management-server/lib/indexBundle.js:191-197 | the same for the structured entries |
| IndexBundle.BuildBundle | dlp-management-server/lib/indexBundle.js:158-216 | a bundle is written exactly when every number fits its field, and is then the encoding of the data's header, filter and sorted entries, signed or not |
| BundleLayout.IdmOrder | dlp-management-server/lib/indexBundle.js:159-161 | documents are sorted by unsigned hash, then by index |
| BundleLayout.EdmOrder | dlp-management-server/lib/indexBundle.js:162-168 | structured entries by unsigned hash, then source, row and field |
| IndexBundle.ReadUintAt | dlp-management-server/lib/indexBundle.js:230-232 | a read at an offset is in bounds or refused |
| IndexBundle.ParseIdm | dlp-management-server/lib/indexBundle.js:265-279 | the section is accepted with its entries, or refused because it is cut off, unsorted or out of range |
| IndexBundle.ParseEdm | dlp-management-server/lib/indexBundle.js:281-299 | the same for the structured entries |
| IndexBundle.ParseHeader | dlp-management-server/lib/indexBundle.js:243-253 | the header bytes, or refused when cut off |
| IndexBundle.ParseBloom | dlp-management-server/lib/indexBundle.js:255-263 | the filter, or refused when its parameters or bytes are wrong |
| IndexBundle.ParseSignature | dlp-management-server/lib/indexBundle.js:301-308 | the signature, which must end the buffer |
| IndexBundle.VerifyAndParse | dlp-management-server/lib/indexBundle.js:227-316 | on every byte string the offset walk ends, reads in bounds and accepts exactly what the checks on the decoded whole accept |
| BundleTheorems.AcceptsWritten | dlp-management-server/lib/indexBundle.js:301-316 | an encoding is accepted according to the header, order, range and count checks and the signature over exactly the bytes before its length field |
| BundleTheorems.AcceptedWasWritten | dlp-management-server/lib/indexBundle.js:227-316 | every accepted buffer is such an encoding |
| BundleTheorems.AcceptedIsPrefixFree | dlp-management-server/lib/indexBundle.js:308 | no accepted buffer is a proper beginning of another, whoever signed it |
| BundleTheorems.AcceptedSections | dlp-management-server/lib/indexBundle.js:271-299 | accepted sections ascend as unsigned hashes at any distance, and where the header lists are arrays every index is in range |
| BundleLayout.HeaderIsThatOfData | dlp-management-server/lib/indexBundle.js:170-178 | a loaded bundle has the header it was built with, counts and lists included |
| BundleLayout.AcceptedHeader | dlp-management-server/lib/indexBundle.js:277-316 | counts in an accepted header are those of the sections; without a list the section is empty, and a list with a numeric length bounds the indices |
| BundleTheorems.AcceptedIndices | dlp-management-server/lib/indexBundle.js:277-297 | acceptance makes every index name an element of an array exactly when the section is empty or the header list is an array, whatever else that list may be: absent, a string, an object with or without a length |
| BundleTheorems.UnsizedAcceptsAnyIndex | dlp-management-server/lib/indexBundle.js:277 | a signed bundle whose document list has no length is accepted with any index |
| BundleTheorems.BundleRoundTrip | dlp-management-server/lib/indexBundle.js:136-316 | a built and signed bundle is accepted exactly when its entries index into its lists, and gives back the header, the filter and the signed entries in ascending unsigned order: the writer's order always satisfies the parser |
| BundleTheorems.EntriesAreConserved | dlp-management-server/lib/indexBundle.js:136-197 | the entries read back are the entries put in, as multisets |
| BundleTheorems.BundleBytesAreCanonical | dlp-management-server/lib/indexBundle.js:143-211 | permuting the entries or replacing hashes by other representatives modulo 2^64 does not change a byte |
| BundleLookup.IndexIdm | dlp-management-server/lib/indexBundle.js:319-324 | the table holds, for every stored hash, the hits of the scan in order |
| BundleLookup.IndexEdm | dlp-management-server/lib/indexBundle.js:325-335 | the same for the structured entries |
| BundleLookup.LoadBundle | dlp-management-server/lib/indexBundle.js:227-349 | an accepted buffer comes with its two tables |
| BundleLookup.LookupIsScan | dlp-management-server/lib/indexBundle.js:336-348 | for a hash in any representation, lookup gives the order-preserving filter of the entries |
| BundleLookup.HitsNameTheirDocument | dlp-management-server/lib/indexBundle.js:319-335 | for a built and loaded bundle every hit hands out the document or the source of the data that its index names |
| BundleLookup.HitsAreWhatWasEntered | dlp-management-server/lib/indexBundle.js:336-348 | and the hits of a hash in any representation are, as a multiset, the documents and the cells that were entered under it |
| BundleLookup.FilterMissMeansNoHit | dlp-management-server/lib/indexBundle.js:101-121 | for a built and accepted bundle with at most 2^31 filter bits, a filter miss means both lookups are empty |

## Left out

- Text normalization, NFKC and Unicode classes, and the FNV hash of strings: documents are sequences of normalized tokens and the shingle hash is a parameter.
- `serializeFingerprints`, which only prints hashes as strings.
- Similarity is a real number; floating-point rounding of the quotient is not modelled.
- Header JSON text and RSA: an encoder, a parser, a signer and a verifier with the laws they are used for. The wording of a refusal by the bundle parser is not modelled, only that it refuses.
- `compileBundle` and all other SQL; the database appears only as a log that commits or rolls back and may reorder the keys of a stored detail.
- Sorting by the runtime's library is a sorting function, not its algorithm.
- Windows, WDK and WFP calls, IRQL, exception handling, pool allocation and tracing: locked regions, interlocked operations, semaphores and the rundown are atomic steps.
- `DlpStartScanWorker` and its failure paths; spurious semaphore wakeups other than the modelled ones.
- The exfiltration list: `ExfilCount` counts zeros and is not lowered on removal, and concurrent stability of its verdict is not claimed.
- Process create times in the taint table are stored but advisory, as in the code.
- VerdictRuns.RunTraced: the caches are sets with arbitrary eviction there; that the rings evict first in, first out is proved in EpochRing. The first lookups of the read path, which seed nothing, are not steps.
- Sha256.Sha256Context.Update: does not say what becomes of the state once the source reads behind its input, because those bytes are not the program's; its callers ship at most 4 MiB.
- Sha256.ComputeSha256: the same for a one-shot input, which wraps exactly from 2^32-64 bytes on.
- VerdictEpochs.EpochBetween: stamps and lookups of the verdict caches compare the number of reconnects, the source a 32-bit reading of it; up to 2^32 reconnects these agree (`VerdictEpochs.EpochReadings`), and what comes after is proved for the rings alone in EpochRing.
- VerdictEpochs.InsertEpochExact: epochs are such numbers here too, as in all results of VerdictRuns and VerdictEpochs.
- Fingerprint.ToHashSet: takes recorded fingerprints; bare hashes, decimal strings and sets of strings, which the source also accepts, are not modelled.
- Sha256.Sha256Context.Final: the digest is claimed for messages below 2^64 bits, the limit of the standard.
- Bloom.LargeFilterMisses: concerns stored parameters; the runtime's own limit on set size keeps the builder far below such a filter.
- Numbers in audit details are kept as the text the runtime prints; values with their own `toJSON` other than dates, and what the column type refuses, are not modelled. Actor, action and target are strings, as at every call site.
- EdmIngest.IngestCsv: field normalization, case folding, blankness and the digest are parameters; `normalizeDate` is left out because years below 1000 print unpadded.
- ZipExtract.ExtractZip: file extensions, inflation, PDF and office text are abstract: a member is what its extractor makes of it, or a nested archive.
- Enrollment tokens, the job queue, key rotation, sessions, storage, the agent's other modules and the frontend.
